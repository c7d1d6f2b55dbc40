/**
 * The request handlers of server/handlers.go: resolving the `X-Code` header
 * to a status code, the error-page response, and the health check.
 */
module Server {
  import opened Wrappers
  import opened Http
  import opened Strconv
  import opened Errorpage

  /** The code used when the header is missing or not an integer. */
  const DefaultCode := 404

  /** `parseCode`: "" and every string `strconv.Atoi` rejects resolve to 404. */
  function ParseCode(codeStr: string): (code: int)
    ensures codeStr == "" ==> code == 404
    ensures InInt64(code)
  {
    if codeStr == "" then DefaultCode
    else match Atoi(codeStr)
      case Success(n) => n
      case Failure(_) => DefaultCode
  }

  /**
   * The exact behaviour of `parseCode`: an optional sign and one or more
   * decimal digits whose value fits in int64 resolve to that value (leading
   * zeros, negatives and 0 included); anything else resolves to 404.
   */
  lemma ParseCodeCorrect(codeStr: string)
    ensures ParseCode(codeStr) ==
            if IsDecimal(codeStr) && InInt64(Denotation(codeStr)) then Denotation(codeStr) else 404
  {
    AtoiCorrect(codeStr);
  }

  /** Every int64 written in decimal is resolved to itself. */
  lemma ParseCodeFormatted(n: int)
    requires InInt64(n)
    ensures ParseCode(Itoa(n)) == n
  {
    AtoiItoa(n);
  }

  /** Strings of the shapes `Atoi` rejects all resolve to 404. */
  lemma ParseCodeRejects(codeStr: string)
    requires !IsDecimal(codeStr) || !InInt64(Denotation(codeStr))
    ensures ParseCode(codeStr) == 404
  {
    ParseCodeCorrect(codeStr);
  }

  /** A lone sign, surrounding whitespace, a digit separator and a hex prefix all resolve to 404. */
  lemma ParseCodeMalformedExamples()
    ensures ParseCode("+") == 404 && ParseCode("-") == 404
    ensures ParseCode(" 503") == 404 && ParseCode("503 ") == 404
    ensures ParseCode("5_03") == 404 && ParseCode("0x1F") == 404
  {
    ParseCodeRejects(" 503");
    ParseCodeRejects("503 ");
    assert !IsDigit("5_03"[1]);
    ParseCodeRejects("5_03");
    ParseCodeRejects("0x1F");
  }

  /** A sign and leading zeros are accepted; negatives and 0 are kept as they are. */
  lemma ParseCodeDecimalExamples()
    ensures ParseCode("503") == 503 && ParseCode("+503") == 503
    ensures ParseCode("-0042") == -42 && ParseCode("0") == 0
  {
    ParseCodePlain();
    ParseCodePlusSign();
    ParseCodeLeadingZeros();
    ParseCodeFormatted(0);
    assert Itoa(0) == "0";
  }

  lemma ParseCodePlain()
    ensures ParseCode("503") == 503
  {
    ParseCodeFormatted(503);
    assert Itoa(503) == "503";
  }

  lemma ParseCodePlusSign()
    ensures ParseCode("+503") == 503
  {
    assert FormatNat(503) == "503";
    assert Unsigned("+503") == "503";
    ParseCodeCorrect("+503");
  }

  lemma ParseCodeLeadingZeros()
    ensures ParseCode("-0042") == -42
  {
    assert FormatNat(42) == "42";
    assert Unsigned("-0042") == ['0'] + (['0'] + "42");
    MagnitudeCons('0', "42");
    MagnitudeCons('0', ['0'] + "42");
    ParseCodeCorrect("-0042");
  }

  /** A decimal numeral beyond the int64 range resolves to 404. */
  lemma ParseCodeOutOfRange(n: int)
    requires !InInt64(n)
    ensures ParseCode(Itoa(n)) == 404
  {
    ItoaDenotes(n);
    ParseCodeCorrect(Itoa(n));
  }

  // ---------------------------------------------------------------------
  // The error-page handler

  const HtmlHeader: map<string, string> :=
    map["Content-Type" := "text/html; charset=utf-8", "Server" := "server"]

  const InternalServerError := "Internal Server Error"

  /**
   * What `errorHandler` leaves for a request whose `X-Code` header reads
   * `codeStr`: on a render error the `http.Error` reply, otherwise the HTML
   * headers, then the status, then the page.
   */
  function Respond(ep: ErrorPage, codeStr: string): Outcome
  {
    match ep.Render(ParseCode(codeStr))
    case Success(rendered) => HeadersThenStatus(HtmlHeader, rendered.statusCode, rendered.body)
    case Failure(_) => HeadersThenStatus(ErrorHeader, StatusInternalServerError, AsciiBytes(InternalServerError + "\n"))
  }

  /**
   * `errorHandler(ep)`: resolve the code, render, and on success set the
   * HTML headers before writing the status and the body; on a render error
   * reply 500 with a plain-text message instead.
   */
  method ErrorHandler(ep: ErrorPage, r: Request, w: ResponseWriter)
    requires w.Valid() && w.Fresh()
    modifies w
    ensures w.Valid()
    ensures w.Emitted() == Respond(ep, HeaderGet(r.header, "X-Code"))
  {
    var codeStr := HeaderGet(r.header, "X-Code");
    var code := ParseCode(codeStr);
    var rendered := ep.Render(code);
    if rendered.Failure? {
      Error(w, InternalServerError, StatusInternalServerError);
      return;
    }
    w.SetHeader("Content-Type", "text/html; charset=utf-8");
    w.SetHeader("Server", "server");
    assert w.header == HtmlHeader;
    w.WriteHeader(rendered.value.statusCode);
    if w.panicked {
      // `WriteHeader` panicked on a code outside 100..999: the handler unwinds here
      return;
    }
    w.Write(rendered.value.body);
    assert [] + rendered.value.body == rendered.value.body;
  }

  /**
   * On a successful render: a resolved code outside 100..999 makes
   * `WriteHeader` panic, so no final response is written; an informational
   * code goes out as an interim response followed by a final 200 with the
   * page; any other code is the final status, with the HTML headers and the
   * rendered bytes (dropped for 101, 204 and 304).
   */
  lemma RespondOnSuccess(ep: ErrorPage, codeStr: string)
    requires ep.Render(ParseCode(codeStr)).Success?
    ensures Respond(ep, codeStr).final.Some? <==> ValidCode(ParseCode(codeStr))
    ensures Informational(ParseCode(codeStr)) ==>
              Respond(ep, codeStr) ==
              Outcome([Interim(ParseCode(codeStr), HtmlHeader)],
                      Some(Response(StatusOK, HtmlHeader, ep.tmpl(Lookup(ep.errorsMap, ParseCode(codeStr))).output)))
    ensures ValidCode(ParseCode(codeStr)) && !Informational(ParseCode(codeStr)) ==>
              Respond(ep, codeStr).interim == [] &&
              Respond(ep, codeStr).final.value.status == ParseCode(codeStr) &&
              Respond(ep, codeStr).final.value.header["Content-Type"] == "text/html; charset=utf-8" &&
              Respond(ep, codeStr).final.value.header["Server"] == "server" &&
              Respond(ep, codeStr).final.value.body ==
                (if BodyAllowed(ParseCode(codeStr)) then ep.tmpl(Lookup(ep.errorsMap, ParseCode(codeStr))).output else [])
  {
  }

  /** On a render error the reply is 500 with a plain-text body; no HTML header and no rendered byte is sent. */
  lemma RespondOnRenderError(ep: ErrorPage, codeStr: string)
    requires ep.Render(ParseCode(codeStr)).Failure?
    ensures Respond(ep, codeStr).interim == [] && Respond(ep, codeStr).final.Some?
    ensures Respond(ep, codeStr).final.value.status == 500
    ensures Respond(ep, codeStr).final.value.header["Content-Type"] == "text/plain; charset=utf-8"
    ensures "Server" !in Respond(ep, codeStr).final.value.header
    ensures Respond(ep, codeStr).final.value.body == AsciiBytes("Internal Server Error\n")
  {
    assert InternalServerError + "\n" == "Internal Server Error\n";
  }

  /**
   * A numeric header reaches `WriteHeader` unchanged when the page renders:
   * a code in 100..999 that is not informational is the final status, an
   * informational one is followed by 200, and any other int64 panics.
   */
  lemma RespondNumericHeader(ep: ErrorPage, n: int)
    requires InInt64(n)
    requires ep.tmpl(Lookup(ep.errorsMap, n)).err.None?
    ensures ValidCode(n) && !Informational(n) ==>
              Respond(ep, Itoa(n)).final.Some? && Respond(ep, Itoa(n)).final.value.status == n
    ensures Informational(n) ==>
              Respond(ep, Itoa(n)).interim == [Interim(n, HtmlHeader)] &&
              Respond(ep, Itoa(n)).final.Some? && Respond(ep, Itoa(n)).final.value.status == StatusOK
    ensures !ValidCode(n) ==> Respond(ep, Itoa(n)) == Outcome([], None)
  {
    ParseCodeFormatted(n);
  }

  /**
   * End to end: with a definition `{404, "Not Found", "The page was not
   * found."}`, `X-Code: 404` and a request without the header both render
   * that record with status 404, `X-Code: 999` renders the generic record
   * carrying 999, and `X-Code: 0` makes `WriteHeader` panic.
   */
  lemma RespondEndToEnd(ep: ErrorPage)
    requires ep.errorsMap == TableOf([ErrorInfo(404, "Not Found", "The page was not found.")])
    requires forall info :: ep.tmpl(info).err.None?
    ensures Respond(ep, "404") ==
            Outcome([], Some(Response(404, HtmlHeader, ep.tmpl(ErrorInfo(404, "Not Found", "The page was not found.")).output)))
    ensures Respond(ep, "") == Respond(ep, "404")
    ensures Respond(ep, "999") == Outcome([], Some(Response(999, HtmlHeader, ep.tmpl(Fallback(999)).output)))
    ensures Respond(ep, "0") == Outcome([], None)
  {
    ParseCodeFormatted(404);
    ParseCodeFormatted(999);
    ParseCodeFormatted(0);
    assert Itoa(404) == "404" && Itoa(999) == "999" && Itoa(0) == "0";
  }

  // ---------------------------------------------------------------------
  // The health check

  const HealthzHeader: map<string, string> := map["Content-Type" := "text/plain; charset=utf-8"]

  /** `healthzHandler`: 200, plain text, body "ok". */
  method HealthzHandler(r: Request, w: ResponseWriter)
    requires w.Valid() && w.Fresh()
    modifies w
    ensures w.Valid()
    ensures w.Emitted() == Outcome([], Some(Response(StatusOK, HealthzHeader, AsciiBytes("ok"))))
  {
    w.SetHeader("Content-Type", "text/plain; charset=utf-8");
    w.WriteHeader(StatusOK);
    w.Write(AsciiBytes("ok"));
    assert [] + AsciiBytes("ok") == AsciiBytes("ok");
  }
}
