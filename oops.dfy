/**
 * The legacy duplicate of the service (pkg/oops/oops.go).  It keeps the
 * template and the table in package globals, loads definitions without
 * rejecting code 0, and its error handler writes the status line before it
 * sets the headers and streams the template straight into the response,
 * ignoring template errors.
 */
module Oops {
  import opened Wrappers
  import opened Http
  import opened Strconv
  import Errorpage
  import Server

  const TemplateFile := "template.tmpl"
  const ErrorsFile := "errors.yaml"

  /** The legacy `loadErrors`: every decoded entry is inserted, code 0 included. */
  method LoadErrors(decoded: Result<seq<Errorpage.ErrorInfo>, string>) returns (r: Result<map<int, Errorpage.ErrorInfo>, Errorpage.LoadError>)
    ensures decoded.Failure? ==> r == Failure(Errorpage.SourceError(decoded.error))
    ensures decoded.Success? ==> r == Success(Errorpage.TableOf(decoded.value))
  {
    if decoded.Failure? {
      return Failure(Errorpage.SourceError(decoded.error));
    }
    var entries := decoded.value;
    var m: map<int, Errorpage.ErrorInfo> := map[];
    for i := 0 to |entries|
      invariant m == Errorpage.TableOf(entries[..i])
    {
      assert entries[..i + 1][..i] == entries[..i];
      m := m[entries[i].code := entries[i]];
    }
    assert entries[..|entries|] == entries;
    return Success(m);
  }

  /** The code resolution written inline in the legacy `errorHandler`. */
  function ResolveCode(codeStr: string): (code: int)
    ensures InInt64(code)
    ensures codeStr == "" || Atoi(codeStr).Failure? ==> code == 404
    ensures codeStr != "" && Atoi(codeStr).Success? ==> code == Atoi(codeStr).value
  {
    if codeStr == "" then 404
    else
      var parsed := Atoi(codeStr);
      if parsed.Failure? then 404 else parsed.value
  }

  /** The inline resolution is `parseCode` of the current handlers. */
  lemma ResolveCodeIsParseCode(codeStr: string)
    ensures ResolveCode(codeStr) == Server.ParseCode(codeStr)
  {
  }

  /** The inline lookup written in the legacy `errorHandler`. */
  function LookupInfo(errorsMap: map<int, Errorpage.ErrorInfo>, code: int): (info: Errorpage.ErrorInfo)
    ensures code in errorsMap ==> info == errorsMap[code]
    ensures code !in errorsMap ==>
              info.code == code && info.title == "Error" &&
              info.message == "An unexpected error occurred. Please try again later."
  {
    if code in errorsMap then errorsMap[code]
    else Errorpage.ErrorInfo(code, "Error", "An unexpected error occurred. Please try again later.")
  }

  /** The legacy lookup falls back exactly as the current one does, carrying the requested code. */
  lemma LookupInfoIsLookup(errorsMap: map<int, Errorpage.ErrorInfo>, code: int)
    ensures LookupInfo(errorsMap, code) == Errorpage.Lookup(errorsMap, code)
  {
  }

  /** The package globals `tmpl` and `errorsMap`. */
  class Globals {
    var tmpl: Option<Errorpage.Template>
    var errorsMap: map<int, Errorpage.ErrorInfo>

    constructor ()
      ensures tmpl == None && errorsMap == map[]
    {
      tmpl := None;
      errorsMap := map[];
    }

    /**
     * The loading part of `Oops()`: the template, then the definitions,
     * each failure being fatal.  Routing and serving come after and are not
     * modelled.
     */
    method Oops(loadTemplate: string -> Result<Errorpage.Template, string>,
                readErrors: string -> Result<seq<Errorpage.ErrorInfo>, string>)
      returns (fatal: Option<Errorpage.FatalError>)
      modifies this
      ensures loadTemplate(TemplateFile).Failure? ==>
                fatal == Some(Errorpage.TemplateLoadFailed(loadTemplate(TemplateFile).error)) && tmpl == None
      ensures loadTemplate(TemplateFile).Success? && readErrors(ErrorsFile).Failure? ==>
                fatal == Some(Errorpage.ErrorsLoadFailed(Errorpage.SourceError(readErrors(ErrorsFile).error))) &&
                errorsMap == map[]
      ensures loadTemplate(TemplateFile).Success? && readErrors(ErrorsFile).Success? ==>
                fatal == None && tmpl == Some(loadTemplate(TemplateFile).value) &&
                errorsMap == Errorpage.TableOf(readErrors(ErrorsFile).value)
    {
      var t := loadTemplate(TemplateFile);
      if t.Failure? {
        tmpl := None;
        return Some(Errorpage.TemplateLoadFailed(t.error));
      }
      tmpl := Some(t.value);
      var m := LoadErrors(readErrors(ErrorsFile));
      if m.Failure? {
        errorsMap := map[];
        return Some(Errorpage.ErrorsLoadFailed(m.error));
      }
      errorsMap := m.value;
      return None;
    }
  }

  /** The headers the legacy `errorHandler` sets, after the status line. */
  const LegacyHeader: map<string, string> :=
    map["Content-Type" := "text/html; charset=utf-8", "Server" := "oops"]

  /**
   * What the legacy `errorHandler` leaves: the resolved code written first,
   * then its headers, then whatever the template wrote before it finished
   * or failed.
   */
  function Respond(tmpl: Errorpage.Template, errorsMap: map<int, Errorpage.ErrorInfo>, codeStr: string): Outcome
  {
    var code := ResolveCode(codeStr);
    StatusThenHeaders(code, LegacyHeader, tmpl(LookupInfo(errorsMap, code)).output)
  }

  /** The legacy `errorHandler`, in its own order of writes. */
  method ErrorHandler(g: Globals, r: Request, w: ResponseWriter)
    requires g.tmpl.Some?
    requires w.Valid() && w.Fresh()
    modifies w
    ensures w.Valid()
    ensures w.Emitted() == Respond(g.tmpl.value, g.errorsMap, HeaderGet(r.header, "X-Code"))
  {
    var codeStr := HeaderGet(r.header, "X-Code");
    var code: int;
    if codeStr == "" {
      code := 404;
    } else {
      var parsed := Atoi(codeStr);
      code := if parsed.Failure? then 404 else parsed.value;
    }
    w.WriteHeader(code);
    if w.panicked {
      // `WriteHeader` panicked on a code outside 100..999: nothing after it runs
      return;
    }
    w.SetHeader("Content-Type", "text/html; charset=utf-8");
    w.SetHeader("Server", "oops");
    assert !w.wroteHeader ==> w.header == LegacyHeader;
    var errInfo := LookupInfo(g.errorsMap, code);
    var out := g.tmpl.value(errInfo);
    // the template writes into the response as it executes; an error is only logged
    w.Write(out.output);
    assert [] + out.output == out.output;
  }

  /** The legacy `healthzHandler`: 200, plain text, body "ok". */
  method HealthzHandler(r: Request, w: ResponseWriter)
    requires w.Valid() && w.Fresh()
    modifies w
    ensures w.Valid()
    ensures w.Emitted() == Outcome([], Some(Response(StatusOK, Server.HealthzHeader, AsciiBytes("ok"))))
  {
    w.SetHeader("Content-Type", "text/plain; charset=utf-8");
    w.WriteHeader(StatusOK);
    w.Write(AsciiBytes("ok"));
    assert [] + AsciiBytes("ok") == AsciiBytes("ok");
  }

  // ---------------------------------------------------------------------
  // The legacy version against the current one

  /**
   * The headers the handler sets after the status line reach the client
   * only when that status was informational: for a final status its own
   * `Content-Type` and `Server` values are never sent.
   */
  lemma LegacyHeadersLost(tmpl: Errorpage.Template, errorsMap: map<int, Errorpage.ErrorInfo>, codeStr: string)
    ensures var code := Server.ParseCode(codeStr);
            ValidCode(code) && !Informational(code) ==>
              Respond(tmpl, errorsMap, codeStr).final.Some? &&
              Respond(tmpl, errorsMap, codeStr).final.value.header == map[]
    ensures var code := Server.ParseCode(codeStr);
            Informational(code) ==>
              Respond(tmpl, errorsMap, codeStr).interim == [Interim(code, map[])] &&
              Respond(tmpl, errorsMap, codeStr).final.Some? &&
              Respond(tmpl, errorsMap, codeStr).final.value.header == LegacyHeader
  {
    ResolveCodeIsParseCode(codeStr);
  }

  /**
   * A template error does not turn into a 500: the status stays the
   * resolved code and the body is what the template wrote before failing.
   */
  lemma LegacyIgnoresTemplateError(tmpl: Errorpage.Template, errorsMap: map<int, Errorpage.ErrorInfo>, codeStr: string)
    requires tmpl(LookupInfo(errorsMap, Server.ParseCode(codeStr))).err.Some?
    ensures var code := Server.ParseCode(codeStr);
            var out := tmpl(LookupInfo(errorsMap, code)).output;
            ValidCode(code) && !Informational(code) ==>
              Respond(tmpl, errorsMap, codeStr) ==
              Outcome([], Some(Response(code, map[], if BodyAllowed(code) then out else [])))
    ensures var code := Server.ParseCode(codeStr);
            Informational(code) ==>
              Respond(tmpl, errorsMap, codeStr).final ==
              Some(Response(StatusOK, LegacyHeader, tmpl(LookupInfo(errorsMap, code)).output))
  {
    ResolveCodeIsParseCode(codeStr);
  }

  /**
   * Where the current version renders, both versions send the same interim
   * statuses and the same final status and bytes, or both panic.  The
   * headers differ: the final ones always, and the interim ones after an
   * informational code.
   */
  lemma LegacyAgreesOnSuccess(ep: Errorpage.ErrorPage, codeStr: string)
    requires ep.Render(Server.ParseCode(codeStr)).Success?
    ensures Respond(ep.tmpl, ep.errorsMap, codeStr).final.Some? <==> Server.Respond(ep, codeStr).final.Some?
    ensures |Respond(ep.tmpl, ep.errorsMap, codeStr).interim| == |Server.Respond(ep, codeStr).interim|
    ensures forall k :: 0 <= k < |Respond(ep.tmpl, ep.errorsMap, codeStr).interim| ==>
              k < |Server.Respond(ep, codeStr).interim| &&
              Respond(ep.tmpl, ep.errorsMap, codeStr).interim[k].status == Server.Respond(ep, codeStr).interim[k].status
    ensures Informational(Server.ParseCode(codeStr)) ==>
              Respond(ep.tmpl, ep.errorsMap, codeStr).interim != Server.Respond(ep, codeStr).interim
    ensures Server.Respond(ep, codeStr).final.Some? ==>
              var legacy := Respond(ep.tmpl, ep.errorsMap, codeStr).final.value;
              var current := Server.Respond(ep, codeStr).final.value;
              legacy.status == current.status && legacy.body == current.body && legacy.header != current.header
  {
    ResolveCodeIsParseCode(codeStr);
    LookupInfoIsLookup(ep.errorsMap, Server.ParseCode(codeStr));
    assert Server.HtmlHeader["Server"] != LegacyHeader["Server"];
    assert "Server" in Server.HtmlHeader;
  }

  /**
   * A definition with code 0, which the current loader refuses, is kept by
   * the legacy one and bound to the last such entry; but `X-Code: 0` never
   * renders it, because `WriteHeader(0)` panics before the lookup.
   */
  lemma LegacyKeepsCodeZero(tmpl: Errorpage.Template, entries: seq<Errorpage.ErrorInfo>, i: int)
    requires 0 <= i < |entries| && entries[i].code == 0
    requires forall j :: i < j < |entries| ==> entries[j].code != 0
    ensures !Errorpage.NoZeroCode(entries)
    ensures 0 in Errorpage.TableOf(entries)
    ensures LookupInfo(Errorpage.TableOf(entries), 0) == entries[i]
    ensures Respond(tmpl, Errorpage.TableOf(entries), "0") == Outcome([], None)
  {
    Errorpage.TableLastWins(entries, i);
    Server.ParseCodeFormatted(0);
    assert Itoa(0) == "0";
    ResolveCodeIsParseCode("0");
  }
}
