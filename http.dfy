/**
 * The slice of Go's `net/http` that the handlers touch: the request's header
 * map, and a `ResponseWriter` that checks the status code it is given,
 * sends 1xx codes (other than 101) as interim responses, snapshots the
 * header map when the final status line is written, so that later
 * `Header().Set` calls no longer reach the client, and drops the body of a
 * status that may not carry one.
 */
module Http {
  import opened Wrappers

  type byte = b: int | 0 <= b < 256

  /** `[]byte(s)` for a string of single-byte (ASCII) characters. */
  function AsciiBytes(s: string): (bs: seq<byte>)
    requires forall i :: 0 <= i < |s| ==> s[i] as int < 128
    ensures |bs| == |s|
    ensures forall i :: 0 <= i < |s| ==> bs[i] == s[i] as int
  {
    if s == [] then [] else [s[0] as int as byte] + AsciiBytes(s[1..])
  }

  /** A header map after canonicalisation of its keys: each key holds its list of values. */
  type RequestHeader = map<string, seq<string>>

  datatype Request = Request(verb: string, path: string, header: RequestHeader)

  /** `Header.Get`: the first value stored under `key`, or "" when there is none. */
  function HeaderGet(h: RequestHeader, key: string): (v: string)
    ensures key in h && |h[key]| > 0 ==> v == h[key][0]
    ensures key !in h || h[key] == [] ==> v == ""
  {
    if key in h && |h[key]| > 0 then h[key][0] else ""
  }

  /** A final response: the status line, the headers and the body. */
  datatype Response = Response(status: int, header: map<string, string>, body: seq<byte>)

  /** An interim (1xx) response: its status line and the headers it carried. */
  datatype Interim = Interim(status: int, header: map<string, string>)

  /**
   * Everything a handler leaves for the client: the interim responses, then
   * the final response, or `None` when the handler panicked before writing a
   * final status.
   */
  datatype Outcome = Outcome(interim: seq<Interim>, final: Option<Response>)

  const StatusOK := 200
  const StatusInternalServerError := 500

  /** `checkWriteHeaderCode`: `WriteHeader` panics on a code outside 100..999. */
  predicate ValidCode(code: int) { 100 <= code <= 999 }

  /** A 1xx code other than 101 Switching Protocols is an interim response; the final status is still to come. */
  predicate Informational(code: int) { 100 <= code <= 199 && code != 101 }

  /** `bodyAllowedForStatus`: 1xx, 204 and 304 responses carry no body. */
  predicate BodyAllowed(status: int) { !(100 <= status <= 199) && status != 204 && status != 304 }

  class ResponseWriter {
    /** The map `Header()` returns, which the handler edits. */
    var header: map<string, string>
    /** A final status line has been written. */
    var wroteHeader: bool
    var status: int
    /** The headers as they were when the final status line was written. */
    var sentHeader: map<string, string>
    var body: seq<byte>
    /** The interim responses sent so far. */
    var interim: seq<Interim>
    /** `WriteHeader` panicked on an invalid code: the handler is unwinding. */
    var panicked: bool

    ghost predicate Valid()
      reads this
    {
      (!wroteHeader ==> body == []) && (panicked ==> !wroteHeader)
    }

    /** A writer the server hands to a handler: nothing set, nothing written. */
    ghost predicate Fresh()
      reads this
    {
      header == map[] && !wroteHeader && body == [] && interim == [] && !panicked
    }

    constructor ()
      ensures Valid() && Fresh()
    {
      header := map[];
      wroteHeader := false;
      status := 0;
      sentHeader := map[];
      body := [];
      interim := [];
      panicked := false;
    }

    /**
     * What the client receives once the handler returns.  A handler that
     * wrote no final status gets status 200 with the headers it set.
     */
    function Emitted(): Outcome
      reads this
    {
      Outcome(interim,
              if panicked then None
              else if wroteHeader then Some(Response(status, sentHeader, body))
              else Some(Response(StatusOK, header, body)))
    }

    /** `w.Header().Set(key, value)`: once the status is written this changes nothing the client sees. */
    method SetHeader(key: string, value: string)
      requires Valid() && !panicked
      modifies this
      ensures Valid() && !panicked
      ensures header == old(header)[key := value]
      ensures wroteHeader == old(wroteHeader) && status == old(status)
      ensures sentHeader == old(sentHeader) && body == old(body) && interim == old(interim)
      ensures old(wroteHeader) ==> Emitted() == old(Emitted())
    {
      header := header[key := value];
    }

    /** `w.Header().Del(key)`. */
    method DelHeader(key: string)
      requires Valid() && !panicked
      modifies this
      ensures Valid() && !panicked
      ensures header == old(header) - {key}
      ensures wroteHeader == old(wroteHeader) && status == old(status)
      ensures sentHeader == old(sentHeader) && body == old(body) && interim == old(interim)
      ensures old(wroteHeader) ==> Emitted() == old(Emitted())
    {
      header := header - {key};
    }

    /**
     * `w.WriteHeader(code)`: a call after the final status is ignored; an
     * invalid code panics; an informational code sends an interim response
     * with the current headers; any other code becomes the final status
     * and fixes the headers.
     */
    method WriteHeader(code: int)
      requires Valid() && !panicked
      modifies this
      ensures Valid()
      ensures header == old(header) && body == old(body)
      ensures panicked == (!old(wroteHeader) && !ValidCode(code))
      ensures wroteHeader == (old(wroteHeader) || (ValidCode(code) && !Informational(code)))
      ensures interim == if !old(wroteHeader) && Informational(code) then old(interim) + [Interim(code, old(header))]
                         else old(interim)
      ensures old(wroteHeader) || !wroteHeader ==> status == old(status) && sentHeader == old(sentHeader)
      ensures !old(wroteHeader) && wroteHeader ==> status == code && sentHeader == old(header)
    {
      if wroteHeader {
        return;
      }
      if !ValidCode(code) {
        panicked := true;
        return;
      }
      if Informational(code) {
        interim := interim + [Interim(code, header)];
        return;
      }
      wroteHeader := true;
      status := code;
      sentHeader := header;
    }

    /**
     * `w.Write(data)`: writes status 200 first when no final status was
     * written; the data is dropped when the status allows no body.
     */
    method Write(data: seq<byte>)
      requires Valid() && !panicked
      modifies this
      ensures Valid() && wroteHeader && !panicked
      ensures header == old(header) && interim == old(interim)
      ensures old(wroteHeader) ==> status == old(status) && sentHeader == old(sentHeader)
      ensures !old(wroteHeader) ==> status == StatusOK && sentHeader == old(header)
      ensures body == if BodyAllowed(status) then old(body) + data else old(body)
    {
      if !wroteHeader {
        WriteHeader(StatusOK);
      }
      if BodyAllowed(status) {
        body := body + data;
      }
    }
  }

  /**
   * What a fresh writer leaves when the handler sets the headers `h`, then
   * writes the status `code`, then writes `data`.
   */
  function HeadersThenStatus(h: map<string, string>, code: int, data: seq<byte>): Outcome
  {
    if !ValidCode(code) then Outcome([], None)
    else if Informational(code) then Outcome([Interim(code, h)], Some(Response(StatusOK, h, data)))
    else Outcome([], Some(Response(code, h, if BodyAllowed(code) then data else [])))
  }

  /**
   * What a fresh writer leaves when the handler writes the status `code`
   * first, then sets the headers `h`, then writes `data`.
   */
  function StatusThenHeaders(code: int, h: map<string, string>, data: seq<byte>): Outcome
  {
    if !ValidCode(code) then Outcome([], None)
    else if Informational(code) then Outcome([Interim(code, map[])], Some(Response(StatusOK, h, data)))
    else Outcome([], Some(Response(code, map[], if BodyAllowed(code) then data else [])))
  }

  /**
   * The client never sees a final status outside 100..999 or an
   * informational one: an invalid code ends in a panic, and an interim code
   * is followed by a final 200.  For a final code the two orders of writes
   * differ only in the final headers, which are empty when the status came
   * first; for an informational code they differ only in the interim
   * headers.
   */
  lemma FinalStatus(h: map<string, string>, code: int, data: seq<byte>)
    ensures HeadersThenStatus(h, code, data).final.Some? <==> ValidCode(code)
    ensures StatusThenHeaders(code, h, data).final.Some? <==> ValidCode(code)
    ensures ValidCode(code) ==>
              var r := HeadersThenStatus(h, code, data).final.value;
              ValidCode(r.status) && !Informational(r.status) &&
              r.status == (if Informational(code) then StatusOK else code)
    ensures ValidCode(code) ==>
              StatusThenHeaders(code, h, data).final.value.status == HeadersThenStatus(h, code, data).final.value.status &&
              StatusThenHeaders(code, h, data).final.value.body == HeadersThenStatus(h, code, data).final.value.body
    ensures ValidCode(code) ==> HeadersThenStatus(h, code, data).final.value.header == h
    ensures ValidCode(code) && !Informational(code) ==> StatusThenHeaders(code, h, data).final.value.header == map[]
    ensures ValidCode(code) && !Informational(code) ==>
              HeadersThenStatus(h, code, data).interim == [] && StatusThenHeaders(code, h, data).interim == []
    ensures Informational(code) ==>
              StatusThenHeaders(code, h, data).final == HeadersThenStatus(h, code, data).final &&
              HeadersThenStatus(h, code, data).interim == [Interim(code, h)] &&
              StatusThenHeaders(code, h, data).interim == [Interim(code, map[])]
  {
  }

  const ErrorHeader: map<string, string> :=
    map["Content-Type" := "text/plain; charset=utf-8", "X-Content-Type-Options" := "nosniff"]

  /** `http.Error(w, msg, code)`: a plain-text reply of `msg` and a newline. */
  method Error(w: ResponseWriter, msg: string, code: int)
    requires w.Valid() && w.Fresh()
    requires forall i :: 0 <= i < |msg| ==> msg[i] as int < 128
    modifies w
    ensures w.Valid()
    ensures w.Emitted() == HeadersThenStatus(ErrorHeader, code, AsciiBytes(msg + "\n"))
  {
    w.DelHeader("Content-Length");
    w.SetHeader("Content-Type", "text/plain; charset=utf-8");
    w.SetHeader("X-Content-Type-Options", "nosniff");
    assert w.header == ErrorHeader;
    w.WriteHeader(code);
    if w.panicked {
      // the panic in `WriteHeader` unwinds `http.Error` before the body is written
      return;
    }
    var data := AsciiBytes(msg + "\n");
    w.Write(data);
    assert [] + data == data;
  }
}
