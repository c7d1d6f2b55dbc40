/**
 * The error-page core (errorpage/template.go): the definition table built
 * from the decoded YAML entries, the lookup with its generic fallback, the
 * render step, and the once-only construction of the shared instance.
 *
 * Reading the files and decoding YAML happen outside the model: the table
 * builder receives the decoder's outcome.  The parsed HTML template is an
 * opaque total function from a record to the bytes its execution writes and
 * the error, if any, that stopped it.
 */
module Errorpage {
  import opened Wrappers
  import opened Http

  /** One error definition: `{code, title, message}`. */
  datatype ErrorInfo = ErrorInfo(code: int, title: string, message: string)

  /** The status code and the rendered HTML. */
  datatype RenderedError = RenderedError(statusCode: int, body: seq<byte>)

  /** What executing the template does: the bytes written, then the error that stopped it, if any. */
  datatype ExecOutcome = ExecOutcome(output: seq<byte>, err: Option<string>)

  type Template = ErrorInfo -> ExecOutcome

  /** Why loading the definitions failed: the file or its YAML, or an entry with code 0. */
  datatype LoadError = SourceError(reason: string) | InvalidCode(entry: ErrorInfo)

  const GenericTitle := "Error"
  const GenericMessage := "An unexpected error occurred. Please try again later."

  /** The record that stands in for a code without a definition. */
  function Fallback(code: int): (info: ErrorInfo)
    ensures info.code == code
    ensures info.title == "Error" && info.message == "An unexpected error occurred. Please try again later."
  {
    ErrorInfo(code, GenericTitle, GenericMessage)
  }

  // ---------------------------------------------------------------------
  // The definition table

  predicate NoZeroCode(entries: seq<ErrorInfo>)
  {
    forall i :: 0 <= i < |entries| ==> entries[i].code != 0
  }

  function Codes(entries: seq<ErrorInfo>): set<int>
  {
    set i | 0 <= i < |entries| :: entries[i].code
  }

  /** The map that inserting the entries in list order produces. */
  function TableOf(entries: seq<ErrorInfo>): map<int, ErrorInfo>
  {
    if entries == [] then map[]
    else
      var last := entries[|entries| - 1];
      TableOf(entries[..|entries| - 1])[last.code := last]
  }

  /** Every key is bound to a record carrying that code. */
  ghost predicate KeyedByCode(m: map<int, ErrorInfo>)
  {
    forall k :: k in m ==> m[k].code == k
  }

  lemma {:induction false} TableKeys(entries: seq<ErrorInfo>)
    ensures TableOf(entries).Keys == Codes(entries)
  {
    if entries != [] {
      var n := |entries|;
      var init := entries[..n - 1];
      TableKeys(init);
      assert Codes(entries) == Codes(init) + {entries[n - 1].code} by {
        forall k | k in Codes(entries) ensures k in Codes(init) + {entries[n - 1].code} {
          var i :| 0 <= i < n && entries[i].code == k;
          if i < n - 1 { assert init[i] == entries[i]; }
        }
        forall k | k in Codes(init) ensures k in Codes(entries) {
          var i :| 0 <= i < n - 1 && init[i].code == k;
          assert entries[i] == init[i];
        }
      }
    }
  }

  lemma {:induction false} TableKeyedByCode(entries: seq<ErrorInfo>)
    ensures KeyedByCode(TableOf(entries))
  {
    if entries != [] {
      TableKeyedByCode(entries[..|entries| - 1]);
    }
  }

  /** An entry that no later entry shares its code with is the one stored. */
  lemma {:induction false} TableLastWins(entries: seq<ErrorInfo>, i: int)
    requires 0 <= i < |entries|
    requires forall j :: i < j < |entries| ==> entries[j].code != entries[i].code
    ensures entries[i].code in TableOf(entries)
    ensures TableOf(entries)[entries[i].code] == entries[i]
  {
    var n := |entries|;
    if i < n - 1 {
      var init := entries[..n - 1];
      assert init[i] == entries[i];
      forall j | i < j < |init| ensures init[j].code != init[i].code {
        assert init[j] == entries[j];
      }
      TableLastWins(init, i);
    }
  }

  /** Every stored record is the last entry in the list with its code. */
  lemma {:induction false} TableValueIsLastEntry(entries: seq<ErrorInfo>, k: int)
    requires k in TableOf(entries)
    ensures exists i :: 0 <= i < |entries| && entries[i] == TableOf(entries)[k] && entries[i].code == k &&
                        forall j :: i < j < |entries| ==> entries[j].code != k
  {
    var n := |entries|;
    var init := entries[..n - 1];
    if entries[n - 1].code == k {
      assert entries[n - 1] == TableOf(entries)[k];
    } else {
      TableValueIsLastEntry(init, k);
      var i :| 0 <= i < |init| && init[i] == TableOf(init)[k] && init[i].code == k &&
               forall j :: i < j < |init| ==> init[j].code != k;
      assert entries[i] == init[i];
      forall j | i < j < n ensures entries[j].code != k {
        if j < n - 1 { assert entries[j] == init[j]; }
      }
    }
  }

  /** A list without code 0 yields a table without key 0. */
  lemma TableHasNoZeroKey(entries: seq<ErrorInfo>)
    requires NoZeroCode(entries)
    ensures 0 !in TableOf(entries)
  {
    TableKeys(entries);
  }

  /**
   * `loadErrors` after the file has been read and decoded: entries are
   * inserted in order, and the first entry with code 0 aborts the load.
   */
  method LoadErrors(decoded: Result<seq<ErrorInfo>, string>) returns (r: Result<map<int, ErrorInfo>, LoadError>)
    ensures decoded.Failure? ==> r == Failure(SourceError(decoded.error))
    ensures decoded.Success? && NoZeroCode(decoded.value) ==> r == Success(TableOf(decoded.value))
    ensures decoded.Success? && !NoZeroCode(decoded.value) ==>
              exists k :: 0 <= k < |decoded.value| && decoded.value[k].code == 0 &&
                          NoZeroCode(decoded.value[..k]) && r == Failure(InvalidCode(decoded.value[k]))
  {
    if decoded.Failure? {
      return Failure(SourceError(decoded.error));
    }
    var entries := decoded.value;
    var m: map<int, ErrorInfo> := map[];
    for i := 0 to |entries|
      invariant m == TableOf(entries[..i])
      invariant NoZeroCode(entries[..i])
    {
      var e := entries[i];
      if e.code == 0 {
        return Failure(InvalidCode(e));
      }
      assert entries[..i + 1][..i] == entries[..i];
      m := m[e.code := e];
    }
    assert entries[..|entries|] == entries;
    return Success(m);
  }

  /** `errorsMap[code]`, or the generic record for that code when it is absent. */
  function Lookup(errorsMap: map<int, ErrorInfo>, code: int): (info: ErrorInfo)
    ensures code in errorsMap ==> info == errorsMap[code]
    ensures code !in errorsMap ==> info == Fallback(code)
    ensures KeyedByCode(errorsMap) ==> info.code == code
  {
    if code in errorsMap then errorsMap[code] else Fallback(code)
  }

  // ---------------------------------------------------------------------
  // The shared renderer

  class ErrorPage {
    const tmpl: Template
    const errorsMap: map<int, ErrorInfo>

    /** The instance invariant that loading establishes. */
    ghost predicate Valid()
    {
      KeyedByCode(errorsMap) && 0 !in errorsMap
    }

    constructor (tmpl: Template, errorsMap: map<int, ErrorInfo>)
      ensures this.tmpl == tmpl && this.errorsMap == errorsMap
    {
      this.tmpl := tmpl;
      this.errorsMap := errorsMap;
    }

    /**
     * `Render(code)`: executes the template on the stored record or the
     * fallback, into a buffer.  The status is the requested code in either
     * case; a template error discards the buffer and is passed through.
     */
    function Render(code: int): (r: Result<RenderedError, string>)
      ensures r.Success? <==> tmpl(Lookup(errorsMap, code)).err.None?
      ensures r.Success? ==> r.value == RenderedError(code, tmpl(Lookup(errorsMap, code)).output)
      ensures r.Failure? ==> r.error == tmpl(Lookup(errorsMap, code)).err.value
    {
      var out := tmpl(Lookup(errorsMap, code));
      if out.err.Some? then Failure(out.err.value)
      else Success(RenderedError(code, out.output))
    }
  }

  /** A defined code renders the last entry that defines it, with its own title and message. */
  lemma RenderDefinedCode(ep: ErrorPage, entries: seq<ErrorInfo>, i: int)
    requires ep.errorsMap == TableOf(entries)
    requires 0 <= i < |entries|
    requires forall j :: i < j < |entries| ==> entries[j].code != entries[i].code
    ensures Lookup(ep.errorsMap, entries[i].code) == entries[i]
    ensures ep.Render(entries[i].code).Success? <==> ep.tmpl(entries[i]).err.None?
    ensures ep.Render(entries[i].code).Success? ==>
              ep.Render(entries[i].code).value == RenderedError(entries[i].code, ep.tmpl(entries[i]).output)
  {
    TableLastWins(entries, i);
  }

  /** A code no entry defines renders the generic record carrying that code. */
  lemma RenderUnknownCode(ep: ErrorPage, entries: seq<ErrorInfo>, code: int)
    requires ep.errorsMap == TableOf(entries)
    requires code !in Codes(entries)
    ensures Lookup(ep.errorsMap, code) == ErrorInfo(code, "Error", "An unexpected error occurred. Please try again later.")
    ensures ep.Render(code).Success? ==> ep.Render(code).value.body == ep.tmpl(Fallback(code)).output
  {
    TableKeys(entries);
  }

  /** In a loaded instance, code 0 always falls back. */
  lemma RenderZeroFallsBack(ep: ErrorPage)
    requires ep.Valid()
    ensures Lookup(ep.errorsMap, 0) == Fallback(0)
  {
  }

  // ---------------------------------------------------------------------
  // The once-only construction

  /** What `log.Fatalf` reports before the process exits. */
  datatype FatalError = TemplateLoadFailed(reason: string) | ErrorsLoadFailed(cause: LoadError)

  /** The package-level `instance` and `once` of errorpage/template.go. */
  class Registry {
    /** `once` has fired. */
    var done: bool
    /** A fatal load error ended the process. */
    var exited: bool
    var instance: ErrorPage?

    ghost predicate Valid()
      reads this
    {
      done && !exited ==> instance != null && instance.Valid()
    }

    constructor ()
      ensures Valid() && !done && !exited && instance == null
    {
      done := false;
      exited := false;
      instance := null;
    }

    /**
     * `NewErrorPage`: the first call loads the template, then the
     * definitions, and publishes the instance; every later call returns that
     * same instance and ignores its file names.  `loadTemplate` and
     * `readErrors` stand for the file system, the template parser and the
     * YAML decoder.
     */
    method NewErrorPage(templateFile: string, errorsFile: string,
                        loadTemplate: string -> Result<Template, string>,
                        readErrors: string -> Result<seq<ErrorInfo>, string>)
      returns (ep: ErrorPage?, fatal: Option<FatalError>)
      requires Valid() && !exited
      modifies this
      ensures Valid() && done
      ensures old(done) ==>
                ep == instance == old(instance) && ep != null && fatal == None && !exited
      ensures !old(done) && loadTemplate(templateFile).Failure? ==>
                exited && ep == null && fatal == Some(TemplateLoadFailed(loadTemplate(templateFile).error))
      ensures !old(done) && loadTemplate(templateFile).Success? && readErrors(errorsFile).Failure? ==>
                exited && ep == null &&
                fatal == Some(ErrorsLoadFailed(SourceError(readErrors(errorsFile).error)))
      ensures !old(done) && loadTemplate(templateFile).Success? && readErrors(errorsFile).Success? &&
              !NoZeroCode(readErrors(errorsFile).value) ==>
                exited && ep == null && fatal.Some? &&
                fatal.value.ErrorsLoadFailed? && fatal.value.cause.InvalidCode? &&
                fatal.value.cause.entry.code == 0
      ensures !old(done) && loadTemplate(templateFile).Success? && readErrors(errorsFile).Success? &&
              NoZeroCode(readErrors(errorsFile).value) ==>
                !exited && fatal == None && ep == instance && ep != null && fresh(ep) &&
                ep.tmpl == loadTemplate(templateFile).value &&
                ep.errorsMap == TableOf(readErrors(errorsFile).value)
    {
      if done {
        return instance, None;
      }
      done := true;
      var t := loadTemplate(templateFile);
      if t.Failure? {
        exited := true;
        return null, Some(TemplateLoadFailed(t.error));
      }
      var decoded := readErrors(errorsFile);
      var m := LoadErrors(decoded);
      if m.Failure? {
        exited := true;
        return null, Some(ErrorsLoadFailed(m.error));
      }
      TableKeyedByCode(decoded.value);
      TableHasNoZeroKey(decoded.value);
      ep := new ErrorPage(t.value, m.value);
      instance := ep;
      fatal := None;
    }
  }
}
