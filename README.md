# oops error-page service: a Dafny model

The service renders custom error pages for an ingress proxy. The proxy forwards a failed request with an `X-Code` header. The service turns that header into a status code. It looks the code up in a table of `{code, title, message}` definitions, falling back to a generic record for unknown codes. It renders the record through an HTML template and replies with that status and the page. A `/healthz` endpoint answers `200 ok`.

The model covers the current implementation (`errorpage/template.go`, `server/handlers.go`) and the legacy duplicate (`pkg/oops/oops.go`). It is split into these modules:

- `Errorpage`: the error records and the definition table. The table is built by a loop that rejects code 0 and is specified by `TableOf`, the map that inserting the entries in list order produces. It also holds the lookup with its fallback, the `ErrorPage` class with `Render`, and the `Registry` class. `Registry` models the package-level `instance`/`once` pair behind `NewErrorPage`.
- `Server`: `parseCode`, the error-page handler and the health handler.
- `Oops`: the legacy loader (no zero check), the legacy globals and `Oops()` loading step, and the legacy handler with its own write order. It ends with lemmas that contrast the legacy handler with the current one.
- `Strconv`: Go's `strconv.Atoi` on a 64-bit platform, modelled by the general `ParseInt` path for every length. The library's fast path for short inputs gives the same value and error kind. It is proved equal to the grammar "an optional `+`/`-`, then one or more ASCII digits, with a value in the int64 range", and proved against decimal formatting (`Itoa`).
- `Http`: the request header map and a `ResponseWriter` with the status rules of `net/http`. A code outside 100..999 makes `WriteHeader` panic. A 1xx code other than 101 goes out as an interim response, and the final status comes later. When the final status line is written, the writer takes a snapshot of the header map, so later `Header().Set` calls never reach the client. A status of 1xx, 204 or 304 carries no body. What a handler leaves is an `Outcome`: the interim responses, then the final response, or none when the handler panicked. `http.Error` is modelled on this writer too.
- `Wrappers`: `Option` and `Result`.

External inputs become parameters:
- Reading files, YAML decoding and template parsing are passed in as their outcome: `Result<seq<ErrorInfo>, string>` and `Result<Template, string>`.
- The parsed template is a total function `ErrorInfo -> ExecOutcome`. An `ExecOutcome` holds the bytes written and the execution error, if any.
- `log.Fatalf` is a `FatalError` outcome. After it, the registry is marked as exited.
- Logging is left out.

The legacy `errorHandler`'s doc comment says the code comes from the URL, but the code reads the `X-Code` header. The model follows the code. `parseCode` also passes negative values and 0 through unchanged, and the model keeps that.

## Model

| member | source | states |
|---|---|---|
| `Errorpage.LoadErrors` | errorpage/template.go:73-90 | A read or decode failure is passed through. If some entry has code 0, the load fails with the first such entry, even after valid ones, and no map is returned. Otherwise the result is the map built by inserting every entry in list order. |
| `Errorpage.TableKeys` | errorpage/template.go:82-89 | The key set of the loaded table is exactly the set of codes in the list. |
| `Errorpage.TableKeyedByCode` | errorpage/template.go:87 | Every key is bound to a record whose code is that key. |
| `Errorpage.TableLastWins` | errorpage/template.go:83-88 | An entry that no later entry shares its code with is the record stored under that code. With duplicates, the last one wins. |
| `Errorpage.TableValueIsLastEntry` | errorpage/template.go:83-88 | Every stored record is an entry of the list with that code, and no later entry has the same code. |
| `Errorpage.TableHasNoZeroKey` | errorpage/template.go:84-87 | A list that passed the zero check yields a table without key 0. |
| `Errorpage.ErrorPage.Render` | errorpage/template.go:93-114 | The template runs on the stored record when the code is present and on the generic record otherwise. Success happens exactly when execution reports no error. The status code is then the requested code and the body is the executed bytes. On error, no page is returned and the error is passed through. |
| `Errorpage.RenderDefinedCode` | errorpage/template.go:95 | After loading a list, a defined code renders the last entry with that code, including its own title and message. |
| `Errorpage.RenderUnknownCode` | errorpage/template.go:95-102 | A code no entry defines looks up `{code, "Error", "An unexpected error occurred. Please try again later."}`, and a successful render returns what the template writes for that record. |
| `Errorpage.Fallback` | errorpage/template.go:97-101 | The record that stands in for an undefined code carries that code, the title `Error` and the message `An unexpected error occurred. Please try again later.` |
| `Errorpage.Lookup` | errorpage/template.go:95-102 | A defined code yields its stored record and an undefined one the fallback for that code. In a table keyed by code, the record found always carries the requested code. |
| `Errorpage.RenderZeroFallsBack` | errorpage/template.go:95-102 | In a loaded instance, 0 is never a key, so code 0 always uses the fallback. |
| `Errorpage.Registry.NewErrorPage` | errorpage/template.go:44-60 | The first call loads the template, then the definitions. On success it publishes a fresh instance holding the template and `TableOf` of the entries, and that instance is keyed by code and has no key 0. A template failure, a source failure or a zero code is fatal. Every later call returns the same instance and loads nothing, whatever the file names. |
| `Server.ParseCode` | server/handlers.go:57-69 | An empty header gives 404. The result is always an int64 value. |
| `Server.ParseCodeCorrect` | server/handlers.go:57-69 | A string that is an optional sign followed by one or more decimal digits, with a value in the int64 range, resolves to that value. Leading zeros, negatives and 0 are kept. Every other string resolves to 404. |
| `Server.ParseCodeRejects` | server/handlers.go:63-66 | Every string outside that grammar, or out of range, resolves to 404. |
| `Server.ParseCodeFormatted` | server/handlers.go:63 | Every int64 written in decimal resolves to itself. |
| `Server.ParseCodeOutOfRange` | server/handlers.go:63-66 | A decimal numeral beyond the int64 range resolves to 404. |
| `Server.ParseCodeMalformedExamples` | server/handlers.go:63-66 | A lone `+` or `-`, surrounding spaces, `5_03` and `0x1F` all resolve to 404. |
| `Server.ParseCodeDecimalExamples` | server/handlers.go:62-63 | `503` and `+503` give 503, `-0042` gives -42, and `0` gives 0. |
| `Server.ErrorHandler` | server/handlers.go:14-36 | What the client receives is `Respond` of the `X-Code` header. On success, the HTML `Content-Type` and `Server: server` are set before the status is written, then the rendered body follows, unless `WriteHeader` panics on the code. On a render error the reply comes from `http.Error` with status 500. |
| `Server.RespondOnSuccess` | server/handlers.go:16-33 | When rendering succeeds, a final response is sent exactly when `parseCode` of the header lies in 100..999; otherwise `WriteHeader` panics. An informational code is sent as an interim response with the HTML headers, followed by a final 200 with the page. Any other valid code is the final status, with `Content-Type: text/html; charset=utf-8`, `Server: server` and the template output as the body (empty for 101, 204 and 304). |
| `Server.RespondOnRenderError` | server/handlers.go:22-27 | A render error gives a single final response: status 500 with a `text/plain` `Internal Server Error` body. The HTML headers and any rendered bytes are not sent. |
| `Server.RespondNumericHeader` | server/handlers.go:17-32 | When the page renders, the decimal form of any int64 reaches `WriteHeader` unchanged. A non-informational code in 100..999 is the final status, an informational one is followed by a final 200, and every other value panics with no final response. |
| `Server.RespondEndToEnd` | server/handlers.go:16-33 | With the single definition `{404, "Not Found", …}`, both `X-Code: 404` and a missing header give 404 with that record rendered. `X-Code: 999` gives 999 with the generic record, and `X-Code: 0` panics in `WriteHeader`. |
| `Server.HealthzHandler` | server/handlers.go:41-55 | The reply is status 200 with `Content-Type: text/plain; charset=utf-8` and body `ok`. |
| `Strconv.Atoi` | server/handlers.go:63 | A successful parse is always in the int64 range. |
| `Strconv.ParseUint` | server/handlers.go:63 | A successful run of the digit loop never yields less than its starting value. Started within 64 unsigned bits, it never yields more than 2^64 - 1. |
| `Strconv.ParseUintCorrect` | server/handlers.go:63 | The digit loop succeeds exactly when the input is all digits and the accumulated value fits in 64 unsigned bits. It then yields that value. |
| `Strconv.AtoiCorrect` | server/handlers.go:63 | `Atoi` succeeds exactly on the decimal strings whose value fits in int64, and returns that value. |
| `Strconv.DigitsNeverSyntaxError` | server/handlers.go:63 | A non-empty string of digits never draws a syntax error. Only a range error is possible. |
| `Strconv.ParseUintRangeError` | server/handlers.go:63 | A failing parse of an all-digit string always reports a range error. |
| `Strconv.AtoiItoa` | server/handlers.go:63 | `Atoi(Itoa(n)) == n` for every int64 `n`. |
| `Http.HeaderGet` | server/handlers.go:16 | The first value stored under the key, or "" when the key is absent or holds no value. |
| `Http.ResponseWriter.SetHeader` | server/handlers.go:30-31 | Only the header map changes. Once the status is written, what the client receives is unchanged. |
| `Http.ResponseWriter.WriteHeader` | server/handlers.go:32 | A call after the final status changes nothing. Otherwise a code outside 100..999 panics, and an informational code adds an interim response with the current headers. Any other code becomes the final status and takes a snapshot of the headers. |
| `Http.ResponseWriter.Write` | server/handlers.go:33 | Status 200 is written first if no final status was written yet. The data is then appended to the body, unless the status allows no body. |
| `Http.Error` | server/handlers.go:25 | The reply follows the given code, with `text/plain` and `nosniff` headers and the message plus a newline as the body. It is the outcome of setting those headers, then writing the status, then the body. |
| `Http.FinalStatus` | server/handlers.go:32-33 | A final status sent to the client always lies in 100..999 and is never informational. An invalid code ends in a panic and an informational one is followed by 200. For a final code, writing the status before or after the headers changes only the final headers, which are empty when the status came first. For an informational code only the interim headers differ. |
| `Oops.LoadErrors` | pkg/oops/oops.go:45-59 | A source failure is passed through. Otherwise every decoded entry is inserted, code 0 included, and the last duplicate wins. |
| `Oops.Globals.Oops` | pkg/oops/oops.go:115-127 | The template is loaded first, then the definitions. Either failure is fatal. On success the globals hold the template and the full table. |
| `Oops.ResolveCode` | pkg/oops/oops.go:84-93 | A missing header and every string `Atoi` rejects give 404. Otherwise the result is the value `Atoi` returns, always an int64. |
| `Oops.ResolveCodeIsParseCode` | pkg/oops/oops.go:83-93 | The legacy inline code resolution equals `parseCode`. |
| `Oops.LookupInfo` | pkg/oops/oops.go:102-109 | A defined code yields its stored record. An undefined one yields `{code, "Error", "An unexpected error occurred. Please try again later."}` with the requested code. |
| `Oops.LookupInfoIsLookup` | pkg/oops/oops.go:102-109 | The legacy lookup equals the current lookup. |
| `Oops.ErrorHandler` | pkg/oops/oops.go:82-113 | The status is written first; a code outside 100..999 panics there, before the lookup. Otherwise the headers are set, then the template streams into the response. What the client receives is `Oops.Respond`. |
| `Oops.HealthzHandler` | pkg/oops/oops.go:63-77 | The reply is status 200 with `Content-Type: text/plain; charset=utf-8` and body `ok`. |
| `Oops.LegacyHeadersLost` | pkg/oops/oops.go:97-100 | For a final status, the handler's own `Content-Type` and `Server` values never reach the client, because they are set after `WriteHeader` took its snapshot. Only after an informational status do they ride on the final 200. |
| `Oops.LegacyIgnoresTemplateError` | pkg/oops/oops.go:97-112 | A template error only gets logged. For a final status the status stays the resolved code, not 500, and the body is what was written before the failure. |
| `Oops.LegacyAgreesOnSuccess` | pkg/oops/oops.go:82-113 | Wherever the current version renders, both handlers panic on the same codes and send interim responses with the same statuses. Otherwise they send the same final status and the same bytes. The headers differ: the final ones always, and for a 1xx code the interim ones as well. |
| `Oops.LegacyKeepsCodeZero` | pkg/oops/oops.go:55-57 | With an entry of code 0, which the current loader refuses, the legacy table has key 0 bound to the last such entry. `X-Code: 0` never renders it, because `WriteHeader(0)` at line 97 panics before the lookup. |

## Left out

- Reading files (`os.ReadFile`), YAML decoding and template parsing: these are library I/O, so their outcomes are parameters.
- Template execution and HTML escaping (`html/template`): this is a foreign library, so it is an opaque total function from a record to the bytes it writes and an optional error. As a function it is deterministic by construction, which is why rendering the same record twice gives the same bytes.
- The thread safety of `sync.Once`: only its sequential "first call wins" behaviour is modelled. `log.Fatalf` is modelled as a fatal outcome that ends the process (`exited`).
- Routing (chi), the middleware (`RequestID`, `RealIP`, the loggers, `Recoverer`), `server/server.go`, `main.go`, configuration loading, logger setup, signal handling and graceful shutdown: these are process plumbing and concurrency, so they are not modelled.
- The panic recovery in both `healthzHandler`s: their only `WriteHeader` call uses 200, which never panics.
- What follows a panic in an `errorHandler`: chi's `Recoverer` middleware answers it, and middleware is not modelled, so the outcome stops at the panic, with no final response.
- All logging, and ignoring the errors returned by `w.Write`: every write is modelled as successful.
- Headers `net/http` adds by itself are not modelled: `Date`, `Content-Length`, and a `Content-Type` sniffed from the first body bytes when the snapshot holds none. A response's header map is what the handler set before the final status line, so the legacy handler's client still gets a sniffed `Content-Type`.
- The 1xx handling follows `net/http` since Go 1.19. The automatic `100 Continue`, hijacked connections and the `ErrBodyNotAllowed` error that `Write` returns are not modelled. The handlers ignore that error, and the model drops the body.
- `Strconv.Atoi`: the `Num` and `Func` fields of `*NumError` and the value returned alongside an error are not modelled, because `parseCode` discards them. The error kind (`ErrSyntax` or `ErrRange`) is kept.
- Header keys are given in canonical form. `Header.Get`'s canonicalisation of the key is not modelled.
- Go's `int` is taken to be 64 bits wide, so `Atoi` works on int64. Definition codes from the decoder are unbounded integers.
- Strings are sequences of characters, not UTF-8 bytes. This makes no difference to `Atoi`, for which every non-ASCII character is a non-digit.
