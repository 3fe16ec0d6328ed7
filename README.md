# httpspy: response-writer spies, modelled in Dafny

Package httpspy wraps an `http.ResponseWriter` in a *spy* that a middleware or a
test can query after a handler has run. `simpleSpy` records whether the handler
wrote body bytes and which status code it set, and resolves the status the
client sees: zero when nothing happened, the code passed to `WriteHeader`, or
200 when bytes were written with no code set. `simpleWriteSpy` composes a
`simpleSpy` and additionally keeps every accepted body byte and the first
transfer error a write returned.

The model has five modules:

- `Wrappers` — `Option`, standing for Go values that may be nil (an `error`).
- `ResponseWriter` — the wrapped writer. The real one belongs to net/http, so a
  `Recorder` class stands in for it: it holds a header map, logs every
  `WriteHeader(c)` and `Write(p)` it receives, and answers each `Write` from a
  queue of scripted replies (accept at most so many bytes, return this error),
  accepting everything once the queue is empty. The count it returns never
  exceeds `|p|`, as io.Writer requires; any short write or error a real writer
  can produce can be scripted.
- `Status` — the specification of `simpleSpy` over a trace of calls: `Step` and
  `Apply` give its fields, `Code` the resolved status, `Forwarded` exactly the
  calls that reach the wrapped writer, and `StatusSeen` an independent reference
  for "first decision wins" over a stream of writer calls.
- `Body` — the specification of `simpleWriteSpy` over the writes made through
  it: `Accepted` is the concatenation of each accepted prefix `p[:n]`, and
  `FirstErr` the first error returned.
- `HttpSpy` — the classes `SimpleSpy` and `SimpleWriteSpy` with the Go fields
  (`w`, `written`, `code`; `buf`, `err`) and methods that update them in place.
  Each keeps a ghost record of the calls made on it and of the calls it passed
  on to the wrapped writer, and `Valid()` ties the fields and that record to
  the `Status` and `Body` functions of the calls. `Valid()` does not read the
  wrapped writer, so other code may call that writer directly between spy
  calls; the methods' contracts still say exactly what each spy call adds to
  the writer's log. Go's embedding of `*simpleSpy` in `simpleWriteSpy` is modelled as
  a `const inner: SimpleSpy` to which `WriteHeader`, `Header` and `Code` delegate.

Behaviour of the code worth noting (the model follows the code in each case):

- The guard of `WriteHeader` (httpspy.go:73) tests `code == 0`, so
  `WriteHeader(0)` on a fresh spy is forwarded and records 0: the spy stays
  undecided and a later `WriteHeader(c)` is forwarded too. Only a Write or a
  nonzero code closes the guard; `Status.OneShotHeader` states exactly what
  reaches the wrapped writer.
- The doc comments of `NewSpy` and `NewWriteSpy` (httpspy.go:24-25, 42-43) say
  that with a nil writer all writes succeed, but `Write`, `Header` and
  `WriteHeader` call `s.w` without a nil check (httpspy.go:61, 67, 75), so every
  spy here wraps a real `Recorder`.
- The doc comment of `Body` (httpspy.go:36) promises the concatenation of all
  bytes passed to `Write`, but `Write` keeps only the accepted prefix `p[:n]`
  (httpspy.go:101-102). The model keeps `p[:n]`; `Body.FullWritesBody` shows the
  two agree whenever every write is accepted in full.
- `Body()` returns `buf.Bytes()` (httpspy.go:114), which shares the buffer's
  storage; in the model it returns the current buffer value.

## Model

| member | source | states |
|---|---|---|
| Status.Step | httpspy.go:58-78 | one call sets written exactly when it is a Write, changes the code only by a WriteHeader that finds the guard open (to that call's code), and never changes a nonzero status |
| Status.Emit | httpspy.go:61-75 | a Write is always passed on with its bytes unchanged; a WriteHeader is passed on, with its code, exactly when the guard is open |
| Status.Code | httpspy.go:80-89 | the resolved status is zero exactly while no Write happened and no nonzero code is recorded; otherwise the recorded code, or 200 after a Write with none recorded |
| Status.CodeStable | httpspy.go:58-89 | once the resolved status is nonzero, no further Write or WriteHeader changes it, and only Write bytes reach the wrapped writer from then on |
| Status.FirstDecisionWins | httpspy.go:18-21 | on an undecided spy, the status finally reported is the one fixed by the first Write (200) or first nonzero WriteHeader among the calls, zero if there is none |
| Status.WriterAgrees | httpspy.go:58-78 | on an undecided spy, the status reported equals the status implied by the calls the wrapped writer actually received |
| Status.OneShotHeader | httpspy.go:70-78 | in what the wrapped writer receives, every event before a WriteHeader is a WriteHeader(0): no header follows a Write or a nonzero header |
| Status.BytesForwarded | httpspy.go:58-64 | every Write reaches the wrapped writer, bytes unchanged and in call order, whatever the spy's state |
| Status.ImplicitOK | httpspy.go:85-87 | on a fresh spy, a Write not preceded by any nonzero WriteHeader makes the reported status 200, whatever follows |
| Status.ExplicitWins | httpspy.go:73-75 | on a fresh spy, a nonzero WriteHeader(c) preceded only by WriteHeader(0) calls makes the reported status c, whatever follows |
| Body.Accepted | httpspy.go:101-103 | the bytes the buffer receives, the prefix p[:n] of each write in call order, are exactly as many as the counts the writer reported add up to |
| Body.FirstErr | httpspy.go:106-108 | the error kept is some write's error, and none when no write failed |
| Body.ExchangeSnoc | httpspy.go:98-110 | one more write appends its accepted prefix to the buffer and replaces the kept error only when none was kept |
| Body.AcceptedAppend | httpspy.go:98-103 | the captured body of a sequence of writes is the body of the earlier writes followed by that of the later ones: it only grows, in call order |
| Body.FullWritesBody | httpspy.go:36-37 | when the writer accepts every write in full, the captured body is the concatenation of all slices passed to Write |
| Body.FirstErrAppend | httpspy.go:106-108 | an error already kept is never replaced by a later write's error; with none kept, the later writes decide |
| Body.FirstErrIsFirst | httpspy.go:38-39 | the kept error is none exactly when no write failed, and otherwise the error of the earliest write that failed |
| HttpSpy.SimpleSpy.constructor | httpspy.go:26-30 | NewSpy wraps the given writer with nothing written, no code recorded, and a zero status |
| HttpSpy.SimpleSpy.Write | httpspy.go:58-64 | sets written, leaves code alone, forwards p unchanged and returns the writer's count and error verbatim |
| HttpSpy.SimpleSpy.Header | httpspy.go:66-68 | returns the wrapped writer's header map unchanged |
| HttpSpy.SimpleSpy.WriteHeader | httpspy.go:70-78 | with no code recorded and nothing written, records c and forwards exactly one WriteHeader(c); otherwise changes no field and forwards nothing |
| HttpSpy.SimpleSpy.Code | httpspy.go:80-89 | the status decided by the first Write or nonzero WriteHeader made on the spy, zero if none, and equal to the status implied by the calls the spy passed on to the wrapped writer |
| HttpSpy.SimpleWriteSpy.constructor | httpspy.go:44-49 | NewWriteSpy wraps the given writer in a fresh inner spy, with an empty body, no error and a zero status |
| HttpSpy.SimpleWriteSpy.Write | httpspy.go:98-110 | writes through the inner spy, appends the accepted prefix p[:n] to the body, keeps the error only if none was kept, and returns the writer's answer verbatim |
| HttpSpy.SimpleWriteSpy.WriteHeader | httpspy.go:91-92 | delegates to the inner spy with the same effect on its fields and on the wrapped writer; body and error are untouched |
| HttpSpy.SimpleWriteSpy.Header | httpspy.go:91-92 | returns the wrapped writer's header map unchanged, through the inner spy |
| HttpSpy.SimpleWriteSpy.Code | httpspy.go:91-92 | the inner spy's status: first decision wins, in agreement with the calls the inner spy passed on to the wrapped writer |
| HttpSpy.SimpleWriteSpy.Body | httpspy.go:112-117 | the accepted prefixes of all writes, in call order, as long as the total count the writer reported |
| HttpSpy.SimpleWriteSpy.WriteErr | httpspy.go:119-121 | none exactly when no write failed, otherwise the error of the earliest failed write |

## Left out

- Mutexes and thread-safety: the model covers single-threaded call sequences only. The unlocked write of `err` in `simpleWriteSpy.Write` is a data race that a sequential model cannot show.
- The nil-writer promise in the doc comments of `NewSpy` and `NewWriteSpy`: the code never checks for nil, so it is not modelled.
- Aliasing of the buffer returned by `Body()`: it is modelled as returning the current byte sequence.
- The real `http.ResponseWriter` and its `http.Header` type are not part of this model; the `Recorder` stands in for them, and headers are a map value rather than a shared reference.
- The `Table` middleware and the demo service in `example_test.go` consume the spy and are not part of this model.
