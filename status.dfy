/**
 * The status-tracking rules of simpleSpy as a function of the calls a handler
 * makes: the spy's two fields, the status Code() resolves, and the calls that
 * reach the wrapped writer.
 */
module Status {
  import opened ResponseWriter

  /** http.StatusOK, the status implied by a Write with no status set. */
  const StatusOK := 200

  /** simpleSpy's fields: whether Write was called, and the code WriteHeader recorded. */
  datatype State = State(written: bool, code: int)

  /** A freshly constructed spy. */
  const Fresh := State(false, 0)

  /** A call a handler makes on the spy. */
  datatype Call = Write(p: seq<byte>) | WriteHeader(code: int)

  /** The guard under which WriteHeader records its code and forwards it. */
  predicate Open(s: State) {
    s.code == 0 && !s.written
  }

  /**
   * The fields after one call: written is set by Write alone, the code changes
   * only by a WriteHeader that finds the guard open, and a nonzero status
   * stays as it is.
   */
  function Step(s: State, c: Call): (r: State)
    ensures r.written <==> s.written || c.Write?
    ensures r.code != s.code ==> c.WriteHeader? && Open(s) && r.code == c.code
    ensures Code(s) != 0 ==> Code(r) == Code(s)
  {
    match c
    case Write(_) => State(true, s.code)
    case WriteHeader(code) => if Open(s) then State(s.written, code) else s
  }

  /**
   * What one call passes on to the wrapped writer: a Write always, unchanged;
   * a WriteHeader exactly when the guard is open.
   */
  function Emit(s: State, c: Call): (r: seq<Event>)
    ensures c.Write? ==> r == [BytesSent(c.p)]
    ensures c.WriteHeader? ==> (r != [] <==> Open(s)) && (r != [] ==> r == [HeaderSent(c.code)])
  {
    match c
    case Write(p) => [BytesSent(p)]
    case WriteHeader(code) => if Open(s) then [HeaderSent(code)] else []
  }

  /**
   * Code(): the recorded code, or 200 when bytes were written with no code
   * recorded; zero exactly while WriteHeader is still open.
   */
  function Code(s: State): (r: int)
    ensures r == 0 <==> Open(s)
    ensures s.code != 0 ==> r == s.code
    ensures s.code == 0 && s.written ==> r == StatusOK
  {
    if s.code == 0 && s.written then StatusOK else s.code
  }

  /** The fields after a sequence of calls. */
  function Apply(s: State, calls: seq<Call>): State
    decreases |calls|
  {
    if calls == [] then s else Apply(Step(s, calls[0]), calls[1..])
  }

  /** Everything a sequence of calls passes on to the wrapped writer, in order. */
  function Forwarded(s: State, calls: seq<Call>): seq<Event>
    decreases |calls|
  {
    if calls == [] then [] else Emit(s, calls[0]) + Forwarded(Step(s, calls[0]), calls[1..])
  }

  /** The writer calls a handler asks for, as they would arrive with no spy in between. */
  function Requested(calls: seq<Call>): (r: seq<Event>)
    ensures |r| == |calls|
  {
    if calls == [] then []
    else
      var e := match calls[0]
        case Write(p) => BytesSent(p)
        case WriteHeader(code) => HeaderSent(code);
      [e] + Requested(calls[1..])
  }

  /** The payloads of the Write events, in order. */
  function Sent(events: seq<Event>): seq<seq<byte>> {
    if events == [] then []
    else if events[0].BytesSent? then [events[0].p] + Sent(events[1..])
    else Sent(events[1..])
  }

  /** The byte slices a handler passes to Write, in call order. */
  function Writes(calls: seq<Call>): seq<seq<byte>> {
    Sent(Requested(calls))
  }

  /**
   * The status a stream of writer calls settles on, with response headers sent
   * once: the first Write implies 200, the first nonzero WriteHeader gives its
   * own code, and zero means neither has happened.
   */
  function StatusSeen(events: seq<Event>): int {
    if events == [] then 0
    else match events[0]
      case BytesSent(_) => StatusOK
      case HeaderSent(code) => if code != 0 then code else StatusSeen(events[1..])
  }

  lemma {:induction false} SentAppend(a: seq<Event>, b: seq<Event>)
    ensures Sent(a + b) == Sent(a) + Sent(b)
  {
    if a != [] {
      assert (a + b)[1..] == a[1..] + b;
      SentAppend(a[1..], b);
    } else {
      assert a + b == b;
    }
  }

  lemma {:induction false} RequestedSnoc(calls: seq<Call>, c: Call)
    ensures Requested(calls + [c]) == Requested(calls) + Requested([c])
  {
    if calls == [] {
      assert calls + [c] == [c];
    } else {
      assert (calls + [c])[1..] == calls[1..] + [c];
      RequestedSnoc(calls[1..], c);
    }
  }

  /** One more call adds its slice to the writes if it is a Write, and nothing otherwise. */
  lemma WritesSnoc(calls: seq<Call>, c: Call)
    ensures Writes(calls + [c]) == Writes(calls) + (if c.Write? then [c.p] else [])
  {
    RequestedSnoc(calls, c);
    SentAppend(Requested(calls), Requested([c]));
    assert Requested([c])[1..] == [];
  }

  /** Running the calls one more step extends the fields and the forwarded log by that step alone. */
  lemma {:induction false} ApplySnoc(s: State, calls: seq<Call>, c: Call)
    ensures Apply(s, calls + [c]) == Step(Apply(s, calls), c)
    ensures Forwarded(s, calls + [c]) == Forwarded(s, calls) + Emit(Apply(s, calls), c)
    decreases |calls|
  {
    if calls == [] {
      assert calls + [c] == [c];
    } else {
      assert (calls + [c])[1..] == calls[1..] + [c];
      ApplySnoc(Step(s, calls[0]), calls[1..], c);
    }
  }

  /**
   * Once Code() is nonzero no call changes it, and nothing but Write bytes
   * reaches the wrapped writer any more.
   */
  lemma {:induction false} CodeStable(s: State, calls: seq<Call>)
    requires Code(s) != 0
    ensures Code(Apply(s, calls)) == Code(s)
    ensures forall k :: 0 <= k < |Forwarded(s, calls)| ==> Forwarded(s, calls)[k].BytesSent?
    decreases |calls|
  {
    if calls != [] {
      CodeStable(Step(s, calls[0]), calls[1..]);
    }
  }

  /**
   * While WriteHeader is open, the status Code() ends up reporting is the one
   * decided by the first Write or nonzero WriteHeader among the calls.
   */
  lemma {:induction false} FirstDecisionWins(s: State, calls: seq<Call>)
    requires Open(s)
    ensures Code(Apply(s, calls)) == StatusSeen(Requested(calls))
    decreases |calls|
  {
    if calls != [] {
      var t := Step(s, calls[0]);
      if Open(t) {
        FirstDecisionWins(t, calls[1..]);
      } else {
        CodeStable(t, calls[1..]);
      }
    }
  }

  /**
   * The status Code() reports agrees with the calls the wrapped writer
   * actually received.
   */
  lemma {:induction false} WriterAgrees(s: State, calls: seq<Call>)
    requires Open(s)
    ensures Code(Apply(s, calls)) == StatusSeen(Forwarded(s, calls))
    decreases |calls|
  {
    if calls != [] {
      var t := Step(s, calls[0]);
      if Open(t) {
        WriterAgrees(t, calls[1..]);
      } else {
        CodeStable(t, calls[1..]);
      }
    }
  }

  /** Only WriteHeader(0) events come before any WriteHeader event. */
  ghost predicate OneShot(f: seq<Event>) {
    forall i, j :: 0 <= i < j < |f| && f[j].HeaderSent? ==> f[i] == HeaderSent(0)
  }

  /**
   * Headers reach the wrapped writer at most once in effect: whatever the
   * writer received before a WriteHeader is a WriteHeader(0), which leaves
   * the status undecided. No header follows a Write or a nonzero header.
   */
  lemma {:induction false} OneShotHeader(s: State, calls: seq<Call>)
    requires Open(s)
    ensures OneShot(Forwarded(s, calls))
    decreases |calls|
  {
    if calls != [] {
      var t := Step(s, calls[0]);
      var f := Forwarded(s, calls);
      var rest := Forwarded(t, calls[1..]);
      if Open(t) {
        OneShotHeader(t, calls[1..]);
        assert calls[0] == WriteHeader(0);
        assert f == [HeaderSent(0)] + rest;
        forall i, j | 0 <= i < j < |f| && f[j].HeaderSent?
          ensures f[i] == HeaderSent(0)
        {
          if i > 0 {
            assert f[i] == rest[i - 1] && f[j] == rest[j - 1];
          }
        }
      } else {
        CodeStable(t, calls[1..]);
        assert f == Emit(s, calls[0]) + rest && |Emit(s, calls[0])| == 1;
        assert forall j :: 1 <= j < |f| ==> f[j] == rest[j - 1];
      }
    }
  }

  /** Every Write reaches the wrapped writer, with its bytes unchanged and in call order. */
  lemma {:induction false} BytesForwarded(s: State, calls: seq<Call>)
    ensures Sent(Forwarded(s, calls)) == Writes(calls)
    decreases |calls|
  {
    if calls != [] {
      var c := calls[0];
      BytesForwarded(Step(s, c), calls[1..]);
      SentAppend(Emit(s, c), Forwarded(Step(s, c), calls[1..]));
      assert Requested(calls)[1..] == Requested(calls[1..]);
    }
  }

  /**
   * A Write that no nonzero WriteHeader precedes makes Code() report 200 on a
   * fresh spy, whatever follows.
   */
  lemma {:induction false} ImplicitOK(calls: seq<Call>, k: nat)
    requires k < |calls| && calls[k].Write?
    requires forall i :: 0 <= i < k && calls[i].WriteHeader? ==> calls[i].code == 0
    ensures Code(Apply(Fresh, calls)) == StatusOK
  {
    FirstDecisionWins(Fresh, calls);
    SeenWrite(calls, k);
  }

  lemma {:induction false} SeenWrite(calls: seq<Call>, k: nat)
    requires k < |calls| && calls[k].Write?
    requires forall i :: 0 <= i < k && calls[i].WriteHeader? ==> calls[i].code == 0
    ensures StatusSeen(Requested(calls)) == StatusOK
    decreases k
  {
    if k > 0 && calls[0].WriteHeader? {
      assert Requested(calls)[1..] == Requested(calls[1..]);
      SeenWrite(calls[1..], k - 1);
    }
  }

  /**
   * A nonzero WriteHeader that only WriteHeader(0) calls precede fixes the
   * status Code() reports on a fresh spy, whatever follows.
   */
  lemma {:induction false} ExplicitWins(calls: seq<Call>, k: nat)
    requires k < |calls| && calls[k].WriteHeader? && calls[k].code != 0
    requires forall i :: 0 <= i < k ==> calls[i] == WriteHeader(0)
    ensures Code(Apply(Fresh, calls)) == calls[k].code
  {
    FirstDecisionWins(Fresh, calls);
    SeenHeader(calls, k);
  }

  lemma {:induction false} SeenHeader(calls: seq<Call>, k: nat)
    requires k < |calls| && calls[k].WriteHeader? && calls[k].code != 0
    requires forall i :: 0 <= i < k ==> calls[i] == WriteHeader(0)
    ensures StatusSeen(Requested(calls)) == calls[k].code
    decreases k
  {
    if k > 0 {
      assert Requested(calls)[1..] == Requested(calls[1..]);
      SeenHeader(calls[1..], k - 1);
    }
  }
}
