/**
 * The body-capturing rules of simpleWriteSpy as a function of the writes made
 * through it: the buffer holds the accepted prefix of every write, and the
 * error slot the first transfer error.
 */
module Body {
  import opened Wrappers
  import opened ResponseWriter

  /** One Write through the spy: the bytes passed, and the count and error the writer returned. */
  datatype Exchange = Exchange(p: seq<byte>, n: nat, err: Option<WriteError>)

  /** Every reported count is within its slice, as io.Writer requires. */
  predicate WellFormed(xs: seq<Exchange>) {
    forall x :: x in xs ==> x.n <= |x.p|
  }

  /** The bytes the buffer receives: the prefix p[:n] of each write, in call order. */
  function Accepted(xs: seq<Exchange>): (r: seq<byte>)
    requires WellFormed(xs)
    ensures |r| == TotalCount(xs)
  {
    if xs == [] then [] else xs[0].p[..xs[0].n] + Accepted(xs[1..])
  }

  /** The first error any write returned: some write's error, and None when no write failed. */
  function FirstErr(xs: seq<Exchange>): (r: Option<WriteError>)
    ensures r.Some? ==> exists k :: 0 <= k < |xs| && xs[k].err == r
    ensures (forall i :: 0 <= i < |xs| ==> xs[i].err.None?) ==> r.None?
  {
    if xs == [] then None
    else if xs[0].err.Some? then xs[0].err
    else
      var r := FirstErr(xs[1..]);
      assert r.Some? ==> exists k :: 0 <= k < |xs[1..]| && xs[1..][k].err == r;
      assert r.Some? ==> exists k :: 0 <= k < |xs| && xs[k].err == r by {
        if r.Some? {
          var k :| 0 <= k < |xs[1..]| && xs[1..][k].err == r;
          assert xs[k + 1].err == r;
        }
      }
      r
  }

  /** The slices passed to Write, in call order. */
  function Payloads(xs: seq<Exchange>): (r: seq<seq<byte>>)
    ensures |r| == |xs| && forall i :: 0 <= i < |xs| ==> r[i] == xs[i].p
  {
    if xs == [] then [] else [xs[0].p] + Payloads(xs[1..])
  }

  /** The concatenation of a sequence of byte slices. */
  function Concat(ps: seq<seq<byte>>): seq<byte> {
    if ps == [] then [] else ps[0] + Concat(ps[1..])
  }

  /** The buffer grows by the accepted bytes of later writes and keeps what it held. */
  lemma {:induction false} AcceptedAppend(xs: seq<Exchange>, ys: seq<Exchange>)
    requires WellFormed(xs) && WellFormed(ys)
    ensures WellFormed(xs + ys)
    ensures Accepted(xs + ys) == Accepted(xs) + Accepted(ys)
  {
    if xs == [] {
      assert xs + ys == ys;
    } else {
      assert (xs + ys)[1..] == xs[1..] + ys;
      AcceptedAppend(xs[1..], ys);
    }
  }

  /** One more write adds its accepted prefix to the buffer and its error only if none was kept. */
  lemma ExchangeSnoc(xs: seq<Exchange>, x: Exchange)
    requires WellFormed(xs) && x.n <= |x.p|
    ensures WellFormed(xs + [x])
    ensures Accepted(xs + [x]) == Accepted(xs) + x.p[..x.n]
    ensures FirstErr(xs + [x]) == if FirstErr(xs).Some? then FirstErr(xs) else x.err
    ensures Payloads(xs + [x]) == Payloads(xs) + [x.p]
  {
    AcceptedAppend(xs, [x]);
    assert [x][1..] == [];
    FirstErrAppend(xs, [x]);
  }

  /** When every write is accepted in full the buffer is the concatenation of all the slices written. */
  lemma {:induction false} FullWritesBody(xs: seq<Exchange>)
    requires forall x :: x in xs ==> x.n == |x.p|
    ensures WellFormed(xs) && Accepted(xs) == Concat(Payloads(xs))
  {
    if xs != [] {
      assert xs[0] in xs;
      FullWritesBody(xs[1..]);
    }
  }

  /** The sum of the counts the writer reported. */
  function TotalCount(xs: seq<Exchange>): nat {
    if xs == [] then 0 else xs[0].n + TotalCount(xs[1..])
  }

  /** A recorded error is never overwritten by later writes; with none recorded, the later writes decide. */
  lemma {:induction false} FirstErrAppend(xs: seq<Exchange>, ys: seq<Exchange>)
    ensures FirstErr(xs + ys) == if FirstErr(xs).Some? then FirstErr(xs) else FirstErr(ys)
  {
    if xs == [] {
      assert xs + ys == ys;
    } else {
      assert (xs + ys)[0] == xs[0] && (xs + ys)[1..] == xs[1..] + ys;
      FirstErrAppend(xs[1..], ys);
    }
  }

  /**
   * FirstErr is None exactly when no write failed, and otherwise the error of
   * the earliest write that failed.
   */
  lemma {:induction false} FirstErrIsFirst(xs: seq<Exchange>)
    ensures FirstErr(xs).None? <==> forall i :: 0 <= i < |xs| ==> xs[i].err.None?
    ensures FirstErr(xs).Some? ==>
      exists k :: 0 <= k < |xs| && xs[k].err == FirstErr(xs) &&
        forall i :: 0 <= i < k ==> xs[i].err.None?
  {
    if xs != [] {
      FirstErrIsFirst(xs[1..]);
      if xs[0].err.None? && FirstErr(xs).Some? {
        var k :| 0 <= k < |xs[1..]| && xs[1..][k].err == FirstErr(xs[1..])
          && forall i :: 0 <= i < k ==> xs[1..][i].err.None?;
        assert xs[k + 1].err == FirstErr(xs);
        assert forall i :: 0 <= i < k + 1 ==> xs[i].err.None?;
      }
    }
  }
}
