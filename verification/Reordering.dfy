/**
 The reorder buffer at its simplest: which segment is expected next, and which
 later segments have been set aside.
 */
module Reordering {

  datatype Reorder = Reorder(next: nat, buffered: set<nat>)

  /** The first index from `n` on that is not set aside. */
  function RunEnd(buffered: set<nat>, n: nat): nat
    decreases |buffered|
  {
    if n in buffered then RunEnd(buffered - {n}, n + 1) else n
  }

  /** What stays set aside once the run from `n` is taken out. */
  function AfterRun(buffered: set<nat>, n: nat): set<nat>
    decreases |buffered|
  {
    if n in buffered then AfterRun(buffered - {n}, n + 1) else buffered
  }

  lemma RunEndStep(buffered: set<nat>, n: nat)
    requires n in buffered
    ensures RunEnd(buffered, n) == RunEnd(buffered - {n}, n + 1)
    ensures AfterRun(buffered, n) == AfterRun(buffered - {n}, n + 1)
    ensures |buffered - {n}| < |buffered|
  {
  }

  function Settle(n: nat, buffered: set<nat>): Reorder {
    Reorder(RunEnd(buffered, n), AfterRun(buffered, n))
  }

  /** `e` ends the longest contiguous run of `arrived` that starts at `n`. */
  ghost predicate IsFrontier(arrived: set<nat>, n: nat, e: nat) {
    n <= e && e !in arrived && forall k :: n <= k < e ==> k in arrived
  }

  lemma FrontierUnique(arrived: set<nat>, n: nat, d: nat, e: nat)
    requires IsFrontier(arrived, n, d) && IsFrontier(arrived, n, e)
    ensures d == e
  {
  }

  lemma {:induction false} RunEndIsFrontier(buffered: set<nat>, n: nat)
    ensures IsFrontier(buffered, n, RunEnd(buffered, n))
    ensures AfterRun(buffered, n) == set i | i in buffered && !(n <= i < RunEnd(buffered, n))
    decreases |buffered|
  {
    if n in buffered {
      RunEndIsFrontier(buffered - {n}, n + 1);
      var e := RunEnd(buffered, n);
      assert e !in buffered;
      forall k | n <= k < e ensures k in buffered {
        if k > n {
          assert k in buffered - {n};
        }
      }
    }
  }

  ghost function Least(s: set<nat>): (m: nat)
    requires s != {}
    ensures m in s && forall x :: x in s ==> m <= x
  {
    assert exists m :: m in s && forall x :: x in s ==> m <= x by {
      var m := FindLeast(s);
    }
    var m :| m in s && forall x :: x in s ==> m <= x;
    m
  }

  lemma {:induction false} FindLeast(s: set<nat>) returns (m: nat)
    requires s != {}
    ensures m in s && forall x :: x in s ==> m <= x
    decreases |s|
  {
    m :| m in s;
    if s - {m} == {} {
      assert s == {m};
    } else {
      var other := FindLeast(s - {m});
      assert forall x :: x in s ==> x == m || x in s - {m};
      if other < m {
        m := other;
      }
    }
  }

  /** Segment `i` arrives. `skips` is the gap policy's verdict, asked only when
      the segment lies beyond a gap. */
  ghost function Arrive(r: Reorder, i: nat, skips: bool): Reorder {
    if i < r.next || i in r.buffered then r
    else
      var b := r.buffered + {i};
      if i == r.next then Settle(r.next, b)
      else if skips then Settle(Least(b), b)
      else Reorder(r.next, b)
  }

  /** Where the delivery caused by that arrival begins; it ends at the new `next`. */
  ghost function DeliveryStart(r: Reorder, i: nat, skips: bool): nat {
    if i <= r.next || i in r.buffered || !skips then r.next else Least(r.buffered + {i})
  }

  ghost predicate Ahead(r: Reorder) {
    forall i :: i in r.buffered ==> r.next < i
  }

  function Beyond(segments: set<nat>, n: nat): set<nat> {
    set i | i in segments && i > n
  }

  /** In strict mode the buffer is a view of the set of segments that arrived. */
  ghost predicate Views(r: Reorder, start: nat, arrived: set<nat>) {
    && IsFrontier(arrived, start, r.next)
    && r.buffered == Beyond(arrived, r.next)
  }

  lemma ArriveViews(r: Reorder, start: nat, arrived: set<nat>, i: nat)
    requires Views(r, start, arrived)
    ensures Views(Arrive(r, i, false), start, arrived + {i})
  {
    if i == r.next {
      var b := r.buffered + {i};
      RunEndIsFrontier(b, r.next);
      var e := RunEnd(b, r.next);
      assert e !in arrived + {i};
      forall k | start <= k < e ensures k in arrived + {i} {
        if k >= r.next {
          assert k in b;
        }
      }
    }
  }

  /** A skip passes over no segment that is set aside, moves forward, and
      delivers something. */
  lemma SkipDelivers(r: Reorder, i: nat)
    requires Ahead(r) && i > r.next && i !in r.buffered
    ensures var r' := Arrive(r, i, true); var first := DeliveryStart(r, i, true);
      && r.next < first < r'.next
      && (forall k :: k in r.buffered + {i} ==> first <= k)
      && (forall k :: k in r.buffered + {i} ==> k < r'.next || k in r'.buffered)
  {
    var b := r.buffered + {i};
    RunEndIsFrontier(b, Least(b));
  }

  lemma ArriveAhead(r: Reorder, i: nat, skips: bool)
    requires Ahead(r)
    ensures var r' := Arrive(r, i, skips);
      && Ahead(r')
      && r.next <= DeliveryStart(r, i, skips) <= r'.next
      && forall k :: DeliveryStart(r, i, skips) <= k < r'.next ==> k in r.buffered + {i}
  {
    var b := r.buffered + {i};
    RunEndIsFrontier(b, r.next);
    RunEndIsFrontier(b, Least(b));
  }
}
