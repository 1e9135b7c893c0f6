/** Sets of numbers as lists of contiguous ranges, and the shortest such list. */
module Ranges {
  import opened BerLength

  /** The `count + 1` consecutive numbers from `start` on. */
  datatype Range = Range(start: nat, count: nat) {
    function End(): nat { start + count }
    predicate Covers(x: nat) { start <= x <= start + count }
    function Span(): set<nat> { set x | start <= x <= start + count && Covers(x) }
    /** The encoded size of both numbers. */
    function Cost(): nat { |EncodeLength(start)| + |EncodeLength(count)| }
  }

  function Union(rs: seq<Range>): set<nat> {
    if rs == [] then {} else rs[0].Span() + Union(rs[1..])
  }

  function Cost(rs: seq<Range>): nat {
    if rs == [] then 0 else rs[0].Cost() + Cost(rs[1..])
  }

  /** How many numbers the ranges hold, counting repetitions. */
  function Size(rs: seq<Range>): nat {
    if rs == [] then 0 else rs[0].count + 1 + Size(rs[1..])
  }

  /** Sorted, disjoint, and with a gap after every range. */
  ghost predicate Normal(rs: seq<Range>) {
    |rs| <= 1 || (rs[0].End() + 1 < rs[1].start && Normal(rs[1..]))
  }

  // --- Facts about unions ---------------------------------------------------

  lemma {:induction false} UnionMember(rs: seq<Range>, x: nat)
    ensures x in Union(rs) <==> exists i :: 0 <= i < |rs| && x in rs[i].Span()
  {
    if rs != [] {
      UnionMember(rs[1..], x);
      if x in Union(rs[1..]) {
        var i :| 0 <= i < |rs[1..]| && x in rs[1..][i].Span();
        assert x in rs[i + 1].Span();
      }
      forall i | 0 <= i < |rs| && x in rs[i].Span()
        ensures x in Union(rs)
      {
        if i > 0 {
          assert rs[1..][i - 1] == rs[i];
        }
      }
    }
  }

  lemma {:induction false} UnionAppend(rs: seq<Range>, ts: seq<Range>)
    ensures Union(rs + ts) == Union(rs) + Union(ts)
    ensures Size(rs + ts) == Size(rs) + Size(ts)
  {
    if rs == [] {
      assert rs + ts == ts;
    } else {
      UnionAppend(rs[1..], ts);
      assert (rs + ts)[1..] == rs[1..] + ts;
    }
  }

  lemma {:induction false} SpanSize(r: Range)
    ensures |r.Span()| == r.count + 1
    decreases r.count
  {
    if r.count == 0 {
      assert r.Span() == {r.start};
    } else {
      var shorter := Range(r.start, r.count - 1);
      SpanSize(shorter);
      assert r.Span() == shorter.Span() + {r.End()};
    }
  }

  /** A union never has more elements than its ranges have numbers. */
  lemma {:induction false} UnionSize(rs: seq<Range>)
    ensures |Union(rs)| <= Size(rs)
  {
    if rs != [] {
      SpanSize(rs[0]);
      UnionSize(rs[1..]);
      assert |rs[0].Span() + Union(rs[1..])| <= |rs[0].Span()| + |Union(rs[1..])|;
    }
  }

  /** In normal form, everything after the first range lies beyond the gap. */
  lemma {:induction false} NormalTail(rs: seq<Range>)
    requires Normal(rs) && rs != []
    ensures forall x :: x in Union(rs[1..]) ==> rs[0].End() + 1 < x
    ensures Union(rs[1..]) == Union(rs) - rs[0].Span()
  {
    if |rs| > 1 {
      NormalTail(rs[1..]);
      assert Union(rs[1..]) == rs[1].Span() + Union(rs[1..][1..]);
    }
  }

  /** In normal form the sizes add up to the cardinality. */
  lemma {:induction false} NormalSize(rs: seq<Range>)
    requires Normal(rs)
    ensures |Union(rs)| == Size(rs)
  {
    if rs != [] {
      NormalTail(rs);
      NormalSize(rs[1..]);
      SpanSize(rs[0]);
      assert rs[0].Span() !! Union(rs[1..]);
    }
  }

  /** The number just before a range of a normal list is not in the set. */
  lemma {:induction false} NormalGap(rs: seq<Range>, i: nat)
    requires Normal(rs) && i < |rs|
    ensures rs[i].start in Union(rs)
    ensures rs[i].start > 0 ==> rs[i].start - 1 !in Union(rs)
  {
    NormalTail(rs);
    if i > 0 {
      NormalGap(rs[1..], i - 1);
    }
  }

  lemma UnionEmpty(rs: seq<Range>)
    ensures Union(rs) == {} <==> rs == []
  {
    if rs != [] {
      assert rs[0].start in Union(rs);
    }
  }

  /** A set has only one normal list: the maximal runs of its elements. */
  lemma {:induction false} NormalUnique(rs: seq<Range>, ts: seq<Range>)
    requires Normal(rs) && Normal(ts) && Union(rs) == Union(ts)
    ensures rs == ts
  {
    UnionEmpty(rs);
    UnionEmpty(ts);
    if rs != [] {
      var r, t := rs[0], ts[0];
      NormalTail(rs);
      NormalTail(ts);
      assert r.start in Union(ts) && t.start in Union(rs);
      assert r.start == t.start;
      assert r.End() in Union(ts) && t.End() in Union(rs);
      assert r.End() + 1 !in Union(rs) && t.End() + 1 !in Union(ts);
      assert r.End() < t.End() ==> r.End() + 1 in t.Span();
      assert t.End() < r.End() ==> t.End() + 1 in r.Span();
      NormalUnique(rs[1..], ts[1..]);
    }
  }

  // --- Adding one range to a normal list ------------------------------------

  /** Adds a range, merging every range it touches. */
  function Insert(rs: seq<Range>, r: Range): seq<Range> {
    if rs == [] then [r]
    else if rs[0].End() + 1 < r.start then [rs[0]] + Insert(rs[1..], r)
    else if r.End() + 1 < rs[0].start then [r] + rs
    else Insert(rs[1..], Merge(rs[0], r))
  }

  function Merge(a: Range, b: Range): Range {
    var start := if a.start < b.start then a.start else b.start;
    var end := if a.End() < b.End() then b.End() else a.End();
    Range(start, end - start)
  }

  lemma NormalCons(r: Range, rs: seq<Range>)
    requires Normal(rs) && (rs != [] ==> r.End() + 1 < rs[0].start)
    ensures Normal([r] + rs) && Union([r] + rs) == r.Span() + Union(rs)
  {
    assert ([r] + rs)[1..] == rs;
  }

  lemma UnionOfRest(rs: seq<Range>)
    requires rs != []
    ensures Union(rs) == rs[0].Span() + Union(rs[1..])
  {
  }

  lemma MergedSpan(a: Range, b: Range)
    requires a.End() + 1 >= b.start && b.End() + 1 >= a.start
    ensures Merge(a, b).Span() == a.Span() + b.Span()
  {
  }

  lemma {:induction false} InsertNormal(rs: seq<Range>, r: Range)
    requires Normal(rs)
    ensures Normal(Insert(rs, r)) && Insert(rs, r) != []
    ensures Union(Insert(rs, r)) == Union(rs) + r.Span()
    ensures Insert(rs, r)[0].start == if rs == [] then r.start else Merge(rs[0], r).start
  {
    if rs == [] {
      assert Union([r]) == r.Span();
    } else {
      UnionOfRest(rs);
      hide Union;
      if rs[0].End() + 1 < r.start {
        InsertNormal(rs[1..], r);
        NormalCons(rs[0], Insert(rs[1..], r));
      } else if r.End() + 1 < rs[0].start {
        NormalCons(r, rs);
      } else {
        InsertNormal(rs[1..], Merge(rs[0], r));
        MergedSpan(rs[0], r);
      }
    }
  }

  /** Adding a range costs at most that range: merging never makes a list longer. */
  lemma {:induction false} InsertCost(rs: seq<Range>, r: Range)
    ensures Cost(Insert(rs, r)) <= Cost(rs) + r.Cost()
    decreases |rs|
  {
    if rs == [] {
    } else if rs[0].End() + 1 < r.start {
      InsertCost(rs[1..], r);
      assert Insert(rs, r)[1..] == Insert(rs[1..], r);
    } else if r.End() + 1 < rs[0].start {
      assert Insert(rs, r)[1..] == rs;
    } else {
      var m := Merge(rs[0], r);
      InsertCost(rs[1..], m);
      LengthSizeMonotone(m.start, r.start);
      LengthSizeSubadditive(rs[0].count, r.count, m.count);
    }
  }

  // --- The runs of an ordered list of numbers -------------------------------

  ghost predicate Increasing(q: seq<nat>) {
    forall i, j :: 0 <= i < j < |q| ==> q[i] < q[j]
  }

  /** Adds the next number: to the last run if it follows it directly, else as a new run. */
  function Extend(rs: seq<Range>, w: nat): (ts: seq<Range>)
    ensures ts != []
  {
    if rs == [] then [Range(w, 0)]
    else
      var last := rs[|rs| - 1];
      if w == last.start + last.count + 1
      then rs[..|rs| - 1] + [Range(last.start, last.count + 1)]
      else rs + [Range(w, 0)]
  }

  /** The runs of consecutive numbers in an increasing list, found from left to right. */
  function Runs(q: seq<nat>): seq<Range> {
    if q == [] then [] else Extend(Runs(q[..|q| - 1]), q[|q| - 1])
  }

  lemma {:induction false} NormalAppend(rs: seq<Range>, r: Range)
    requires Normal(rs)
    requires rs != [] ==> rs[|rs| - 1].End() + 1 < r.start
    ensures Normal(rs + [r])
  {
    if |rs| > 1 {
      NormalAppend(rs[1..], r);
      assert (rs + [r])[1..] == rs[1..] + [r];
    }
  }

  lemma {:induction false} NormalInit(rs: seq<Range>)
    requires Normal(rs) && rs != []
    ensures Normal(rs[..|rs| - 1])
    ensures |rs| > 1 ==> rs[|rs| - 2].End() + 1 < rs[|rs| - 1].start
  {
    if |rs| > 1 {
      NormalInit(rs[1..]);
      assert rs[..|rs| - 1][1..] == rs[1..][..|rs| - 2];
    }
  }

  lemma LengthenLast(front: seq<Range>, last: Range)
    requires Normal(front + [last])
    ensures var longer := Range(last.start, last.count + 1);
      && Normal(front + [longer])
      && Union(front + [longer]) == Union(front + [last]) + {last.End() + 1}
  {
    hide Union;
    var longer := Range(last.start, last.count + 1);
    assert (front + [last])[..|front|] == front;
    NormalInit(front + [last]);
    NormalAppend(front, longer);
    UnionAppend(front, [last]);
    UnionAppend(front, [longer]);
    UnionSingle(last);
    UnionSingle(longer);
    assert longer.Span() == last.Span() + {last.End() + 1};
  }

  /** Extending a normal list by a greater number keeps it normal and adds that number. */
  lemma ExtendNormal(rs: seq<Range>, w: nat)
    requires Normal(rs)
    requires rs != [] ==> rs[|rs| - 1].End() < w
    ensures Normal(Extend(rs, w)) && Union(Extend(rs, w)) == Union(rs) + {w}
    ensures Extend(rs, w)[|Extend(rs, w)| - 1].End() == w
  {
    UnionSingle(Range(w, 0));
    assert Range(w, 0).Span() == {w};
    if rs != [] {
      hide Union, Normal;
      var last := rs[|rs| - 1];
      var front := rs[..|rs| - 1];
      assert rs == front + [last];
      if w == last.End() + 1 {
        LengthenLast(front, last);
      } else {
        NormalAppend(rs, Range(w, 0));
        UnionAppend(rs, [Range(w, 0)]);
      }
    }
  }

  lemma UnionSingle(r: Range)
    ensures Union([r]) == r.Span()
  {
    assert [r][1..] == [];
  }

  /** The runs of an increasing list are the normal list of its elements. */
  lemma {:induction false} RunsNormal(q: seq<nat>)
    requires Increasing(q)
    ensures Normal(Runs(q))
    ensures forall x :: x in Union(Runs(q)) <==> x in q
    ensures Runs(q) == [] <==> q == []
    ensures q != [] ==> Runs(q)[|Runs(q)| - 1].End() == q[|q| - 1]
  {
    if q != [] {
      hide Union, Normal, Extend;
      var init := q[..|q| - 1];
      var w := q[|q| - 1];
      RunsNormal(init);
      ExtendNormal(Runs(init), w);
      assert q == init + [w];
    }
  }

  // --- The runs of a set ----------------------------------------------------

  lemma {:induction false} MaxExists(s: set<nat>)
    requires s != {}
    ensures exists m :: m in s && forall x :: x in s ==> x <= m
  {
    var a :| a in s;
    if s != {a} {
      var rest := s - {a};
      MaxExists(rest);
      var m :| m in rest && forall x :: x in rest ==> x <= m;
      assert forall x :: x in s ==> x == a || x in rest;
      if m < a {
        assert forall x :: x in s ==> x <= a;
      } else {
        assert forall x :: x in s ==> x <= m;
      }
    }
  }

  /** The elements of a set in increasing order. */
  ghost function Ordered(s: set<nat>): (q: seq<nat>)
    ensures Increasing(q) && |q| == |s|
    ensures forall x :: x in q <==> x in s
  {
    if s == {} then []
    else
      MaxExists(s);
      var m :| m in s && forall x :: x in s ==> x <= m;
      Ordered(s - {m}) + [m]
  }

  ghost function CanonicalRuns(s: set<nat>): (rs: seq<Range>)
    ensures Normal(rs) && Union(rs) == s && Size(rs) == |s|
  {
    var q := Ordered(s);
    RunsNormal(q);
    assert Union(Runs(q)) == s;
    NormalSize(Runs(q));
    Runs(q)
  }

  /** Walks a set in increasing order, as an ordered set's iterator does. */
  method InOrder(s: set<nat>) returns (q: seq<nat>)
    ensures Increasing(q)
    ensures forall x :: x in q <==> x in s
  {
    q := [];
    var rest := s;
    while rest != {}
      invariant rest <= s
      invariant Increasing(q)
      invariant forall x :: x in q <==> x in s && x !in rest
      invariant forall x, y :: x in q && y in rest ==> y < x
      decreases |rest|
    {
      MaxExists(rest);
      var m :| m in rest && forall x :: x in rest ==> x <= m;
      assert forall i :: 0 <= i < |q| ==> q[i] in q;
      q := [m] + q;
      rest := rest - {m};
    }
  }
}
