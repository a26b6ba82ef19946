/**
 The set of integers kept as ranges of module 69450 (discontinuous-range).
 */
module RangeSet {
  import opened Wrappers

  function Min(a: int, b: int): int {
    if a < b then a else b
  }

  function Max(a: int, b: int): int {
    if a < b then b else a
  }

  // A reversed range, low above high, is allowed and holds nothing.
  datatype Range = Range(low: int, high: int) {
    function Length(): int {
      1 + high - low
    }

    predicate Has(x: int) {
      low <= x <= high
    }

    predicate Overlaps(r: Range) {
      !(high < r.low || low > r.high)
    }

    predicate Touches(r: Range) {
      !(high + 1 < r.low || low - 1 > r.high)
    }

    function Add(r: Range): Range {
      Range(Min(low, r.low), Max(high, r.high))
    }

    function Subtract(r: Range): seq<Range> {
      if r.low <= low && r.high >= high then []
      else if r.low > low && r.high < high then [Range(low, r.low - 1), Range(r.high + 1, high)]
      else if r.low <= low then [Range(r.high + 1, high)]
      else [Range(low, r.low - 1)]
    }
  }

  ghost predicate In(rs: seq<Range>, x: int) {
    exists r :: r in rs && r.Has(x)
  }

  // In ascending order, apart, and none reversed.
  ghost predicate Sorted(rs: seq<Range>) {
    Proper(rs) && forall i, j | 0 <= i < j < |rs| :: rs[i].high < rs[j].low
  }

  ghost predicate Proper(rs: seq<Range>) {
    forall r | r in rs :: r.low <= r.high
  }

  function TotalLength(rs: seq<Range>): int {
    if |rs| == 0 then 0 else TotalLength(rs[..|rs| - 1]) + rs[|rs| - 1].Length()
  }

  // ---------------------------------------------------------------------
  // The operations on the list of ranges
  // ---------------------------------------------------------------------

  function AddOne(rs: seq<Range>, t: Range): seq<Range> {
    if |rs| == 0 then [t]
    else if t.Touches(rs[0]) then Merge(rs, t)
    else [rs[0]] + AddOne(rs[1..], t)
  }

  // While the ranges touch what has been merged.
  function Merge(rs: seq<Range>, t: Range): seq<Range>
    decreases |rs|
  {
    if |rs| > 0 && t.Touches(rs[0]) then Merge(rs[1..], t.Add(rs[0])) else [t] + rs
  }

  function SubtractOne(rs: seq<Range>, t: Range): seq<Range> {
    if |rs| == 0 then []
    else if t.Overlaps(rs[0]) then Cut(rs, t)
    else [rs[0]] + SubtractOne(rs[1..], t)
  }

  function Cut(rs: seq<Range>, t: Range): seq<Range> {
    if |rs| > 0 && t.Overlaps(rs[0]) then rs[0].Subtract(t) + Cut(rs[1..], t) else rs
  }

  function IntersectOne(rs: seq<Range>, t: Range): seq<Range> {
    if |rs| == 0 then []
    else if t.Overlaps(rs[0]) then Shared(rs, t)
    else IntersectOne(rs[1..], t)
  }

  function Shared(rs: seq<Range>, t: Range): seq<Range> {
    if |rs| > 0 && t.Overlaps(rs[0])
    then [Range(Max(rs[0].low, t.low), Min(rs[0].high, t.high))] + Shared(rs[1..], t)
    else []
  }

  function AddAll(rs: seq<Range>, ts: seq<Range>): seq<Range> {
    if |ts| == 0 then rs else AddOne(AddAll(rs, ts[..|ts| - 1]), ts[|ts| - 1])
  }

  function SubtractAll(rs: seq<Range>, ts: seq<Range>): seq<Range> {
    if |ts| == 0 then rs else SubtractOne(SubtractAll(rs, ts[..|ts| - 1]), ts[|ts| - 1])
  }

  function IntersectAll(rs: seq<Range>, ts: seq<Range>): seq<Range> {
    if |ts| == 0 then [] else IntersectAll(rs, ts[..|ts| - 1]) + IntersectOne(rs, ts[|ts| - 1])
  }

  // index; None where it runs off the end and raises.
  function Index(rs: seq<Range>, i: int): Option<int> {
    if |rs| == 0 then None
    else if rs[0].Length() <= i then Index(rs[1..], i - rs[0].Length())
    else Some(rs[0].low + i)
  }

  // The largest total of the first few ranges, at least one.
  function Peak(rs: seq<Range>): int
    requires |rs| > 0
  {
    if |rs| == 1 then rs[0].Length() else rs[0].Length() + Max(0, Peak(rs[1..]))
  }

  lemma {:induction false} TotalFirst(rs: seq<Range>)
    requires |rs| > 0
    ensures TotalLength(rs) == rs[0].Length() + TotalLength(rs[1..])
    decreases |rs|
  {
    if |rs| > 1 {
      var p := rs[..|rs| - 1];
      TotalFirst(p);
      assert p[1..] == rs[1..][..|rs| - 2];
    }
  }

  // ---------------------------------------------------------------------
  // What they mean
  // ---------------------------------------------------------------------

  lemma InFirst(r: Range, rs: seq<Range>, x: int)
    ensures In([r] + rs, x) <==> r.Has(x) || In(rs, x)
  {
    if r.Has(x) { assert r in [r] + rs; }
    if In(rs, x) {
      var s :| s in rs && s.Has(x);
      assert s in [r] + rs;
    }
  }

  lemma InBoth(a: seq<Range>, b: seq<Range>, x: int)
    ensures In(a + b, x) <==> In(a, x) || In(b, x)
  {
    if In(a, x) {
      var s :| s in a && s.Has(x);
      assert s in a + b;
    }
    if In(b, x) {
      var s :| s in b && s.Has(x);
      assert s in a + b;
    }
  }

  lemma Rest(rs: seq<Range>)
    requires |rs| > 0
    ensures rs == [rs[0]] + rs[1..]
  {
  }

  lemma {:induction false} MergeMeans(rs: seq<Range>, t: Range, x: int)
    ensures In(Merge(rs, t), x) <==> In(rs, x) || t.Has(x)
    decreases |rs|
  {
    if |rs| > 0 && t.Touches(rs[0]) {
      MergeMeans(rs[1..], t.Add(rs[0]), x);
      Rest(rs);
      InFirst(rs[0], rs[1..], x);
    } else {
      InFirst(t, rs, x);
    }
  }

  /** add is union, whatever ranges there are and however they are ordered. */
  lemma {:induction false} AddMeans(rs: seq<Range>, t: Range, x: int)
    ensures In(AddOne(rs, t), x) <==> In(rs, x) || t.Has(x)
    decreases |rs|
  {
    if |rs| == 0 {
      InFirst(t, rs, x);
      assert [t] + rs == [t];
    } else if t.Touches(rs[0]) {
      MergeMeans(rs, t, x);
    } else {
      AddMeans(rs[1..], t, x);
      Rest(rs);
      InFirst(rs[0], rs[1..], x);
      InFirst(rs[0], AddOne(rs[1..], t), x);
    }
  }

  lemma {:induction false} AddAllMeans(rs: seq<Range>, ts: seq<Range>, x: int)
    ensures In(AddAll(rs, ts), x) <==> In(rs, x) || In(ts, x)
    decreases |ts|
  {
    if |ts| > 0 {
      var p, t := ts[..|ts| - 1], ts[|ts| - 1];
      AddAllMeans(rs, p, x);
      AddMeans(AddAll(rs, p), t, x);
      assert ts == p + [t];
      InBoth(p, [t], x);
      InFirst(t, [], x);
      assert [t] + [] == [t];
    }
  }

  lemma SortedRest(rs: seq<Range>)
    requires Sorted(rs) && |rs| > 0
    ensures Sorted(rs[1..]) && rs[0].low <= rs[0].high && forall r | r in rs[1..] :: rs[0].high < r.low <= r.high
  {
    forall i, j | 0 <= i < j < |rs| - 1
      ensures rs[1..][i].high < rs[1..][j].low
    {
      assert rs[i + 1].high < rs[j + 1].low;
    }
    assert rs[0] in rs;
  }

  lemma SubtractMeans1(r: Range, t: Range, x: int)
    requires r.low <= r.high && t.Overlaps(r)
    ensures In(r.Subtract(t), x) <==> r.Has(x) && !t.Has(x)
  {
    var s := r.Subtract(t);
    if r.Has(x) && !t.Has(x) {
      assert s[0].Has(x) || s[1].Has(x);
    }
  }

  lemma {:induction false} CutMeans(rs: seq<Range>, t: Range, x: int)
    requires Sorted(rs) && forall r | r in rs :: t.low <= r.high
    ensures In(Cut(rs, t), x) <==> In(rs, x) && !t.Has(x)
    decreases |rs|
  {
    if |rs| > 0 {
      SortedRest(rs);
      Rest(rs);
      InFirst(rs[0], rs[1..], x);
      if t.Overlaps(rs[0]) {
        CutMeans(rs[1..], t, x);
        SubtractMeans1(rs[0], t, x);
        InBoth(rs[0].Subtract(t), Cut(rs[1..], t), x);
      } else {
        assert rs[0] in rs;
      }
    }
  }

  /** On a sorted list subtract is difference. */
  lemma {:induction false} SubtractMeans(rs: seq<Range>, t: Range, x: int)
    requires Sorted(rs)
    ensures In(SubtractOne(rs, t), x) <==> In(rs, x) && !t.Has(x)
    decreases |rs|
  {
    if |rs| > 0 {
      SortedRest(rs);
      Rest(rs);
      InFirst(rs[0], rs[1..], x);
      if t.Overlaps(rs[0]) {
        assert forall r | r in rs :: r == rs[0] || r in rs[1..];
        CutMeans(rs, t, x);
      } else {
        SubtractMeans(rs[1..], t, x);
        InFirst(rs[0], SubtractOne(rs[1..], t), x);
      }
    }
  }

  lemma {:induction false} SharedMeans(rs: seq<Range>, t: Range, x: int)
    requires Sorted(rs) && forall r | r in rs :: t.low <= r.high
    ensures In(Shared(rs, t), x) <==> In(rs, x) && t.Has(x)
    decreases |rs|
  {
    if |rs| > 0 {
      SortedRest(rs);
      Rest(rs);
      InFirst(rs[0], rs[1..], x);
      if t.Overlaps(rs[0]) {
        SharedMeans(rs[1..], t, x);
        InFirst(Range(Max(rs[0].low, t.low), Min(rs[0].high, t.high)), Shared(rs[1..], t), x);
      } else {
        assert rs[0] in rs;
      }
    }
  }

  /** On a sorted list the part of intersect for one argument range is intersection with it. */
  lemma {:induction false} IntersectMeans(rs: seq<Range>, t: Range, x: int)
    requires Sorted(rs)
    ensures In(IntersectOne(rs, t), x) <==> In(rs, x) && t.Has(x)
    decreases |rs|
  {
    if |rs| > 0 {
      SortedRest(rs);
      Rest(rs);
      InFirst(rs[0], rs[1..], x);
      if t.Overlaps(rs[0]) {
        assert forall r | r in rs :: r == rs[0] || r in rs[1..];
        SharedMeans(rs, t, x);
      } else {
        IntersectMeans(rs[1..], t, x);
      }
    }
  }

  lemma {:induction false} IntersectAllMeans(rs: seq<Range>, ts: seq<Range>, x: int)
    requires Sorted(rs)
    ensures In(IntersectAll(rs, ts), x) <==> In(rs, x) && In(ts, x)
    decreases |ts|
  {
    if |ts| > 0 {
      var p, t := ts[..|ts| - 1], ts[|ts| - 1];
      IntersectAllMeans(rs, p, x);
      IntersectMeans(rs, t, x);
      InBoth(IntersectAll(rs, p), IntersectOne(rs, t), x);
      assert ts == p + [t];
      InBoth(p, [t], x);
      InFirst(t, [], x);
      assert [t] + [] == [t];
    }
  }

  // ---------------------------------------------------------------------
  // Order and length
  // ---------------------------------------------------------------------

  lemma SortedCons(r: Range, rs: seq<Range>)
    ensures Sorted([r] + rs) <==> r.low <= r.high && Sorted(rs) && forall s | s in rs :: r.high < s.low
  {
    var all := [r] + rs;
    if Sorted(all) {
      SortedRest(all);
      assert all[1..] == rs;
    }
    if r.low <= r.high && Sorted(rs) && forall s | s in rs :: r.high < s.low {
      forall i, j | 0 <= i < j < |all|
        ensures all[i].high < all[j].low
      {
        assert all[j] == rs[j - 1] && rs[j - 1] in rs;
        if i > 0 { assert rs[i - 1].high < rs[j - 1].low; }
      }
    }
  }

  // More than empty: its ends have passed each other.
  predicate Reversed(t: Range) {
    t.high + 1 < t.low
  }

  lemma {:induction false} CutSorted(rs: seq<Range>, t: Range, lo: int)
    requires Sorted(rs) && !Reversed(t) && (forall r | r in rs :: lo < r.low)
    ensures Sorted(Cut(rs, t)) && forall r | r in Cut(rs, t) :: lo < r.low
    decreases |rs|
  {
    hide Sorted;
    if |rs| > 0 && t.Overlaps(rs[0]) {
      SortedRest(rs);
      assert rs[0] in rs;
      var r, rest := rs[0], Cut(rs[1..], t);
      CutSorted(rs[1..], t, r.high);
      PiecesSorted(r, t, rest, lo);
    }
  }

  // The pieces of a range before a sorted rest.
  lemma PiecesSorted(r: Range, t: Range, rest: seq<Range>, lo: int)
    requires lo < r.low <= r.high && t.Overlaps(r) && !Reversed(t)
    requires Sorted(rest) && forall s | s in rest :: r.high < s.low
    ensures Sorted(r.Subtract(t) + rest) && forall s | s in r.Subtract(t) + rest :: lo < s.low
  {
    hide Sorted;
    var s := r.Subtract(t);
    if |s| == 1 {
      SortedCons(s[0], rest);
      assert s + rest == [s[0]] + rest;
    } else if |s| == 2 {
      SortedCons(s[1], rest);
      SortedCons(s[0], [s[1]] + rest);
      assert s + rest == [s[0]] + ([s[1]] + rest);
    } else {
      assert s + rest == rest;
    }
  }

  lemma {:induction false} SubtractSorted(rs: seq<Range>, t: Range, lo: int)
    requires Sorted(rs) && !Reversed(t) && (forall r | r in rs :: lo < r.low)
    ensures Sorted(SubtractOne(rs, t)) && forall r | r in SubtractOne(rs, t) :: lo < r.low
    decreases |rs|
  {
    if |rs| > 0 {
      if t.Overlaps(rs[0]) {
        CutSorted(rs, t, lo);
      } else {
        SortedRest(rs);
        assert rs[0] in rs;
        SubtractSorted(rs[1..], t, rs[0].high);
        SortedCons(rs[0], SubtractOne(rs[1..], t));
      }
    }
  }

  lemma {:induction false} SubtractMisses(rs: seq<Range>, t: Range)
    requires forall r | r in rs :: !t.Overlaps(r)
    ensures SubtractOne(rs, t) == rs
    decreases |rs|
  {
    if |rs| > 0 {
      assert rs[0] in rs;
      SubtractMisses(rs[1..], t);
      Rest(rs);
    }
  }

  lemma {:induction false} SubtractTangles(rs: seq<Range>, t: Range)
    requires Sorted(rs) && Reversed(t) && exists r :: r in rs && t.Overlaps(r)
    ensures !Sorted(SubtractOne(rs, t))
    decreases |rs|
  {
    SortedRest(rs);
    if t.Overlaps(rs[0]) {
      var s := SubtractOne(rs, t);
      assert rs[0].Subtract(t) == [Range(rs[0].low, t.low - 1), Range(t.high + 1, rs[0].high)];
      assert s[0].high >= s[1].low;
    } else {
      Rest(rs);
      SubtractTangles(rs[1..], t);
      SortedCons(rs[0], SubtractOne(rs[1..], t));
    }
  }

  /** subtract leaves a sorted list sorted if and only if its argument is not reversed or overlaps nothing. */
  lemma SubtractKeepsSorted(rs: seq<Range>, t: Range)
    requires Sorted(rs)
    ensures Sorted(SubtractOne(rs, t)) <==> !Reversed(t) || forall r | r in rs :: !t.Overlaps(r)
  {
    if forall r | r in rs :: !t.Overlaps(r) {
      SubtractMisses(rs, t);
    } else if Reversed(t) {
      SubtractTangles(rs, t);
    } else {
      var lo := if |rs| == 0 then 0 else rs[0].low - 1;
      forall r | r in rs
        ensures lo < r.low
      {
        SortedRest(rs);
        Rest(rs);
      }
      SubtractSorted(rs, t, lo);
    }
  }

  // ---------------------------------------------------------------------
  // subtract on lists that need not be in order
  // ---------------------------------------------------------------------

  // The ranges behind the first run that t overlaps: the loops of subtract stop before them.
  function Behind(rs: seq<Range>, t: Range): seq<Range> {
    if |rs| == 0 then [] else if t.Overlaps(rs[0]) then BehindRun(rs, t) else Behind(rs[1..], t)
  }

  function BehindRun(rs: seq<Range>, t: Range): seq<Range> {
    if |rs| > 0 && t.Overlaps(rs[0]) then BehindRun(rs[1..], t) else rs
  }

  // subtract reaches every range that shares a member with t.
  predicate Reaches(rs: seq<Range>, t: Range) {
    t.low > t.high || forall r | r in Behind(rs, t) :: !t.Overlaps(r)
  }

  lemma ProperRest(rs: seq<Range>)
    requires Proper(rs) && |rs| > 0
    ensures Proper(rs[1..]) && rs[0].low <= rs[0].high
  {
    assert rs[0] in rs;
  }

  lemma {:induction false} CutProper(rs: seq<Range>, t: Range, x: int)
    requires Proper(rs)
    ensures Proper(Cut(rs, t)) && Proper(BehindRun(rs, t))
    ensures In(Cut(rs, t), x) <==> (In(rs, x) && !t.Has(x)) || In(BehindRun(rs, t), x)
    decreases |rs|
  {
    if |rs| > 0 && t.Overlaps(rs[0]) {
      ProperRest(rs);
      Rest(rs);
      CutProper(rs[1..], t, x);
      InFirst(rs[0], rs[1..], x);
      SubtractMeans1(rs[0], t, x);
      InBoth(rs[0].Subtract(t), Cut(rs[1..], t), x);
    }
  }

  // What subtract leaves of any list: the difference, and whatever lies behind the run.
  lemma {:induction false} SubtractLeaves(rs: seq<Range>, t: Range, x: int)
    requires Proper(rs)
    ensures Proper(SubtractOne(rs, t)) && Proper(Behind(rs, t))
    ensures In(SubtractOne(rs, t), x) <==> (In(rs, x) && !t.Has(x)) || In(Behind(rs, t), x)
    ensures In(Behind(rs, t), x) ==> In(rs, x)
    decreases |rs|
  {
    if |rs| > 0 {
      ProperRest(rs);
      Rest(rs);
      InFirst(rs[0], rs[1..], x);
      if t.Overlaps(rs[0]) {
        CutProper(rs, t, x);
        BehindRunIn(rs, t, x);
      } else {
        SubtractLeaves(rs[1..], t, x);
        InFirst(rs[0], SubtractOne(rs[1..], t), x);
      }
    }
  }

  lemma {:induction false} BehindRunIn(rs: seq<Range>, t: Range, x: int)
    ensures In(BehindRun(rs, t), x) ==> In(rs, x)
    decreases |rs|
  {
    if |rs| > 0 && t.Overlaps(rs[0]) {
      BehindRunIn(rs[1..], t, x);
      Rest(rs);
      InFirst(rs[0], rs[1..], x);
    }
  }

  ghost predicate IsDifference(d: seq<Range>, rs: seq<Range>, ts: seq<Range>) {
    forall x :: In(d, x) <==> In(rs, x) && !In(ts, x)
  }

  lemma InOne(t: Range, x: int)
    ensures In([t], x) <==> t.Has(x)
  {
    if t.Has(x) { assert t in [t]; }
  }

  /**
   On any list, in order or not, subtract is difference if and only if it reaches every range that
   shares a member with its argument.
   */
  lemma SubtractExact(rs: seq<Range>, t: Range)
    requires Proper(rs)
    ensures Proper(SubtractOne(rs, t))
    ensures IsDifference(SubtractOne(rs, t), rs, [t]) <==> Reaches(rs, t)
  {
    SubtractLeaves(rs, t, 0);
    if Reaches(rs, t) {
      forall x
        ensures In(SubtractOne(rs, t), x) <==> In(rs, x) && !In([t], x)
      {
        SubtractLeaves(rs, t, x);
        InOne(t, x);
        if In(Behind(rs, t), x) {
          var r :| r in Behind(rs, t) && r.Has(x);
          assert t.Has(x) ==> t.Overlaps(r);
        }
      }
    } else {
      var r :| r in Behind(rs, t) && t.Overlaps(r);
      var x := Max(r.low, t.low);
      assert r.Has(x) && t.Has(x);
      SubtractLeaves(rs, t, x);
      InOne(t, x);
    }
  }

  lemma {:induction false} SortedReaches(rs: seq<Range>, t: Range)
    requires Sorted(rs)
    ensures Reaches(rs, t)
    decreases |rs|
  {
    forall x
      ensures In(SubtractOne(rs, t), x) <==> In(rs, x) && !In([t], x)
    {
      SubtractMeans(rs, t, x);
      InOne(t, x);
    }
    SubtractExact(rs, t);
  }

  /** subtract of any set leaves no less than the difference, and nothing that was not there. */
  lemma {:induction false} SubtractAllBounds(rs: seq<Range>, ts: seq<Range>, x: int)
    requires Proper(rs)
    ensures Proper(SubtractAll(rs, ts))
    ensures In(rs, x) && !In(ts, x) ==> In(SubtractAll(rs, ts), x)
    ensures In(SubtractAll(rs, ts), x) ==> In(rs, x)
    decreases |ts|
  {
    if |ts| > 0 {
      var p, t := ts[..|ts| - 1], ts[|ts| - 1];
      SubtractAllBounds(rs, p, x);
      SubtractLeaves(SubtractAll(rs, p), t, x);
      assert ts == p + [t];
      InBoth(p, [t], x);
      InOne(t, x);
    }
  }

  // The n-th range of the argument takes its member x from the list when its turn comes.
  ghost predicate Takes(rs: seq<Range>, ts: seq<Range>, n: nat, x: int)
    requires n < |ts|
  {
    ts[n].Has(x) && !In(Behind(SubtractAll(rs, ts[..n]), ts[n]), x)
  }

  // Every member of the argument that is in the list is taken at some turn.
  ghost predicate AllTaken(rs: seq<Range>, ts: seq<Range>) {
    forall x | In(rs, x) && In(ts, x) :: exists n :: 0 <= n < |ts| && Takes(rs, ts, n, x)
  }

  /** What subtract of any set leaves of any list: what none of its ranges takes when its turn comes. */
  lemma {:induction false} SubtractAllLeaves(rs: seq<Range>, ts: seq<Range>, x: int)
    requires Proper(rs)
    ensures In(SubtractAll(rs, ts), x) <==> In(rs, x) && forall n | 0 <= n < |ts| :: !Takes(rs, ts, n, x)
    decreases |ts|
  {
    if |ts| > 0 {
      var p, t := ts[..|ts| - 1], ts[|ts| - 1];
      SubtractAllLeaves(rs, p, x);
      SubtractAllBounds(rs, p, x);
      SubtractLeaves(SubtractAll(rs, p), t, x);
      forall n | 0 <= n < |p|
        ensures Takes(rs, ts, n, x) <==> Takes(rs, p, n, x)
      {
        assert p[..n] == ts[..n];
      }
      assert Takes(rs, ts, |p|, x) <==> t.Has(x) && !In(Behind(SubtractAll(rs, p), t), x);
    }
  }

  /** subtract of any set from any list is difference if and only if every member of both is taken at some turn. */
  lemma SubtractAllDifference(rs: seq<Range>, ts: seq<Range>)
    requires Proper(rs)
    ensures IsDifference(SubtractAll(rs, ts), rs, ts) <==> AllTaken(rs, ts)
  {
    hide SubtractAll;
    forall x
      ensures In(SubtractAll(rs, ts), x) <==> In(rs, x) && forall n | 0 <= n < |ts| :: !Takes(rs, ts, n, x)
      ensures In(rs, x) && !In(ts, x) ==> In(SubtractAll(rs, ts), x)
    {
      SubtractAllLeaves(rs, ts, x);
      SubtractAllBounds(rs, ts, x);
    }
  }

  // Every range of the argument reaches what it should when its turn comes.
  predicate AllReach(rs: seq<Range>, ts: seq<Range>) {
    |ts| == 0 || (AllReach(rs, ts[..|ts| - 1]) && Reaches(SubtractAll(rs, ts[..|ts| - 1]), ts[|ts| - 1]))
  }

  // Range after range, the list is the difference with the argument so far.
  ghost predicate ExactThroughout(rs: seq<Range>, ts: seq<Range>) {
    forall n | 0 <= n <= |ts| :: IsDifference(SubtractAll(rs, ts[..n]), rs, ts[..n])
  }

  /**
   subtract of any set from any list is difference at each of its ranges if and only if each reaches
   every range it shares a member with.
   */
  lemma {:induction false} SubtractAllExact(rs: seq<Range>, ts: seq<Range>)
    requires Proper(rs)
    ensures ExactThroughout(rs, ts) <==> AllReach(rs, ts)
    decreases |ts|
  {
    hide Reaches, SubtractOne, IsDifference;
    if |ts| == 0 {
      NothingTaken(rs, ts);
    } else {
      var p, t := ts[..|ts| - 1], ts[|ts| - 1];
      SubtractAllExact(rs, p);
      SubtractAllBounds(rs, p, 0);
      SubtractExact(SubtractAll(rs, p), t);
      ExactUpTo(rs, p, t);
      assert ts == p + [t];
    }
  }

  lemma NothingTaken(rs: seq<Range>, ts: seq<Range>)
    requires |ts| == 0
    ensures ExactThroughout(rs, ts)
  {
    assert ts == [];
  }

  lemma ExactUpTo(rs: seq<Range>, p: seq<Range>, t: Range)
    ensures ExactThroughout(rs, p + [t]) <==>
            ExactThroughout(rs, p) && IsDifference(SubtractOne(SubtractAll(rs, p), t), SubtractAll(rs, p), [t])
  {
    hide IsDifference, SubtractAll, SubtractOne;
    var ts := p + [t];
    if ExactThroughout(rs, ts) {
      forall n | 0 <= n <= |p|
        ensures IsDifference(SubtractAll(rs, p[..n]), rs, p[..n])
      {
        assert ts[..n] == p[..n];
        assert IsDifference(SubtractAll(rs, ts[..n]), rs, ts[..n]);
      }
      assert p[..|p|] == p && ts[..|ts|] == ts;
      OneMore(rs, p, t);
    }
    if ExactThroughout(rs, p) && IsDifference(SubtractOne(SubtractAll(rs, p), t), SubtractAll(rs, p), [t]) {
      assert p[..|p|] == p;
      OneMore(rs, p, t);
      forall n | 0 <= n <= |ts|
        ensures IsDifference(SubtractAll(rs, ts[..n]), rs, ts[..n])
      {
        if n <= |p| { assert ts[..n] == p[..n]; } else { assert ts[..n] == ts; }
      }
    }
  }

  // A difference stays one if and only if the next step is one.
  lemma OneMore(rs: seq<Range>, p: seq<Range>, t: Range)
    requires IsDifference(SubtractAll(rs, p), rs, p)
    ensures (p + [t])[..|p|] == p
    ensures IsDifference(SubtractAll(rs, p + [t]), rs, p + [t]) <==>
            IsDifference(SubtractOne(SubtractAll(rs, p), t), SubtractAll(rs, p), [t])
  {
    var d, e := SubtractAll(rs, p), SubtractOne(SubtractAll(rs, p), t);
    assert (p + [t])[..|p|] == p;
    forall x
      ensures (In(rs, x) && !In(p + [t], x)) <==> (In(d, x) && !In([t], x))
    {
      InBoth(p, [t], x);
    }
  }

  /** From a sorted list subtract of any set is difference, as long as no range but the last is reversed. */
  lemma {:induction false} SubtractAllMeans(rs: seq<Range>, ts: seq<Range>, x: int)
    requires Sorted(rs) && forall i | 0 <= i < |ts| - 1 :: !Reversed(ts[i])
    ensures In(SubtractAll(rs, ts), x) <==> In(rs, x) && !In(ts, x)
    ensures (|ts| > 0 ==> !Reversed(ts[|ts| - 1])) ==> Sorted(SubtractAll(rs, ts))
    decreases |ts|
  {
    if |ts| > 0 {
      var p, t := ts[..|ts| - 1], ts[|ts| - 1];
      assert ts == p + [t];
      SubtractAllMeans(rs, p, x);
      SubtractKeepsSorted(SubtractAll(rs, p), t);
      SubtractMeans(SubtractAll(rs, p), t, x);
      InBoth(p, [t], x);
      InOne(t, x);
    }
  }

  /** A reversed range splits a range into two that overlap, with the lower one in front: out of order. */
  lemma ReversedTangles()
    ensures Sorted([Range(0, 100)])
    ensures SubtractOne([Range(0, 100)], Range(60, 40)) == [Range(0, 59), Range(41, 100)]
    ensures !Sorted([Range(0, 59), Range(41, 100)])
  {
    var rs, t := [Range(0, 100)], Range(60, 40);
    assert rs[0].Subtract(t) == [Range(0, 59), Range(41, 100)];
    assert Cut(rs[1..], t) == [];
    assert SubtractOne(rs, t) == Cut(rs, t) == rs[0].Subtract(t) + Cut(rs[1..], t);
    var two := [Range(0, 59), Range(41, 100)];
    assert two[0].high >= two[1].low;
  }

  /**
   With a reversed range before others subtract of a set leaves a member of the set. The set is one
   that add builds.
   */
  lemma ReversedHidesMember()
    ensures var rs, ts := [Range(0, 100)], [Range(60, 40), Range(45, 50), Range(43, 43)];
      && AddAll([], ts) == ts && Sorted(rs)
      && SubtractAll(rs, ts) == [Range(0, 42), Range(44, 44), Range(51, 59), Range(41, 44), Range(51, 100)]
      && In(rs, 43) && In(ts, 43) && In(SubtractAll(rs, ts), 43)
  {
    ThreeAdded();
    ThreeSubtracted();
    InAt([Range(0, 100)], 0, 43);
    InAt([Range(60, 40), Range(45, 50), Range(43, 43)], 2, 43);
    InAt([Range(0, 42), Range(44, 44), Range(51, 59), Range(41, 44), Range(51, 100)], 3, 43);
  }

  lemma InAt(rs: seq<Range>, i: nat, x: int)
    requires i < |rs| && rs[i].Has(x)
    ensures In(rs, x)
  {
  }

  lemma Peel<T>(a: T, b: T, c: T)
    ensures [a][..0] == [] && [a, b][..1] == [a] && [a, b, c][..2] == [a, b]
  {
  }

  /** With its last range once more the same set does end in the difference, which it was not on the way. */
  lemma RepeatedReaches()
    ensures var rs, ts := [Range(0, 100)], [Range(60, 40), Range(45, 50), Range(43, 43), Range(43, 43)];
      && SubtractAll(rs, ts) ==
         [Range(0, 42), Range(44, 44), Range(51, 59), Range(41, 42), Range(44, 44), Range(51, 100)]
      && IsDifference(SubtractAll(rs, ts), rs, ts) && !AllReach(rs, ts)
  {
    hide SubtractOne, AllReach, In;
    var rs, ts := [Range(0, 100)], [Range(60, 40), Range(45, 50), Range(43, 43), Range(43, 43)];
    var p := [Range(60, 40), Range(45, 50), Range(43, 43)];
    assert ts[..3] == p;
    ThreeMiss();
    FourthCut();
    ReachesFirst(rs, ts);
    ThreeSubtracted();
    assert SubtractAll(rs, ts) == SubtractOne(SubtractAll(rs, p), Range(43, 43));
    forall x
      ensures In(SubtractAll(rs, ts), x) <==> In(rs, x) && !In(ts, x)
    {
      FourIn(Range(60, 40), Range(45, 50), Range(43, 43), Range(43, 43), x);
      InOne(Range(0, 100), x);
      SixIn(Range(0, 42), Range(44, 44), Range(51, 59), Range(41, 42), Range(44, 44), Range(51, 100), x);
    }
  }

  lemma ReachesFirst(rs: seq<Range>, ts: seq<Range>)
    requires |ts| > 0
    ensures AllReach(rs, ts) ==> AllReach(rs, ts[..|ts| - 1])
  {
  }

  // The first three are not the difference.
  lemma ThreeMiss()
    ensures !AllReach([Range(0, 100)], [Range(60, 40), Range(45, 50), Range(43, 43)])
  {
    hide AllReach;
    var rs, p := [Range(0, 100)], [Range(60, 40), Range(45, 50), Range(43, 43)];
    ReversedHidesMember();
    SubtractAllExact(rs, p);
    ExactAtLast(rs, p);
  }

  lemma ExactAtLast(rs: seq<Range>, ts: seq<Range>)
    ensures ExactThroughout(rs, ts) ==> IsDifference(SubtractAll(rs, ts), rs, ts)
  {
    hide IsDifference;
    assert ts[..|ts|] == ts;
  }

  lemma FourIn(a: Range, b: Range, c: Range, d: Range, x: int)
    ensures In([a, b, c, d], x) <==> a.Has(x) || b.Has(x) || c.Has(x) || d.Has(x)
  {
    var rs := [a, b, c, d];
    assert rs[0] == a && rs[1] == b && rs[2] == c && rs[3] == d;
  }

  lemma SixIn(a: Range, b: Range, c: Range, d: Range, e: Range, f: Range, x: int)
    ensures In([a, b, c, d, e, f], x) <==> a.Has(x) || b.Has(x) || c.Has(x) || d.Has(x) || e.Has(x) || f.Has(x)
  {
    assert [a, b, c, d] + [e, f] == [a, b, c, d, e, f];
    InBoth([a, b, c, d], [e, f], x);
    FourIn(a, b, c, d, x);
    assert [e] + [f] == [e, f];
    InBoth([e], [f], x);
    InOne(e, x);
    InOne(f, x);
  }

  lemma FourthCut()
    ensures SubtractOne([Range(0, 42), Range(44, 44), Range(51, 59), Range(41, 44), Range(51, 100)], Range(43, 43)) ==
            [Range(0, 42), Range(44, 44), Range(51, 59), Range(41, 42), Range(44, 44), Range(51, 100)]
  {
    var t := Range(43, 43);
    assert SubtractOne([Range(51, 100)], t) == [Range(51, 100)];
    var rest := [Range(41, 44), Range(51, 100)];
    assert rest[1..] == [Range(51, 100)] && rest[0].Subtract(t) == [Range(41, 42), Range(44, 44)];
    assert Cut([Range(51, 100)], t) == [Range(51, 100)];
    SubtractPast([Range(51, 59)] + rest, t);
    SubtractPast([Range(44, 44)] + ([Range(51, 59)] + rest), t);
    SubtractPast([Range(0, 42)] + ([Range(44, 44)] + ([Range(51, 59)] + rest)), t);
    assert [Range(0, 42)] + ([Range(44, 44)] + ([Range(51, 59)] + rest)) ==
           [Range(0, 42), Range(44, 44), Range(51, 59), Range(41, 44), Range(51, 100)];
  }

  lemma ThreeAdded()
    ensures AddAll([], [Range(60, 40), Range(45, 50), Range(43, 43)]) == [Range(60, 40), Range(45, 50), Range(43, 43)]
  {
    var a, b, c := Range(60, 40), Range(45, 50), Range(43, 43);
    Peel(a, b, c);
    assert AddAll([], [a]) == [a];
    assert AddAll([], [a, b]) == AddOne([a], b);
    assert [a][1..] == [] && AddOne([a], b) == [a, b];
    assert [a, b][1..] == [b] && [b][1..] == [];
    assert AddOne([b], c) == [b] + AddOne([], c) == [b, c];
    assert AddOne([a, b], c) == [a] + AddOne([b], c) == [a, b, c];
  }

  lemma ThreeSubtracted()
    ensures SubtractAll([Range(0, 100)], [Range(60, 40), Range(45, 50), Range(43, 43)]) ==
            [Range(0, 42), Range(44, 44), Range(51, 59), Range(41, 44), Range(51, 100)]
  {
    hide SubtractOne;
    var rs, a, b, c := [Range(0, 100)], Range(60, 40), Range(45, 50), Range(43, 43);
    Peel(a, b, c);
    ReversedTangles();
    SecondCut();
    ThirdCut();
    assert SubtractAll(rs, [a]) == SubtractOne(rs, a);
    assert SubtractAll(rs, [a, b]) == SubtractOne([Range(0, 59), Range(41, 100)], b);
  }

  lemma SecondCut()
    ensures SubtractOne([Range(0, 59), Range(41, 100)], Range(45, 50)) ==
            [Range(0, 44), Range(51, 59), Range(41, 44), Range(51, 100)]
  {
  }

  lemma ThirdCut()
    ensures SubtractOne([Range(0, 44), Range(51, 59), Range(41, 44), Range(51, 100)], Range(43, 43)) ==
            [Range(0, 42), Range(44, 44), Range(51, 59), Range(41, 44), Range(51, 100)]
  {
  }

  ghost function Span(r: Range): (s: set<int>)
    ensures forall x :: x in s <==> r.Has(x)
    decreases if r.low <= r.high then 1 + r.high - r.low else 0
  {
    if r.low > r.high then {} else Span(Range(r.low, r.high - 1)) + {r.high}
  }

  ghost function Members(rs: seq<Range>): set<int> {
    if |rs| == 0 then {} else Span(rs[0]) + Members(rs[1..])
  }

  lemma {:induction false} MembersAre(rs: seq<Range>, x: int)
    ensures x in Members(rs) <==> In(rs, x)
    decreases |rs|
  {
    if |rs| > 0 {
      MembersAre(rs[1..], x);
      Rest(rs);
      InFirst(rs[0], rs[1..], x);
    }
  }

  lemma {:induction false} SpanSize(r: Range)
    requires r.low <= r.high + 1
    ensures |Span(r)| == r.Length()
    decreases r.Length()
  {
    if r.low <= r.high { SpanSize(Range(r.low, r.high - 1)); }
  }

  /** On a sorted list length is the number of members. */
  lemma {:induction false} LengthCounts(rs: seq<Range>)
    requires Sorted(rs)
    ensures |Members(rs)| == TotalLength(rs)
    decreases |rs|
  {
    if |rs| > 0 {
      SortedRest(rs);
      TotalFirst(rs);
      LengthCounts(rs[1..]);
      SpanSize(rs[0]);
      forall x | x in Members(rs[1..])
        ensures x !in Span(rs[0])
      {
        MembersAre(rs[1..], x);
      }
      assert Span(rs[0]) !! Members(rs[1..]);
    }
  }

  /** index raises if and only if no total of first ranges is above its argument. */
  lemma {:induction false} IndexStops(rs: seq<Range>, i: int)
    ensures Index(rs, i) == None <==> |rs| == 0 || Peak(rs) <= i
    decreases |rs|
  {
    if |rs| > 0 { IndexStops(rs[1..], i - rs[0].Length()); }
  }

  lemma {:induction false} PeakTotal(rs: seq<Range>)
    requires |rs| > 0
    ensures Peak(rs) >= TotalLength(rs)
    decreases |rs|
  {
    TotalFirst(rs);
    if |rs| > 1 { PeakTotal(rs[1..]); } else { assert rs[1..] == []; }
  }

  /**
   What index finds is a member, in any list, reversed ranges included, unless its argument is below
   0 and below the length of the first range: then it counts back from the low end of that.
   */
  lemma {:induction false} IndexIn(rs: seq<Range>, i: int)
    requires Index(rs, i).Some?
    ensures if i < 0 && i < rs[0].Length() then Index(rs, i) == Some(rs[0].low + i) else In(rs, Index(rs, i).value)
    decreases |rs|
  {
    Rest(rs);
    InFirst(rs[0], rs[1..], Index(rs, i).value);
    if rs[0].Length() <= i {
      IndexIn(rs[1..], i - rs[0].Length());
    }
  }

  // Below the length there is something to find.
  lemma IndexFits(rs: seq<Range>, i: int)
    requires 0 <= i < TotalLength(rs)
    ensures Index(rs, i).Some? && In(rs, Index(rs, i).value)
  {
    PeakTotal(rs);
    IndexStops(rs, i);
    IndexIn(rs, i);
  }

  lemma {:induction false} IndexAscends(rs: seq<Range>, i: int, j: int)
    requires Sorted(rs) && 0 <= i < j < TotalLength(rs)
    ensures Index(rs, i).Some? && Index(rs, j).Some? && Index(rs, i).value < Index(rs, j).value
    decreases |rs|
  {
    hide TotalLength, Sorted;
    IndexFits(rs, i);
    IndexFits(rs, j);
    TotalFirst(rs);
    SortedRest(rs);
    var n := rs[0].Length();
    if n <= i {
      IndexAscends(rs[1..], i - n, j - n);
    } else if n <= j {
      IndexFits(rs[1..], j - n);
      MemberAbove(rs[1..], rs[0].high, Index(rs[1..], j - n).value);
    }
  }

  lemma MemberAbove(rs: seq<Range>, low: int, x: int)
    requires In(rs, x) && forall r | r in rs :: low < r.low
    ensures low < x
  {
  }

  lemma {:induction false} IndexReaches(rs: seq<Range>, x: int) returns (i: int)
    requires Proper(rs) && In(rs, x)
    ensures 0 <= i < TotalLength(rs) && Index(rs, i) == Some(x)
    decreases |rs|
  {
    hide In, TotalLength;
    NotEmpty(rs, x);
    ProperRest(rs);
    TotalFirst(rs);
    Rest(rs);
    InFirst(rs[0], rs[1..], x);
    TotalPositive(rs[1..]);
    if rs[0].Has(x) {
      i := x - rs[0].low;
    } else {
      i := IndexReaches(rs[1..], x);
      i := i + rs[0].Length();
    }
  }

  lemma NotEmpty(rs: seq<Range>, x: int)
    requires In(rs, x)
    ensures |rs| > 0
  {
  }

  lemma {:induction false} TotalPositive(rs: seq<Range>)
    requires Proper(rs)
    ensures TotalLength(rs) >= 0
  {
    if |rs| > 0 {
      assert rs[|rs| - 1] in rs;
      TotalPositive(rs[..|rs| - 1]);
    }
  }

  /** On a sorted list index runs through exactly the members, in ascending order, for 0 to length - 1. */
  lemma IndexEnumerates(rs: seq<Range>, x: int)
    requires Sorted(rs)
    ensures In(rs, x) <==> exists i :: 0 <= i < TotalLength(rs) && Index(rs, i) == Some(x)
    ensures forall i, j | 0 <= i < j < TotalLength(rs) ::
      Index(rs, i).Some? && Index(rs, j).Some? && Index(rs, i).value < Index(rs, j).value
  {
    if In(rs, x) {
      var _ := IndexReaches(rs, x);
    }
    forall i | 0 <= i < TotalLength(rs)
      ensures Index(rs, i).Some? && In(rs, Index(rs, i).value)
    {
      IndexFits(rs, i);
    }
    forall i, j | 0 <= i < j < TotalLength(rs)
      ensures Index(rs, i).Some? && Index(rs, j).Some? && Index(rs, i).value < Index(rs, j).value
    {
      IndexAscends(rs, i, j);
    }
  }

  // A copy made range by range is as sorted as its original, if that is sorted.
  lemma {:induction false} CopySorted(ts: seq<Range>)
    requires Sorted(ts)
    ensures Sorted(AddAll([], ts)) && forall r | r in AddAll([], ts) :: |ts| > 0 && r.high <= ts[|ts| - 1].high
    decreases |ts|
  {
    if |ts| > 0 {
      var p, t := ts[..|ts| - 1], ts[|ts| - 1];
      assert ts == p + [t] && t in ts;
      assert Sorted(p) by {
        assert forall r | r in p :: r in ts;
        assert forall i | 0 <= i < |p| :: p[i] == ts[i];
      }
      CopySorted(p);
      AddAbove(AddAll([], p), t);
    }
  }

  // A range above all others goes last, or is merged with the last.
  lemma {:induction false} AddAbove(rs: seq<Range>, t: Range)
    requires Sorted(rs) && t.low <= t.high && forall r | r in rs :: r.high < t.low
    ensures Sorted(AddOne(rs, t)) && forall r | r in AddOne(rs, t) ::
      r.high <= t.high && (|rs| == 0 || r.low >= rs[0].low)
    decreases |rs|
  {
    if |rs| > 0 {
      SortedRest(rs);
      assert rs[0] in rs;
      if |rs| > 1 { assert rs[1] in rs && rs[0].high < rs[1].low; }
      if t.Touches(rs[0]) {
        assert |rs| == 1;
        assert Merge(rs, t) == [t.Add(rs[0])] + [];
      } else {
        AddAbove(rs[1..], t);
        SortedCons(rs[0], AddOne(rs[1..], t));
        if |rs| > 1 { assert rs[1] == rs[1..][0] && rs[1] in rs[1..]; }
      }
    }
  }

  // ---------------------------------------------------------------------
  // What add leaves
  // ---------------------------------------------------------------------

  // With a member in common, or next to each other.
  ghost predicate Near(a: Range, b: Range) {
    a.low <= b.high + 1 && b.low <= a.high + 1
  }

  // The least range that holds t and the ranges rs.
  ghost predicate IsHull(h: Range, t: Range, rs: seq<Range>) {
    && h.low <= t.low && t.high <= h.high && (forall r | r in rs :: h.low <= r.low && r.high <= h.high)
    && (h.low == t.low || exists r :: r in rs && r.low == h.low)
    && (h.high == t.high || exists r :: r in rs && r.high == h.high)
  }

  // The ranges that are near to t, one after the other as it grows, from the first of the list on: hs
  // are the hulls of t and the first of them.
  ghost predicate Run(rs: seq<Range>, t: Range, hs: seq<Range>) {
    && 0 < |hs| <= |rs| + 1
    && (forall i {:trigger hs[i]} | 0 <= i < |hs| :: IsHull(hs[i], t, rs[..i]))
    && (forall i {:trigger hs[i]} | 0 <= i < |hs| - 1 :: Near(hs[i], rs[i]))
    && (|hs| <= |rs| ==> !Near(hs[|hs| - 1], rs[|hs| - 1]))
  }

  /**
   What add leaves of any list, for any range: those before the first that is near to it stay, and it
   and all those that are near to it, one after the other as it grows, become one range, their hull;
   what comes after that stays too. If none is near it goes last.
   */
  lemma {:induction false} AddExactly(rs: seq<Range>, t: Range) returns (e: nat, hs: seq<Range>)
    ensures e <= |rs| && (forall i | 0 <= i < e :: !Near(t, rs[i])) && (e < |rs| ==> Near(t, rs[e]))
    ensures Run(rs[e..], t, hs)
    ensures AddOne(rs, t) == rs[..e] + [hs[|hs| - 1]] + rs[e + |hs| - 1..]
    decreases |rs|
  {
    hide Run, Merge;
    if |rs| == 0 {
      e, hs := 0, [t];
      NoRun(rs, t);
      assert rs[e..] == rs;
    } else if t.Touches(rs[0]) {
      e := 0;
      hs := MergeExactly(rs, t);
      RunFits(rs, t, hs);
      assert rs[0..] == rs && rs[..0] + [hs[|hs| - 1]] == [hs[|hs| - 1]];
    } else {
      var f;
      f, hs := AddExactly(rs[1..], t);
      e := f + 1;
      assert rs[1..][f..] == rs[e..];
      RunFits(rs[e..], t, hs);
      ApartLater(rs, t, f);
      LaterList(rs, f, hs[|hs| - 1], |hs| - 1);
    }
  }

  lemma RunFits(rs: seq<Range>, t: Range, hs: seq<Range>)
    requires Run(rs, t, hs)
    ensures 0 < |hs| <= |rs| + 1
  {
  }

  lemma NoRun(rs: seq<Range>, t: Range)
    requires |rs| == 0 || !Near(t, rs[0])
    ensures Run(rs, t, [t])
  {
  }

  lemma LaterList(rs: seq<Range>, f: nat, h: Range, n: nat)
    requires |rs| > 0 && f + n < |rs|
    ensures [rs[0]] + (rs[1..][..f] + [h] + rs[1..][f + n..]) == rs[..f + 1] + [h] + rs[f + 1 + n..]
  {
    assert [rs[0]] + rs[1..][..f] == rs[..f + 1] && rs[1..][f + n..] == rs[f + 1 + n..];
  }

  lemma ApartLater(rs: seq<Range>, t: Range, f: nat)
    requires f < |rs| && !Near(t, rs[0]) && forall i | 0 <= i < f :: !Near(t, rs[1..][i])
    ensures forall i | 0 <= i < f + 1 :: !Near(t, rs[i])
  {
    assert forall i | 1 <= i < f + 1 :: rs[i] == rs[1..][i - 1];
  }

  lemma {:induction false} MergeExactly(rs: seq<Range>, t: Range) returns (hs: seq<Range>)
    ensures Run(rs, t, hs) && Merge(rs, t) == [hs[|hs| - 1]] + rs[|hs| - 1..]
    decreases |rs|
  {
    hide Run, IsHull;
    if |rs| > 0 && t.Touches(rs[0]) {
      var gs := MergeExactly(rs[1..], t.Add(rs[0]));
      RunFits(rs[1..], t.Add(rs[0]), gs);
      hs := [t] + gs;
      RunMore(rs, t, gs);
      assert rs[1..][|gs| - 1..] == rs[|hs| - 1..];
    } else {
      hs := [t];
      NoRun(rs, t);
    }
  }

  lemma RunMore(rs: seq<Range>, t: Range, gs: seq<Range>)
    requires |rs| > 0 && Near(t, rs[0]) && Run(rs[1..], t.Add(rs[0]), gs)
    ensures Run(rs, t, [t] + gs)
  {
    hide IsHull;
    var hs := [t] + gs;
    forall i {:trigger hs[i]} | 0 <= i < |hs|
      ensures IsHull(hs[i], t, rs[..i])
    {
      if i == 0 { HullAlone(t, rs[..i]); } else { HullMore(gs[i - 1], t, rs, i); }
    }
    forall i {:trigger hs[i]} | 0 <= i < |hs| - 1
      ensures Near(hs[i], rs[i])
    {
      if i > 0 { assert hs[i] == gs[i - 1] && rs[1..][i - 1] == rs[i]; }
    }
  }

  lemma HullAlone(t: Range, rs: seq<Range>)
    requires rs == []
    ensures forall h :: IsHull(h, t, rs) <==> h == t
  {
  }

  lemma HullMore(h: Range, t: Range, rs: seq<Range>, i: nat)
    requires 0 < i <= |rs| && IsHull(h, t.Add(rs[0]), rs[1..][..i - 1])
    ensures IsHull(h, t, rs[..i])
  {
    var p, q := rs[1..][..i - 1], rs[..i];
    assert q == [rs[0]] + p && q[0] in q;
    assert forall r | r in p :: r in q;
  }

  lemma LastAbove(rs: seq<Range>, t: Range)
    requires Sorted(rs) && t.low <= t.high
    ensures Sorted(rs + [t]) <==> forall r | r in rs :: r.high < t.low
  {
    var all := rs + [t];
    if Sorted(all) {
      forall r | r in rs
        ensures r.high < t.low
      {
        var i :| 0 <= i < |rs| && rs[i] == r;
        assert all[i] == r && all[|rs|] == t;
      }
    }
  }

  lemma HullAbove(h: Range, t: Range, run: seq<Range>, b: int)
    requires IsHull(h, t, run) && b < t.low && forall r | r in run :: b < r.low
    ensures b < h.low
  {
  }

  lemma RunAbove(rs: seq<Range>, e: nat, n: nat, i: nat)
    requires Sorted(rs) && i < e && e + n <= |rs|
    ensures forall r | r in rs[e..e + n] :: rs[i].high < r.low
  {
    forall r | r in rs[e..e + n]
      ensures rs[i].high < r.low
    {
      var k :| 0 <= k < n && rs[e..e + n][k] == r;
      assert rs[e + k] == r;
    }
  }

  // The hull of a run in a sorted list is above what comes before it, and below what comes after it.
  lemma HullApart(rs: seq<Range>, t: Range, e: nat, n: nat, h: Range)
    requires Sorted(rs) && t.low <= t.high && 0 < n && e + n <= |rs| && IsHull(h, t, rs[e..e + n])
    requires Near(t, rs[e]) && (forall i | 0 <= i < e :: !Near(t, rs[i]))
    requires e + n < |rs| ==> !Near(h, rs[e + n])
    ensures h.low <= h.high
    ensures (forall i | 0 <= i < e :: rs[i].high < h.low) && forall k | e + n <= k < |rs| :: h.high < rs[k].low
  {
    assert h.low <= t.low <= t.high <= h.high;
    forall i | 0 <= i < e
      ensures rs[i].high < h.low
    {
      BelowFirst(rs, t, i, e);
      RunAbove(rs, e, n, i);
      HullAbove(h, t, rs[e..e + n], rs[i].high);
    }
    if e + n < |rs| {
      assert rs[e..e + n][0] == rs[e] && rs[e..e + n][0] in rs[e..e + n];
      HullBelow(rs, e, e + n, h);
    }
  }

  lemma BelowFirst(rs: seq<Range>, t: Range, i: nat, e: nat)
    requires Sorted(rs) && t.low <= t.high && i < e < |rs| && !Near(t, rs[i]) && Near(t, rs[e])
    ensures rs[i].high < t.low
  {
    assert rs[i].high < rs[e].low && rs[i] in rs;
  }

  lemma HullBelow(rs: seq<Range>, e: nat, m: nat, h: Range)
    requires Sorted(rs) && e < m < |rs| && h.low <= rs[e].low && !Near(h, rs[m])
    ensures forall k | m <= k < |rs| :: h.high < rs[k].low
  {
    assert rs[e].high < rs[m].low && rs[e] in rs && rs[m] in rs;
  }

  lemma SortedAround(rs: seq<Range>, e: nat, n: nat, h: Range)
    requires Sorted(rs) && e + n <= |rs| && h.low <= h.high
    requires (forall i | 0 <= i < e :: rs[i].high < h.low) && forall k | e + n <= k < |rs| :: h.high < rs[k].low
    ensures Sorted(rs[..e] + [h] + rs[e + n..])
  {
    var all := rs[..e] + [h] + rs[e + n..];
    forall r | r in all
      ensures r.low <= r.high
    {
      assert r in rs || r == h;
    }
    forall i, j | 0 <= i < j < |all|
      ensures all[i].high < all[j].low
    {
      var a, b := if i > e then i + n - 1 else i, if j > e then j + n - 1 else j;
      assert i != e ==> all[i] == rs[a];
      assert j != e ==> all[j] == rs[b];
    }
  }

  // The list that add leaves has the members of both.
  lemma LengthAfter(rs: seq<Range>, t: Range)
    requires Sorted(AddOne(rs, t))
    ensures TotalLength(AddOne(rs, t)) == |Members(rs) + Span(t)|
  {
    var all := AddOne(rs, t);
    LengthCounts(all);
    hide AddOne, Sorted, Members, Span, TotalLength, In;
    forall x
      ensures x in Members(all) <==> x in Members(rs) + Span(t)
    {
      AddMeans(rs, t, x);
      MembersAre(rs, x);
      MembersAre(all, x);
    }
    assert Members(all) == Members(rs) + Span(t);
  }

  /**
   add of a range that is not reversed leaves a sorted list sorted and apart if and only if some range
   is near to it or all are below it, and then length is the number of the members of both.
   */
  lemma AddKeepsSorted(rs: seq<Range>, t: Range)
    requires Sorted(rs) && t.low <= t.high
    ensures Sorted(AddOne(rs, t)) <==> (exists r :: r in rs && Near(t, r)) || forall r | r in rs :: r.high < t.low
    ensures Sorted(AddOne(rs, t)) ==> TotalLength(AddOne(rs, t)) == |Members(rs) + Span(t)|
  {
    hide Sorted, AddOne, IsHull, Near, TotalLength;
    var e, hs := AddExactly(rs, t);
    if e == |rs| {
      HullAlone(t, rs[e..][..0]);
      assert rs[..e] + [hs[0]] + rs[e..] == rs + [t];
      LastAbove(rs, t);
    } else {
      var n := |hs| - 1;
      HullAlone(t, rs[e..][..0]);
      assert hs[0] == t && n > 0 && rs[e..][0] == rs[e];
      assert IsHull(hs[n], t, rs[e..e + n]) by { assert rs[e..][..n] == rs[e..e + n]; }
      if e + n < |rs| { assert rs[e..][n] == rs[e + n]; }
      HullApart(rs, t, e, n, hs[n]);
      SortedAround(rs, e, n, hs[n]);
      assert rs[e] in rs;
    }
    if Sorted(AddOne(rs, t)) { LengthAfter(rs, t); }
  }

  lemma {:induction false} SharedSorted(rs: seq<Range>, t: Range)
    requires Sorted(rs) && t.low <= t.high
    ensures Sorted(Shared(rs, t))
    ensures forall r | r in Shared(rs, t) :: t.low <= r.low && r.high <= t.high && |rs| > 0 && rs[0].low <= r.low
    decreases |rs|
  {
    if |rs| > 0 && t.Overlaps(rs[0]) {
      SortedRest(rs);
      SharedSorted(rs[1..], t);
      var x := Range(Max(rs[0].low, t.low), Min(rs[0].high, t.high));
      if |rs| > 1 { assert rs[1..][0] in rs[1..]; }
      SortedCons(x, Shared(rs[1..], t));
    }
  }

  lemma {:induction false} IntersectOneSorted(rs: seq<Range>, t: Range)
    requires Sorted(rs) && t.low <= t.high
    ensures Sorted(IntersectOne(rs, t))
    ensures forall r | r in IntersectOne(rs, t) :: t.low <= r.low && r.high <= t.high
    decreases |rs|
  {
    if |rs| > 0 {
      SortedRest(rs);
      if t.Overlaps(rs[0]) { SharedSorted(rs, t); } else { IntersectOneSorted(rs[1..], t); }
    }
  }

  /** intersect of two sorted lists is sorted and apart. */
  lemma {:induction false} IntersectAllSorted(rs: seq<Range>, ts: seq<Range>)
    requires Sorted(rs) && Sorted(ts)
    ensures Sorted(IntersectAll(rs, ts))
    ensures forall r | r in IntersectAll(rs, ts) :: |ts| > 0 && r.high <= ts[|ts| - 1].high
    decreases |ts|
  {
    if |ts| > 0 {
      var p, t := ts[..|ts| - 1], ts[|ts| - 1];
      assert t in ts && forall i | 0 <= i < |p| :: p[i] == ts[i];
      assert forall r | r in p :: r in ts;
      IntersectAllSorted(rs, p);
      IntersectOneSorted(rs, t);
      SortedBoth(IntersectAll(rs, p), IntersectOne(rs, t));
    }
  }

  lemma SortedBoth(a: seq<Range>, b: seq<Range>)
    requires Sorted(a) && Sorted(b) && forall r, s | r in a && s in b :: r.high < s.low
    ensures Sorted(a + b)
  {
    var all := a + b;
    forall i, j | 0 <= i < j < |all|
      ensures all[i].high < all[j].low
    {
      assert i < |a| ==> all[i] == a[i] && a[i] in a;
      assert i >= |a| ==> all[i] == b[i - |a|];
      assert j >= |a| ==> all[j] == b[j - |a|] && b[j - |a|] in b;
    }
  }

  // ---------------------------------------------------------------------
  // The class
  // ---------------------------------------------------------------------

  class DiscontinuousRange {
    var ranges: seq<Range>
    var length: int

    ghost predicate Valid()
      reads this
    {
      length == TotalLength(ranges)
    }

    constructor ()
      ensures Valid() && ranges == []
    {
      ranges, length := [], 0;
    }

    // _update_length
    method UpdateLength()
      modifies this`length
      ensures Valid()
    {
      length := 0;
      var n := 0;
      while n < |ranges|
        invariant n <= |ranges| && length == TotalLength(ranges[..n])
      {
        assert ranges[..n + 1][..n] == ranges[..n];
        length := length + ranges[n].Length();
        n := n + 1;
      }
      assert ranges[..n] == ranges;
    }

    // add, for one range
    method Add(t: Range)
      modifies this
      ensures Valid() && ranges == AddOne(old(ranges), t)
    {
      var e := 0;
      assert ranges[0..] == ranges && ranges[..0] == [];
      while e < |ranges| && !t.Touches(ranges[e])
        invariant e <= |ranges| && AddOne(ranges, t) == ranges[..e] + AddOne(ranges[e..], t)
      {
        assert ranges[e..][1..] == ranges[e + 1..];
        assert ranges[..e] + ([ranges[e]] + AddOne(ranges[e + 1..], t)) == ranges[..e + 1] + AddOne(ranges[e + 1..], t);
        e := e + 1;
      }
      var r, s := ranges[..e], t;
      MergeNothing(ranges[e..], t);
      while e < |ranges| && s.Touches(ranges[e])
        invariant e <= |ranges| && AddOne(ranges, t) == r + Merge(ranges[e..], s)
      {
        assert ranges[e..][1..] == ranges[e + 1..];
        s := s.Add(ranges[e]);
        e := e + 1;
      }
      assert r + ([s] + ranges[e..]) == r + [s] + ranges[e..];
      ranges := r + [s] + ranges[e..];
      UpdateLength();
    }

    // add, for another set
    method AddSet(other: DiscontinuousRange)
      modifies this
      ensures Valid() && ranges == AddAll(old(ranges), old(other.ranges))
    {
      var ts := other.ranges;
      var n := 0;
      UpdateLength();
      while n < |ts|
        invariant n <= |ts| && Valid() && ranges == AddAll(old(ranges), ts[..n])
      {
        assert ts[..n + 1][..n] == ts[..n];
        Add(ts[n]);
        n := n + 1;
      }
      assert ts[..n] == ts;
    }

    // subtract, for one range
    method Subtract(t: Range)
      modifies this
      ensures Valid() && ranges == SubtractOne(old(ranges), t)
    {
      hide SubtractOne, Cut;
      var e := 0;
      assert ranges[0..] == ranges && ranges[..0] == [];
      while e < |ranges| && !t.Overlaps(ranges[e])
        invariant ranges == old(ranges) && e <= |ranges|
          && SubtractOne(ranges, t) == ranges[..e] + SubtractOne(ranges[e..], t)
      {
        SubtractSkips(ranges, e, t);
        e := e + 1;
      }
      var r := ranges[..e];
      CutBegins(ranges[e..], t);
      while e < |ranges| && t.Overlaps(ranges[e])
        invariant ranges == old(ranges) && e <= |ranges| && SubtractOne(ranges, t) == r + Cut(ranges[e..], t)
      {
        CutStep(ranges, e, t, r);
        r := r + ranges[e].Subtract(t);
        e := e + 1;
      }
      CutEnds(ranges[e..], t);
      ranges := r + ranges[e..];
      UpdateLength();
    }

    // subtract, for another set
    method SubtractSet(other: DiscontinuousRange)
      modifies this
      ensures Valid() && ranges == SubtractAll(old(ranges), old(other.ranges))
    {
      var ts := other.ranges;
      var n := 0;
      UpdateLength();
      while n < |ts|
        invariant n <= |ts| && Valid() && ranges == SubtractAll(old(ranges), ts[..n])
      {
        assert ts[..n + 1][..n] == ts[..n];
        Subtract(ts[n]);
        n := n + 1;
      }
      assert ts[..n] == ts;
    }

    // The inner function of intersect.
    method Common(t: Range) returns (i: seq<Range>)
      ensures i == IntersectOne(ranges, t)
    {
      i := [];
      var r := 0;
      assert ranges[0..] == ranges;
      while r < |ranges| && !t.Overlaps(ranges[r])
        invariant r <= |ranges| && IntersectOne(ranges, t) == IntersectOne(ranges[r..], t)
      {
        assert ranges[r..][1..] == ranges[r + 1..];
        r := r + 1;
      }
      while r < |ranges| && t.Overlaps(ranges[r])
        invariant r <= |ranges| && IntersectOne(ranges, t) == i + Shared(ranges[r..], t)
      {
        assert ranges[r..][1..] == ranges[r + 1..];
        var c := Range(Max(ranges[r].low, t.low), Min(ranges[r].high, t.high));
        i := i + [c];
        r := r + 1;
      }
    }

    // intersect, for another set
    method IntersectSet(other: DiscontinuousRange)
      modifies this
      ensures Valid() && ranges == IntersectAll(old(ranges), old(other.ranges))
    {
      var ts, i := other.ranges, [];
      var n := 0;
      while n < |ts|
        invariant n <= |ts| && ranges == old(ranges) && i == IntersectAll(ranges, ts[..n])
      {
        assert ts[..n + 1][..n] == ts[..n];
        var c := Common(ts[n]);
        i := i + c;
        n := n + 1;
      }
      assert ts[..n] == ts;
      ranges := i;
      UpdateLength();
    }

    // index
    method At(i: int) returns (x: Option<int>)
      ensures x == Index(ranges, i)
    {
      var t, e := i, 0;
      assert ranges[0..] == ranges;
      while e < |ranges| && ranges[e].Length() <= t
        invariant e <= |ranges| && Index(ranges[e..], t) == Index(ranges, i)
      {
        assert ranges[e..][1..] == ranges[e + 1..];
        t := t - ranges[e].Length();
        e := e + 1;
      }
      x := if e < |ranges| then Some(ranges[e].low + t) else None;
    }

    // clone
    method Clone() returns (c: DiscontinuousRange)
      ensures fresh(c) && c.Valid() && c.ranges == AddAll([], ranges)
    {
      c := new DiscontinuousRange();
      c.AddSet(this);
    }
  }

  // The steps of the two loops of subtract.
  lemma SubtractSkips(rs: seq<Range>, e: nat, t: Range)
    requires e < |rs| && !t.Overlaps(rs[e])
    ensures rs[..e] + SubtractOne(rs[e..], t) == rs[..e + 1] + SubtractOne(rs[e + 1..], t)
  {
    hide SubtractOne;
    SubtractPast(rs[e..], t);
    assert rs[e..][1..] == rs[e + 1..] && rs[e..][0] == rs[e];
    Associate(rs[..e], [rs[e]], SubtractOne(rs[e + 1..], t));
    assert rs[..e] + [rs[e]] == rs[..e + 1];
  }

  lemma SubtractPast(rs: seq<Range>, t: Range)
    requires |rs| > 0 && !t.Overlaps(rs[0])
    ensures SubtractOne(rs, t) == [rs[0]] + SubtractOne(rs[1..], t)
  {
  }

  lemma CutBegins(rs: seq<Range>, t: Range)
    requires |rs| == 0 || t.Overlaps(rs[0])
    ensures SubtractOne(rs, t) == Cut(rs, t)
  {
  }

  lemma CutStep(rs: seq<Range>, e: nat, t: Range, r: seq<Range>)
    requires e < |rs| && t.Overlaps(rs[e])
    ensures r + Cut(rs[e..], t) == r + rs[e].Subtract(t) + Cut(rs[e + 1..], t)
  {
    hide Cut, Range.Subtract;
    CutPast(rs[e..], t);
    assert rs[e..][1..] == rs[e + 1..] && rs[e..][0] == rs[e];
    Associate(r, rs[e].Subtract(t), Cut(rs[e + 1..], t));
  }

  lemma CutPast(rs: seq<Range>, t: Range)
    requires |rs| > 0 && t.Overlaps(rs[0])
    ensures Cut(rs, t) == rs[0].Subtract(t) + Cut(rs[1..], t)
  {
  }

  lemma Associate(a: seq<Range>, b: seq<Range>, c: seq<Range>)
    ensures a + (b + c) == a + b + c
  {
  }

  lemma CutEnds(rs: seq<Range>, t: Range)
    requires |rs| == 0 || !t.Overlaps(rs[0])
    ensures Cut(rs, t) == rs
  {
  }

  lemma MergeNothing(rs: seq<Range>, t: Range)
    requires |rs| == 0 || t.Touches(rs[0])
    ensures AddOne(rs, t) == Merge(rs, t)
  {
    assert [t] + [] == [t];
  }
}
