/**
 The random strings of module 14419 (randexp), from a tree of the tokens of module 30504.
 Anchors and lookaround generate nothing; ignoreCase and back-references are not modelled.
 */
module RandExp {
  import opened Wrappers
  import RS = RangeSet

  // What a set holds; a nested set is a class such as \w or \D.
  datatype SetToken = One(value: Unit) | Span(from: Unit, upto: Unit) | Sub(members: seq<SetToken>, negated: bool)

  // ROOT and GROUP tokens have a stack, or options for one; a repetition without an end has max None.
  datatype Token =
    | Group(stack: seq<Token>, lookaround: bool)
    | Choice(options: seq<Branch>, lookaround: bool)
    | Position
    | Set(members: seq<SetToken>, negated: bool)
    | Repetition(min: nat, max: Option<nat>, value: Token)
    | Char(code: Unit)

  datatype Branch = Branch(stack: seq<Token>)

  // ---------------------------------------------------------------------
  // Sets
  // ---------------------------------------------------------------------

  // Whether a character belongs to what a token of a set stands for.
  predicate Belongs(t: SetToken, x: int) {
    match t
    case One(v) => x == v
    case Span(a, b) => a <= x <= b
    case Sub(ts, negated) => negated != BelongsAny(ts, x)
  }

  predicate BelongsAny(ts: seq<SetToken>, x: int) {
    |ts| > 0 && (Belongs(ts[0], x) || BelongsAny(ts[1..], x))
  }

  // _expand, on lists of ranges
  function ExpandToken(t: SetToken, default: seq<RS.Range>): seq<RS.Range> {
    match t
    case One(v) => RS.AddOne([], RS.Range(v, v))
    case Span(a, b) => RS.AddOne([], RS.Range(a, b))
    case Sub(ts, negated) =>
      var e := ExpandAll(ts, default);
      var copy := RS.AddAll([], default);
      if negated then RS.SubtractAll(copy, e) else RS.IntersectAll(copy, e)
  }

  // The union of the expansions.
  function ExpandAll(ts: seq<SetToken>, default: seq<RS.Range>): seq<RS.Range> {
    if |ts| == 0 then [] else RS.AddAll(ExpandAll(ts[..|ts| - 1], default), ExpandToken(ts[|ts| - 1], default))
  }

  // Every negated set in it takes away all that it should, which ranges in order see to.
  ghost predicate Clean(t: SetToken, default: seq<RS.Range>)
    decreases t, 0
  {
    t.Sub? ==>
      && CleanAll(t.members, default)
      && (t.negated ==> RS.AllTaken(RS.AddAll([], default), ExpandAll(t.members, default)))
  }

  ghost predicate CleanAll(ts: seq<SetToken>, default: seq<RS.Range>)
    decreases ts, 0
  {
    forall i | 0 <= i < |ts| :: Clean(ts[i], default)
  }

  // No range in it is backwards.
  predicate Forward(t: SetToken) {
    match t
    case One(_) => true
    case Span(a, b) => a <= b
    case Sub(ts, _) => forall i | 0 <= i < |ts| :: Forward(ts[i])
  }

  /**
   A character or range expands to itself, a set to the characters of the default range that belong
   to it, nested and negated ones included.
   */
  lemma {:induction false} ExpandMeans(t: SetToken, default: seq<RS.Range>, x: int)
    requires Clean(t, default) && RS.Sorted(default)
    ensures RS.In(ExpandToken(t, default), x) <==> Belongs(t, x) && (t.Sub? ==> RS.In(default, x))
    decreases t, 1
  {
    match t
    case One(v) => RS.AddMeans([], RS.Range(v, v), x);
    case Span(a, b) => RS.AddMeans([], RS.Range(a, b), x);
    case Sub(ts, negated) =>
      ExpandAllMeans(ts, default, x);
      RS.CopySorted(default);
      RS.AddAllMeans([], default, x);
      var e, copy := ExpandAll(ts, default), RS.AddAll([], default);
      if negated {
        RS.SubtractAllDifference(copy, e);
      } else {
        RS.IntersectAllMeans(copy, e, x);
      }
  }

  // The union has what belongs to a member, at least within the default range.
  lemma {:induction false} ExpandAllMeans(ts: seq<SetToken>, default: seq<RS.Range>, x: int)
    requires CleanAll(ts, default) && RS.Sorted(default)
    ensures RS.In(ExpandAll(ts, default), x) ==> BelongsAny(ts, x)
    ensures BelongsAny(ts, x) && RS.In(default, x) ==> RS.In(ExpandAll(ts, default), x)
    decreases ts, |ts|
  {
    if |ts| > 0 {
      var p, m := ts[..|ts| - 1], ts[|ts| - 1];
      assert ts == p + [m];
      ExpandAllMeans(p, default, x);
      ExpandMeans(m, default, x);
      RS.AddAllMeans(ExpandAll(p, default), ExpandToken(m, default), x);
      BelongsMore(p, m, x);
    }
  }

  /** For a set over clean members that is exact if and only if the set is clean itself. */
  lemma ExpandExact(t: SetToken, default: seq<RS.Range>)
    requires t.Sub? && CleanAll(t.members, default) && RS.Sorted(default)
    ensures (forall x :: RS.In(ExpandToken(t, default), x) <==> Belongs(t, x) && RS.In(default, x)) <==>
      Clean(t, default)
  {
    if Clean(t, default) {
      forall x
        ensures RS.In(ExpandToken(t, default), x) <==> Belongs(t, x) && RS.In(default, x)
      {
        ExpandMeans(t, default, x);
      }
    } else {
      var x := LetThrough(t, default);
    }
  }

  // What a set that is not clean lets through.
  lemma LetThrough(t: SetToken, default: seq<RS.Range>) returns (x: int)
    requires t.Sub? && CleanAll(t.members, default) && RS.Sorted(default) && !Clean(t, default)
    ensures RS.In(ExpandToken(t, default), x) && RS.In(default, x) && !Belongs(t, x)
  {
    var copy, e := RS.AddAll([], default), ExpandAll(t.members, default);
    RS.CopySorted(default);
    RS.SubtractAllDifference(copy, e);
    x :| !(RS.In(RS.SubtractAll(copy, e), x) <==> RS.In(copy, x) && !RS.In(e, x));
    RS.AddAllMeans([], default, x);
    RS.SubtractAllBounds(copy, e, x);
    ExpandAllMeans(t.members, default, x);
  }

  /** A set without backward ranges, at any depth, is clean, and expands to forward ranges. */
  lemma {:induction false} ForwardClean(t: SetToken, default: seq<RS.Range>)
    requires Forward(t) && RS.Sorted(default)
    ensures Clean(t, default) && RS.Proper(ExpandToken(t, default))
    decreases t, 1
  {
    match t
    case One(_) =>
    case Span(_, _) =>
    case Sub(ts, negated) =>
      ForwardAllClean(ts, default);
      var e, copy := ExpandAll(ts, default), RS.AddAll([], default);
      RS.CopySorted(default);
      if negated {
        forall x
          ensures RS.In(RS.SubtractAll(copy, e), x) <==> RS.In(copy, x) && !RS.In(e, x)
        {
          RS.SubtractAllMeans(copy, e, x);
        }
        RS.SubtractAllDifference(copy, e);
        RS.SubtractAllBounds(copy, e, 0);
      } else {
        IntersectProper(copy, e);
      }
  }

  lemma {:induction false} ForwardAllClean(ts: seq<SetToken>, default: seq<RS.Range>)
    requires (forall i | 0 <= i < |ts| :: Forward(ts[i])) && RS.Sorted(default)
    ensures CleanAll(ts, default) && RS.Proper(ExpandAll(ts, default))
    decreases ts, |ts|
  {
    if |ts| > 0 {
      var p, m := ts[..|ts| - 1], ts[|ts| - 1];
      ForwardAllClean(p, default);
      ForwardClean(m, default);
      assert forall i | 0 <= i < |p| :: p[i] == ts[i];
      AddAllProper(ExpandAll(p, default), ExpandToken(m, default));
    }
  }

  /** What the parser puts in a set is clean: characters, ranges either way round, and classes such as \W. */
  lemma MembersClean(ts: seq<SetToken>, default: seq<RS.Range>)
    requires (forall i | 0 <= i < |ts| :: ts[i].Sub? ==> Forward(ts[i])) && RS.Sorted(default)
    ensures CleanAll(ts, default)
  {
    forall i | 0 <= i < |ts|
      ensures Clean(ts[i], default)
    {
      if ts[i].Sub? { ForwardClean(ts[i], default); }
    }
  }

  lemma {:induction false} BelongsMore(ts: seq<SetToken>, m: SetToken, x: int)
    ensures BelongsAny(ts + [m], x) <==> BelongsAny(ts, x) || Belongs(m, x)
    decreases |ts|
  {
    var all := ts + [m];
    if |ts| == 0 {
      assert all == [m] && all[1..] == [];
    } else {
      BelongsMore(ts[1..], m, x);
      assert all[1..] == ts[1..] + [m] && all[0] == ts[0];
    }
  }

  lemma {:induction false} MergeProper(rs: seq<RS.Range>, t: RS.Range)
    requires RS.Proper(rs) && t.low <= t.high
    ensures RS.Proper(RS.Merge(rs, t))
    decreases |rs|
  {
    if |rs| > 0 && t.Touches(rs[0]) {
      assert rs[0] in rs;
      MergeProper(rs[1..], t.Add(rs[0]));
    }
  }

  lemma {:induction false} AddProper(rs: seq<RS.Range>, t: RS.Range)
    requires RS.Proper(rs) && t.low <= t.high
    ensures RS.Proper(RS.AddOne(rs, t))
    decreases |rs|
  {
    if |rs| > 0 {
      assert rs[0] in rs;
      if t.Touches(rs[0]) { MergeProper(rs, t); } else { AddProper(rs[1..], t); }
    }
  }

  lemma {:induction false} AddAllProper(rs: seq<RS.Range>, ts: seq<RS.Range>)
    requires RS.Proper(rs) && RS.Proper(ts)
    ensures RS.Proper(RS.AddAll(rs, ts))
    decreases |ts|
  {
    if |ts| > 0 {
      assert ts[|ts| - 1] in ts;
      AddAllProper(rs, ts[..|ts| - 1]);
      AddProper(RS.AddAll(rs, ts[..|ts| - 1]), ts[|ts| - 1]);
    }
  }

  lemma {:induction false} SharedProper(rs: seq<RS.Range>, t: RS.Range)
    requires RS.Proper(rs) && t.low <= t.high
    ensures RS.Proper(RS.Shared(rs, t)) && RS.Proper(RS.IntersectOne(rs, t))
    decreases |rs|
  {
    if |rs| > 0 {
      assert rs[0] in rs;
      SharedProper(rs[1..], t);
    }
  }

  lemma {:induction false} IntersectProper(rs: seq<RS.Range>, ts: seq<RS.Range>)
    requires RS.Proper(rs) && RS.Proper(ts)
    ensures RS.Proper(RS.IntersectAll(rs, ts))
    decreases |ts|
  {
    if |ts| > 0 {
      assert ts[|ts| - 1] in ts;
      IntersectProper(rs, ts[..|ts| - 1]);
      SharedProper(rs, ts[|ts| - 1]);
    }
  }

  // ---------------------------------------------------------------------
  // The language of a tree
  // ---------------------------------------------------------------------

  ghost predicate Matches(t: Token, s: seq<Unit>)
    decreases t, 0, 0
  {
    match t
    case Group(stack, _) => MatchesAll(stack, s)
    case Choice(options, _) => exists i :: 0 <= i < |options| && MatchesAll(options[i].stack, s)
    case Position => s == []
    case Set(ts, negated) => |s| == 1 && negated != BelongsAny(ts, s[0])
    case Repetition(min, max, v) => exists k: nat :: min <= k && (max.Some? ==> k <= max.value) && MatchesTimes(v, k, s)
    case Char(c) => s == [c]
  }

  ghost predicate MatchesAll(ts: seq<Token>, s: seq<Unit>)
    decreases ts, 0, 0
  {
    if |ts| == 0 then s == []
    else exists i :: 0 <= i <= |s| && MatchesAll(ts[..|ts| - 1], s[..i]) && Matches(ts[|ts| - 1], s[i..])
  }

  ghost predicate MatchesTimes(t: Token, k: nat, s: seq<Unit>)
    decreases t, 1, k
  {
    if k == 0 then s == []
    else exists i :: 0 <= i <= |s| && MatchesTimes(t, k - 1, s[..i]) && Matches(t, s[i..])
  }

  // A choice has something to choose from: the parser starts one with the branch before the bar.
  ghost predicate Parsed(t: Token) {
    match t
    case Group(stack, _) => ParsedAll(stack)
    case Choice(options, _) => |options| > 0 && forall i | 0 <= i < |options| :: ParsedAll(options[i].stack)
    case Position => true
    case Set(_, _) => true
    case Repetition(_, _, v) => Parsed(v)
    case Char(_) => true
  }

  ghost predicate ParsedAll(ts: seq<Token>) {
    forall i | 0 <= i < |ts| :: Parsed(ts[i])
  }

  // No repetition has its bounds the wrong way round, as the parser lets through.
  ghost predicate Ordered(t: Token) {
    match t
    case Group(stack, _) => OrderedAll(stack)
    case Choice(options, _) => forall i | 0 <= i < |options| :: OrderedAll(options[i].stack)
    case Position => true
    case Set(_, _) => true
    case Repetition(min, max, v) => (max.Some? ==> min <= max.value) && Ordered(v)
    case Char(_) => true
  }

  ghost predicate OrderedAll(ts: seq<Token>) {
    forall i | 0 <= i < |ts| :: Ordered(ts[i])
  }

  // Every set gives what it should.
  ghost predicate SetsSafe(t: Token, default: seq<RS.Range>) {
    match t
    case Group(stack, _) => SetsSafeAll(stack, default)
    case Choice(options, _) => forall i | 0 <= i < |options| :: SetsSafeAll(options[i].stack, default)
    case Position => true
    case Set(ts, negated) => CleanAll(ts, default) && SafeSet(ts, negated, default)
    case Repetition(_, _, v) => SetsSafe(v, default)
    case Char(_) => true
  }

  ghost predicate SetsSafeAll(ts: seq<Token>, default: seq<RS.Range>) {
    forall i | 0 <= i < |ts| :: SetsSafe(ts[i], default)
  }

  // No anchor, no lookaround, and every set has a character in the default range.
  ghost predicate Plain(t: Token, default: seq<RS.Range>) {
    match t
    case Group(stack, lookaround) => !lookaround && PlainAll(stack, default)
    case Choice(options, lookaround) =>
      !lookaround && forall i | 0 <= i < |options| :: PlainAll(options[i].stack, default)
    case Position => false
    case Set(ts, negated) => exists x :: RS.In(default, x) && negated != BelongsAny(ts, x)
    case Repetition(_, _, v) => Plain(v, default)
    case Char(_) => true
  }

  ghost predicate PlainAll(ts: seq<Token>, default: seq<RS.Range>) {
    forall i | 0 <= i < |ts| :: Plain(ts[i], default)
  }

  // The longest string, an open repetition taken min + cap times at most.
  ghost function Longest(t: Token, cap: nat): nat
    decreases t, 0
  {
    match t
    case Group(stack, lookaround) => if lookaround then 0 else LongestAll(stack, cap)
    case Choice(options, lookaround) => if lookaround then 0 else LongestOf(options, cap)
    case Position => 0
    case Set(_, _) => 1
    case Repetition(min, max, v) => (if max.Some? then max.value else min + cap) * Longest(v, cap)
    case Char(_) => 1
  }

  ghost function LongestAll(ts: seq<Token>, cap: nat): nat
    decreases ts, 0
  {
    if |ts| == 0 then 0 else LongestAll(ts[..|ts| - 1], cap) + Longest(ts[|ts| - 1], cap)
  }

  ghost function LongestOf(options: seq<Branch>, cap: nat): nat
    decreases options, 0
  {
    if |options| == 0 then 0
    else
      var a, b := LongestOf(options[..|options| - 1], cap), LongestAll(options[|options| - 1].stack, cap);
      if a < b then b else a
  }

  lemma {:induction false} LongestCovers(options: seq<Branch>, cap: nat, i: nat)
    requires i < |options|
    ensures LongestAll(options[i].stack, cap) <= LongestOf(options, cap)
    decreases |options|
  {
    if i < |options| - 1 {
      LongestCovers(options[..|options| - 1], cap, i);
    }
  }

  // ---------------------------------------------------------------------
  // What the generator may give
  // ---------------------------------------------------------------------

  function Times(x: real, n: real): real {
    x * n
  }

  // randInt on the random number x
  function IntOf(x: real, a: int, b: int): int {
    a + Times(x, (1 + b - a) as real).Floor
  }

  // The integers from a to b, or when they are the wrong way round those above b up to a.
  predicate Drawn(a: int, b: int, r: int) {
    if a <= b then a <= r <= b else b < r <= a
  }

  /** Just these are what randInt gives for the numbers of Math.random. */
  lemma DrawnExactly(a: int, b: int, r: int)
    ensures Drawn(a, b, r) <==> exists x: real :: 0.0 <= x < 1.0 && IntOf(x, a, b) == r
  {
    hide Times;
    forall x: real | 0.0 <= x < 1.0
      ensures Drawn(a, b, IntOf(x, a, b))
    {
      Scaled(x, 1 + b - a);
    }
    if Drawn(a, b, r) {
      var x := Unscaled(r - a, 1 + b - a);
      assert IntOf(x, a, b) == r;
    }
  }

  lemma Scaled(x: real, n: int)
    requires 0.0 <= x < 1.0
    ensures var d := Times(x, n as real).Floor; if n > 0 then 0 <= d < n else n <= d <= 0
  {
    hide Times;
    Between(x, n as real);
    Floored(Times(x, n as real), n);
  }

  lemma Floored(y: real, n: int)
    requires if n > 0 then 0.0 <= y < n as real else n as real <= y <= 0.0
    ensures if n > 0 then 0 <= y.Floor < n else n <= y.Floor <= 0
  {
  }

  lemma Between(x: real, n: real)
    requires 0.0 <= x < 1.0
    ensures if n > 0.0 then 0.0 <= Times(x, n) < n else n <= Times(x, n) <= 0.0
  {
    hide Times;
    Parts(x, n);
    if n > 0.0 {
      NotNegative(x, n);
      Positive(1.0 - x, n);
    } else {
      NotNegative(x, -n);
      NotNegative(1.0 - x, -n);
    }
  }

  lemma Parts(x: real, n: real)
    ensures Times(1.0 - x, n) == n - Times(x, n)
    ensures Times(x, -n) == -Times(x, n) && Times(1.0 - x, -n) == Times(x, n) - n
  {
  }

  lemma NotNegative(x: real, n: real)
    requires 0.0 <= x && 0.0 <= n
    ensures 0.0 <= Times(x, n)
  {
  }

  lemma Positive(x: real, n: real)
    requires 0.0 < x && 0.0 < n
    ensures 0.0 < Times(x, n)
  {
  }

  lemma Unscaled(d: int, n: int) returns (x: real)
    requires if n > 0 then 0 <= d < n else n <= d <= 0
    ensures 0.0 <= x < 1.0 && Times(x, n as real).Floor == d
  {
    hide Times;
    if d == 0 {
      x := 0.0;
      ZeroTimes(n as real);
    } else {
      var y := if n > 0 then d as real else d as real + 0.5;
      x := Quotient(y, n as real);
    }
  }

  lemma ZeroTimes(n: real)
    ensures Times(0.0, n) == 0.0
  {
  }

  lemma Quotient(y: real, n: real) returns (q: real)
    requires 0.0 < y < n || n < y < 0.0
    ensures 0.0 <= q < 1.0 && Times(q, n) == y
  {
    q := y / n;
    Divided(y, n);
    hide Times;
    Negated(q, n);
    Negated(q, -n);
    Less(q, n);
    Less(q, -n);
    var m := if n > 0.0 then n else -n;
    if q < 0.0 { Positive(-q, m); }
    if q >= 1.0 { NotNegative(q - 1.0, m); }
  }

  lemma Divided(y: real, n: real)
    requires n != 0.0
    ensures Times(y / n, n) == y
  {
  }

  lemma Negated(x: real, n: real)
    ensures Times(-x, n) == -Times(x, n) == Times(x, -n)
  {
  }

  lemma Less(x: real, n: real)
    ensures Times(x - 1.0, n) == Times(x, n) - n
  {
  }

  // String.fromCharCode, if index did not raise
  function Letter(x: Option<int>): Option<seq<Unit>> {
    if x == None then None else Some([x.value % 0x1_0000])
  }

  function Joined(p: seq<Unit>, o: Option<seq<Unit>>): Option<seq<Unit>> {
    if o == None then None else Some(p + o.value)
  }

  // What a set with this expansion may give: nothing if its length is 0, else what index finds for
  // a random number; None if that raises.
  ghost predicate SetGives(rs: seq<RS.Range>, o: Option<seq<Unit>>) {
    if RS.TotalLength(rs) == 0 then o == Some([])
    else exists i :: Drawn(0, RS.TotalLength(rs) - 1, i) && o == Letter(RS.Index(rs, i))
  }

  // What _gen may give, None standing for an exception.
  ghost predicate Gives(t: Token, default: seq<RS.Range>, cap: nat, o: Option<seq<Unit>>)
    decreases t, 0, 0
  {
    match t
    case Group(stack, lookaround) => if lookaround then o == Some([]) else GivesAll(stack, default, cap, o)
    case Choice(options, lookaround) =>
      if lookaround then o == Some([])
      else exists i :: 0 <= i < |options| && GivesAll(options[i].stack, default, cap, o)
    case Position => o == Some([])
    case Set(ts, negated) => SetGives(ExpandToken(Sub(ts, negated), default), o)
    case Repetition(min, max, v) =>
      exists k: nat :: Drawn(min, if max.Some? then max.value else min + cap, k) && GivesTimes(v, default, cap, k, o)
    case Char(c) => o == Some([c])
  }

  ghost predicate GivesAll(ts: seq<Token>, default: seq<RS.Range>, cap: nat, o: Option<seq<Unit>>)
    decreases ts, 0, 0
  {
    if |ts| == 0 then o == Some([])
    else
      || (o == None && GivesAll(ts[..|ts| - 1], default, cap, None))
      || exists p, q ::
           GivesAll(ts[..|ts| - 1], default, cap, Some(p)) && Gives(ts[|ts| - 1], default, cap, q) && o == Joined(p, q)
  }

  ghost predicate GivesTimes(t: Token, default: seq<RS.Range>, cap: nat, k: nat, o: Option<seq<Unit>>)
    decreases t, 1, k
  {
    if k == 0 then o == Some([])
    else
      || (o == None && GivesTimes(t, default, cap, k - 1, None))
      || exists p, q :: GivesTimes(t, default, cap, k - 1, Some(p)) && Gives(t, default, cap, q) && o == Joined(p, q)
  }

  // ---------------------------------------------------------------------
  // Sets
  // ---------------------------------------------------------------------

  // All characters are 16-bit units.
  ghost predicate Units(default: seq<RS.Range>) {
    forall x | RS.In(default, x) :: 0 <= x < 0x1_0000
  }

  // A character of the set.
  ghost predicate Fits(ts: seq<SetToken>, negated: bool, default: seq<RS.Range>, x: int) {
    RS.In(default, x) && negated != BelongsAny(ts, x)
  }

  // A character of the set, or nothing if there is none.
  ghost predicate FitsOrNone(ts: seq<SetToken>, negated: bool, default: seq<RS.Range>, o: Option<seq<Unit>>) {
    && o.Some? && |o.value| <= 1
    && if o.value == [] then forall x :: !Fits(ts, negated, default, x) else Fits(ts, negated, default, o.value[0])
  }

  /**
   Told from its expansion, when a set over clean members gives only characters of its own. A negated
   one does when it is clean. One that is not has reversed ranges in its expansion for each that it
   overlaps, which count against its length: it does when its length is above 0; when its length is 0
   and it holds nothing; and when its length is below 0, index does not raise for 0, and the
   characters that it counts back to from the first range are of the set.
   */
  ghost predicate SafeSet(ts: seq<SetToken>, negated: bool, default: seq<RS.Range>) {
    var rs := ExpandToken(Sub(ts, negated), default);
    var n := RS.TotalLength(rs);
    if negated then Clean(Sub(ts, negated), default)
    else if n >= 0 then n > 0 || forall r | r in rs :: r.low > r.high
    else
      && |rs| > 0 && RS.Peak(rs) > 0
      && forall i | n <= i < 0 && i < rs[0].Length() :: Fits(ts, negated, default, Back(rs, i))
  }

  function Back(rs: seq<RS.Range>, i: int): int
    requires |rs| > 0
  {
    (rs[0].low + i) % 0x1_0000
  }

  lemma PositiveMembers(ts: seq<SetToken>, default: seq<RS.Range>, x: int)
    requires CleanAll(ts, default) && RS.Sorted(default)
    ensures RS.In(ExpandToken(Sub(ts, false), default), x) <==> Fits(ts, false, default, x)
  {
    ExpandMeans(Sub(ts, false), default, x);
  }

  // A draw from a set that is not negated.
  lemma DrawFits(ts: seq<SetToken>, default: seq<RS.Range>, i: int)
    requires CleanAll(ts, default) && RS.Sorted(default) && Units(default)
    requires var rs := ExpandToken(Sub(ts, false), default);
      RS.Index(rs, i).Some? && (i < 0 && i < rs[0].Length() ==> Fits(ts, false, default, Back(rs, i)))
    ensures FitsOrNone(ts, false, default, Letter(RS.Index(ExpandToken(Sub(ts, false), default), i)))
  {
    var rs := ExpandToken(Sub(ts, false), default);
    RS.IndexIn(rs, i);
    PositiveMembers(ts, default, RS.Index(rs, i).value);
  }

  lemma PositiveSafe(ts: seq<SetToken>, default: seq<RS.Range>, o: Option<seq<Unit>>)
    requires CleanAll(ts, default) && RS.Sorted(default) && Units(default)
    requires SafeSet(ts, false, default) && SetGives(ExpandToken(Sub(ts, false), default), o)
    ensures FitsOrNone(ts, false, default, o)
  {
    hide ExpandToken, Fits;
    var rs := ExpandToken(Sub(ts, false), default);
    var n := RS.TotalLength(rs);
    if n == 0 {
      forall x
        ensures !Fits(ts, false, default, x)
      {
        PositiveMembers(ts, default, x);
      }
    } else {
      var i :| Drawn(0, n - 1, i) && o == Letter(RS.Index(rs, i));
      if n > 0 { RS.PeakTotal(rs); }
      RS.IndexStops(rs, i);
      DrawFits(ts, default, i);
    }
  }

  // One of the draws is not what it should be.
  lemma PositiveUnsafe(ts: seq<SetToken>, default: seq<RS.Range>) returns (o: Option<seq<Unit>>)
    requires CleanAll(ts, default) && RS.Sorted(default) && !SafeSet(ts, false, default)
    ensures SetGives(ExpandToken(Sub(ts, false), default), o) && !FitsOrNone(ts, false, default, o)
  {
    hide ExpandToken, Fits;
    var rs := ExpandToken(Sub(ts, false), default);
    var n := RS.TotalLength(rs);
    if n == 0 {
      o := Some([]);
      var r :| r in rs && r.low <= r.high;
      assert r.Has(r.low);
      PositiveMembers(ts, default, r.low);
    } else {
      var i := 0;
      if |rs| > 0 && RS.Peak(rs) > 0 {
        i :| n <= i < 0 && i < rs[0].Length() && !Fits(ts, false, default, Back(rs, i));
      } else {
        RS.IndexStops(rs, 0);
      }
      assert Drawn(0, n - 1, i);
      o := Letter(RS.Index(rs, i));
    }
  }

  // Whatever is drawn from an expansion without reversed ranges is in it, and everything in it may be drawn.
  lemma ProperGives(rs: seq<RS.Range>, o: Option<seq<Unit>>)
    requires RS.Proper(rs) && Units(rs)
    ensures SetGives(rs, o) <==>
      if o == Some([]) then forall x :: !RS.In(rs, x) else o.Some? && |o.value| == 1 && RS.In(rs, o.value[0])
  {
    if SetGives(rs, o) { ProperGiven(rs, o); }
    EmptyLength(rs);
    hide RS.Proper, RS.In, Units;
    if o.Some? && |o.value| == 1 && RS.In(rs, o.value[0]) {
      var i := RS.IndexReaches(rs, o.value[0]);
      assert o.value == [o.value[0]];
      assert Drawn(0, RS.TotalLength(rs) - 1, i) && o == Letter(RS.Index(rs, i));
    }
  }

  lemma ProperGiven(rs: seq<RS.Range>, o: Option<seq<Unit>>)
    requires RS.Proper(rs) && Units(rs) && SetGives(rs, o)
    ensures if o == Some([]) then forall x :: !RS.In(rs, x)
      else o.Some? && |o.value| == 1 && RS.In(rs, o.value[0])
  {
    EmptyLength(rs);
    hide RS.Proper, RS.In;
    if RS.TotalLength(rs) != 0 {
      var i :| Drawn(0, RS.TotalLength(rs) - 1, i) && o == Letter(RS.Index(rs, i));
      RS.IndexFits(rs, i);
    }
  }

  lemma NegatedGives(ts: seq<SetToken>, default: seq<RS.Range>, o: Option<seq<Unit>>)
    requires RS.Sorted(default) && Units(default)
    ensures var rs := ExpandToken(Sub(ts, true), default);
      SetGives(rs, o) <==>
        if o == Some([]) then forall x :: !RS.In(rs, x) else o.Some? && |o.value| == 1 && RS.In(rs, o.value[0])
  {
    var rs := ExpandToken(Sub(ts, true), default);
    NegatedProper(ts, default);
    forall x | RS.In(rs, x)
      ensures 0 <= x < 0x1_0000
    {
      NegatedUnits(ts, default, x);
    }
    ProperGives(rs, o);
  }

  lemma NegatedProper(ts: seq<SetToken>, default: seq<RS.Range>)
    requires RS.Sorted(default)
    ensures RS.Proper(ExpandToken(Sub(ts, true), default))
  {
    RS.CopySorted(default);
    RS.SubtractAllBounds(RS.AddAll([], default), ExpandAll(ts, default), 0);
  }

  lemma NegatedUnits(ts: seq<SetToken>, default: seq<RS.Range>, x: int)
    requires RS.Sorted(default) && Units(default) && RS.In(ExpandToken(Sub(ts, true), default), x)
    ensures RS.In(default, x) && 0 <= x < 0x1_0000
  {
    RS.CopySorted(default);
    RS.SubtractAllBounds(RS.AddAll([], default), ExpandAll(ts, default), x);
    RS.AddAllMeans([], default, x);
  }

  lemma NegatedExact(ts: seq<SetToken>, default: seq<RS.Range>)
    requires CleanAll(ts, default) && RS.Sorted(default) && Units(default)
    ensures (forall o :: SetGives(ExpandToken(Sub(ts, true), default), o) ==> FitsOrNone(ts, true, default, o)) <==>
            Clean(Sub(ts, true), default)
  {
    var t := Sub(ts, true);
    var rs := ExpandToken(t, default);
    forall x | Fits(ts, true, default, x)
      ensures RS.In(rs, x)
    {
      NegatedKeeps(ts, default, x);
    }
    if Clean(t, default) {
      forall o | SetGives(rs, o)
        ensures FitsOrNone(ts, true, default, o)
      {
        NegatedGives(ts, default, o);
        forall x
          ensures RS.In(rs, x) <==> Fits(ts, true, default, x)
        {
          ExpandMeans(t, default, x);
        }
      }
    } else {
      var x := LetThrough(t, default);
      assert !Fits(ts, true, default, x);
      NegatedUnits(ts, default, x);
      NegatedGives(ts, default, Some([x]));
      assert SetGives(rs, Some([x]));
    }
  }

  lemma NegatedKeeps(ts: seq<SetToken>, default: seq<RS.Range>, x: int)
    requires CleanAll(ts, default) && RS.Sorted(default) && Fits(ts, true, default, x)
    ensures RS.In(ExpandToken(Sub(ts, true), default), x)
  {
    ExpandAllMeans(ts, default, x);
    RS.CopySorted(default);
    RS.AddAllMeans([], default, x);
    RS.SubtractAllBounds(RS.AddAll([], default), ExpandAll(ts, default), x);
  }

  /** Whatever is drawn, a set gives a character of its own, or nothing if it has none, if and only if it is safe. */
  lemma SetExact(ts: seq<SetToken>, negated: bool, default: seq<RS.Range>)
    requires CleanAll(ts, default) && RS.Sorted(default) && Units(default)
    ensures (forall o ::
              SetGives(ExpandToken(Sub(ts, negated), default), o) ==> FitsOrNone(ts, negated, default, o)) <==>
            SafeSet(ts, negated, default)
  {
    if negated {
      NegatedExact(ts, default);
    } else if SafeSet(ts, negated, default) {
      forall o | SetGives(ExpandToken(Sub(ts, negated), default), o)
        ensures FitsOrNone(ts, negated, default, o)
      {
        PositiveSafe(ts, default, o);
      }
    } else {
      var o := PositiveUnsafe(ts, default);
    }
  }

  /** A set without backward ranges is safe. */
  lemma ForwardSafe(ts: seq<SetToken>, negated: bool, default: seq<RS.Range>)
    requires (forall i | 0 <= i < |ts| :: Forward(ts[i])) && RS.Sorted(default)
    ensures CleanAll(ts, default) && SafeSet(ts, negated, default)
  {
    ForwardAllClean(ts, default);
    ForwardClean(Sub(ts, negated), default);
    var rs := ExpandToken(Sub(ts, negated), default);
    EmptyLength(rs);
    assert forall r | r in rs :: r.Has(r.low) ==> RS.In(rs, r.low);
  }

  // ---------------------------------------------------------------------
  // Trees
  // ---------------------------------------------------------------------

  /** Whatever is drawn, with ordered repetitions no string is longer than the bound. */
  lemma {:induction false} GivesBounded(t: Token, default: seq<RS.Range>, cap: nat, o: Option<seq<Unit>>)
    requires Ordered(t) && Gives(t, default, cap, o)
    ensures o.Some? ==> |o.value| <= Longest(t, cap)
    decreases t, 0, 0
  {
    hide GivesAll, GivesTimes, LongestAll, LongestOf, SetGives, ExpandToken;
    match t
    case Group(stack, lookaround) => if !lookaround { GivesAllBounded(stack, default, cap, o); }
    case Choice(options, lookaround) =>
      if !lookaround {
        var i :| 0 <= i < |options| && GivesAll(options[i].stack, default, cap, o);
        GivesAllBounded(options[i].stack, default, cap, o);
        LongestCovers(options, cap, i);
      }
    case Position =>
    case Set(ts, negated) => SetShort(ExpandToken(Sub(ts, negated), default), o);
    case Repetition(min, max, v) =>
      var m := if max.Some? then max.value else min + cap;
      var k: nat :| Drawn(min, m, k) && GivesTimes(v, default, cap, k, o);
      GivesTimesBounded(v, default, cap, k, o);
      Scales(k, m, Longest(v, cap));
    case Char(_) =>
  }

  lemma SetShort(rs: seq<RS.Range>, o: Option<seq<Unit>>)
    requires SetGives(rs, o)
    ensures o.Some? ==> |o.value| <= 1
  {
  }

  lemma {:induction false} GivesAllBounded(ts: seq<Token>, default: seq<RS.Range>, cap: nat, o: Option<seq<Unit>>)
    requires OrderedAll(ts) && GivesAll(ts, default, cap, o)
    ensures o.Some? ==> |o.value| <= LongestAll(ts, cap)
    decreases ts, 0, 0
  {
    hide Gives, Longest, Ordered;
    if |ts| > 0 && o.Some? {
      var init, last := ts[..|ts| - 1], ts[|ts| - 1];
      var p, q :| GivesAll(init, default, cap, Some(p)) && Gives(last, default, cap, q) && o == Joined(p, q);
      GivesAllBounded(init, default, cap, Some(p));
      GivesBounded(last, default, cap, q);
    }
  }

  lemma {:induction false} GivesTimesBounded(t: Token, default: seq<RS.Range>, cap: nat, k: nat, o: Option<seq<Unit>>)
    requires Ordered(t) && GivesTimes(t, default, cap, k, o)
    ensures o.Some? ==> |o.value| <= k * Longest(t, cap)
    decreases t, 1, k
  {
    hide Gives, GivesTimes, Longest, Ordered;
    if k == 0 {
      NoTimes(t, default, cap, o);
    } else if o.Some? {
      var p, q := LastTime(t, default, cap, k, o);
      GivesTimesBounded(t, default, cap, k - 1, Some(p));
      GivesBounded(t, default, cap, q);
      OneMoreTime(k, Longest(t, cap));
    }
  }

  lemma NoTimes(t: Token, default: seq<RS.Range>, cap: nat, o: Option<seq<Unit>>)
    requires GivesTimes(t, default, cap, 0, o)
    ensures o == Some([]) && MatchesTimes(t, 0, [])
  {
  }

  // Unless an earlier one raised.
  lemma LastTime(t: Token, default: seq<RS.Range>, cap: nat, k: nat, o: Option<seq<Unit>>)
    returns (p: seq<Unit>, q: Option<seq<Unit>>)
    requires k > 0 && GivesTimes(t, default, cap, k, o) && (o == None ==> !GivesTimes(t, default, cap, k - 1, None))
    ensures GivesTimes(t, default, cap, k - 1, Some(p)) && Gives(t, default, cap, q) && o == Joined(p, q)
  {
    hide Gives;
    p, q :| GivesTimes(t, default, cap, k - 1, Some(p)) && Gives(t, default, cap, q) && o == Joined(p, q);
  }

  lemma OneTimeMore(t: Token, k: nat, p: seq<Unit>, q: seq<Unit>)
    requires k > 0 && MatchesTimes(t, k - 1, p) && Matches(t, q)
    ensures MatchesTimes(t, k, p + q)
  {
    hide Matches;
    var s := p + q;
    assert s[..|p|] == p && s[|p|..] == q;
  }

  lemma OneMoreTime(k: nat, n: nat)
    requires k > 0
    ensures k * n == (k - 1) * n + n
  {
  }

  /** Nothing raises, and the string belongs to the language of a plain tree. */
  lemma {:induction false} GivesMatch(t: Token, default: seq<RS.Range>, cap: nat, o: Option<seq<Unit>>)
    requires Ordered(t) && SetsSafe(t, default) && RS.Sorted(default) && Units(default) && Gives(t, default, cap, o)
    ensures o.Some? && (Plain(t, default) ==> Matches(t, o.value))
    decreases t, 0, 0
  {
    hide GivesAll, GivesTimes, MatchesAll, MatchesTimes, SetGives, ExpandToken, SafeSet, Units, RS.Sorted;
    match t
    case Group(stack, lookaround) => if !lookaround { GivesAllMatch(stack, default, cap, o); }
    case Choice(options, lookaround) =>
      if !lookaround {
        var i :| 0 <= i < |options| && GivesAll(options[i].stack, default, cap, o);
        GivesAllMatch(options[i].stack, default, cap, o);
      }
    case Position =>
    case Set(ts, negated) => SetMatches(ts, negated, default, o);
    case Repetition(min, max, v) =>
      var k: nat :| Drawn(min, if max.Some? then max.value else min + cap, k) && GivesTimes(v, default, cap, k, o);
      GivesTimesMatch(v, default, cap, k, o);
    case Char(_) =>
  }

  lemma SetMatches(ts: seq<SetToken>, negated: bool, default: seq<RS.Range>, o: Option<seq<Unit>>)
    requires CleanAll(ts, default) && SafeSet(ts, negated, default) && RS.Sorted(default) && Units(default)
    requires SetGives(ExpandToken(Sub(ts, negated), default), o)
    ensures o.Some? && (Plain(Set(ts, negated), default) ==> Matches(Set(ts, negated), o.value))
  {
    hide ExpandToken, SafeSet, SetGives;
    SetExact(ts, negated, default);
    assert FitsOrNone(ts, negated, default, o);
    if Plain(Set(ts, negated), default) {
      var x :| RS.In(default, x) && negated != BelongsAny(ts, x);
      assert Fits(ts, negated, default, x);
    }
  }

  lemma {:induction false} GivesAllMatch(ts: seq<Token>, default: seq<RS.Range>, cap: nat, o: Option<seq<Unit>>)
    requires OrderedAll(ts) && SetsSafeAll(ts, default) && RS.Sorted(default) && Units(default)
    requires GivesAll(ts, default, cap, o)
    ensures o.Some? && (PlainAll(ts, default) ==> MatchesAll(ts, o.value))
    decreases ts, 0, 0
  {
    hide Gives, Matches, Ordered, SetsSafe, Plain, RS.Sorted, Units;
    if |ts| > 0 {
      var init, last := ts[..|ts| - 1], ts[|ts| - 1];
      if o == None && GivesAll(init, default, cap, None) {
        GivesAllMatch(init, default, cap, None);
      } else {
        var p, q :| GivesAll(init, default, cap, Some(p)) && Gives(last, default, cap, q) && o == Joined(p, q);
        GivesAllMatch(init, default, cap, Some(p));
        GivesMatch(last, default, cap, q);
        assert o.value[..|p|] == p && o.value[|p|..] == q.value;
      }
    }
  }

  lemma {:induction false} GivesTimesMatch(t: Token, default: seq<RS.Range>, cap: nat, k: nat, o: Option<seq<Unit>>)
    requires Ordered(t) && SetsSafe(t, default) && RS.Sorted(default) && Units(default)
    requires GivesTimes(t, default, cap, k, o)
    ensures o.Some? && (Plain(t, default) ==> MatchesTimes(t, k, o.value))
    decreases t, 1, k
  {
    hide Gives, GivesTimes, Matches, MatchesTimes, Ordered, SetsSafe, Plain, RS.Sorted, Units;
    if k == 0 {
      NoTimes(t, default, cap, o);
    } else if o == None && GivesTimes(t, default, cap, k - 1, None) {
      GivesTimesMatch(t, default, cap, k - 1, None);
    } else {
      var p, q := LastTime(t, default, cap, k, o);
      GivesTimesMatch(t, default, cap, k - 1, Some(p));
      GivesMatch(t, default, cap, q);
      if Plain(t, default) { OneTimeMore(t, k, p, q.value); }
    }
  }

  // ---------------------------------------------------------------------
  // All that may be drawn
  // ---------------------------------------------------------------------

  // The strings of the language that take no open repetition more than cap times above its minimum, and
  // no character for a set that is not in the default range.
  ghost predicate Within(t: Token, default: seq<RS.Range>, cap: nat, s: seq<Unit>)
    decreases t, 0, 0
  {
    match t
    case Group(stack, _) => WithinAll(stack, default, cap, s)
    case Choice(options, _) => exists i :: 0 <= i < |options| && WithinAll(options[i].stack, default, cap, s)
    case Position => s == []
    case Set(ts, negated) => |s| == 1 && RS.In(default, s[0]) && negated != BelongsAny(ts, s[0])
    case Repetition(min, max, v) =>
      exists k: nat :: Counts(min, max, cap, k) && WithinTimes(v, default, cap, k, s)
    case Char(c) => s == [c]
  }

  ghost predicate Counts(min: nat, max: Option<nat>, cap: nat, k: nat) {
    min <= k <= if max == None then min + cap else max.value
  }

  ghost predicate WithinAll(ts: seq<Token>, default: seq<RS.Range>, cap: nat, s: seq<Unit>)
    decreases ts, 0, 0
  {
    if |ts| == 0 then s == []
    else
      exists i ::
        && 0 <= i <= |s|
        && WithinAll(ts[..|ts| - 1], default, cap, s[..i]) && Within(ts[|ts| - 1], default, cap, s[i..])
  }

  ghost predicate WithinTimes(t: Token, default: seq<RS.Range>, cap: nat, k: nat, s: seq<Unit>)
    decreases t, 1, k
  {
    if k == 0 then s == []
    else
      exists i ::
        0 <= i <= |s| && WithinTimes(t, default, cap, k - 1, s[..i]) && Within(t, default, cap, s[i..])
  }

  // No set has a reversed range.
  ghost predicate SetsForward(t: Token) {
    match t
    case Group(stack, _) => SetsForwardAll(stack)
    case Choice(options, _) => forall i | 0 <= i < |options| :: SetsForwardAll(options[i].stack)
    case Position => true
    case Set(ts, _) => forall i | 0 <= i < |ts| :: Forward(ts[i])
    case Repetition(_, _, v) => SetsForward(v)
    case Char(_) => true
  }

  ghost predicate SetsForwardAll(ts: seq<Token>) {
    forall i | 0 <= i < |ts| :: SetsForward(ts[i])
  }

  /**
   Of a plain tree without reversed ranges and bounds, all the strings of the language within the cap and
   the default range may be drawn, and nothing else.
   */
  lemma {:induction false} GivesExactly(t: Token, default: seq<RS.Range>, cap: nat, o: Option<seq<Unit>>)
    requires Ordered(t) && SetsForward(t) && Plain(t, default) && RS.Sorted(default) && Units(default)
    ensures Gives(t, default, cap, o) <==> o.Some? && Within(t, default, cap, o.value)
    decreases t, 0, 0
  {
    hide GivesAll, GivesTimes, WithinAll, WithinTimes, SetGives, ExpandToken, Units, RS.Sorted, Forward;
    match t
    case Group(stack, _) => GivesAllExactly(stack, default, cap, o);
    case Choice(options, _) =>
      forall i | 0 <= i < |options|
        ensures GivesAll(options[i].stack, default, cap, o) <==>
          o.Some? && WithinAll(options[i].stack, default, cap, o.value)
      {
        GivesAllExactly(options[i].stack, default, cap, o);
      }
    case Position =>
    case Set(ts, negated) => SetExactly(ts, negated, default, cap, o);
    case Repetition(min, max, v) =>
      var m := if max == None then min + cap else max.value;
      forall k: nat
        ensures GivesTimes(v, default, cap, k, o) <==> o.Some? && WithinTimes(v, default, cap, k, o.value)
        ensures Drawn(min, m, k) <==> Counts(min, max, cap, k)
      {
        GivesTimesExactly(v, default, cap, k, o);
      }
    case Char(_) =>
  }

  lemma SetExactly(ts: seq<SetToken>, negated: bool, default: seq<RS.Range>, cap: nat, o: Option<seq<Unit>>)
    requires (forall i | 0 <= i < |ts| :: Forward(ts[i])) && Plain(Set(ts, negated), default)
    requires RS.Sorted(default) && Units(default)
    ensures SetGives(ExpandToken(Sub(ts, negated), default), o) <==>
      o.Some? && Within(Set(ts, negated), default, cap, o.value)
  {
    var rs := ExpandToken(Sub(ts, negated), default);
    ForwardClean(Sub(ts, negated), default);
    forall x
      ensures RS.In(rs, x) <==> RS.In(default, x) && negated != BelongsAny(ts, x)
    {
      ExpandMeans(Sub(ts, negated), default, x);
    }
    hide ExpandToken;
    ProperGives(rs, o);
  }

  lemma {:induction false} GivesAllExactly(ts: seq<Token>, default: seq<RS.Range>, cap: nat, o: Option<seq<Unit>>)
    requires OrderedAll(ts) && SetsForwardAll(ts) && PlainAll(ts, default) && RS.Sorted(default) && Units(default)
    ensures GivesAll(ts, default, cap, o) <==> o.Some? && WithinAll(ts, default, cap, o.value)
    decreases ts, 0, 0
  {
    hide Gives, Within, Ordered, SetsForward, Plain, RS.Sorted, Units;
    if |ts| > 0 {
      var init, last := ts[..|ts| - 1], ts[|ts| - 1];
      GivesAllExactly(init, default, cap, None);
      if GivesAll(ts, default, cap, o) {
        var p, q :| GivesAll(init, default, cap, Some(p)) && Gives(last, default, cap, q) && o == Joined(p, q);
        GivesAllExactly(init, default, cap, Some(p));
        GivesExactly(last, default, cap, q);
        assert o.value[..|p|] == p && o.value[|p|..] == q.value;
      }
      if o.Some? && WithinAll(ts, default, cap, o.value) {
        var s := o.value;
        var i :| 0 <= i <= |s| && WithinAll(init, default, cap, s[..i]) && Within(last, default, cap, s[i..]);
        GivesAllExactly(init, default, cap, Some(s[..i]));
        GivesExactly(last, default, cap, Some(s[i..]));
        assert s == s[..i] + s[i..];
        assert o == Joined(s[..i], Some(s[i..]));
      }
    }
  }

  lemma TimesJoin(t: Token, default: seq<RS.Range>, cap: nat, k: nat, p: seq<Unit>, q: seq<Unit>)
    requires k > 0
    ensures GivesTimes(t, default, cap, k - 1, Some(p)) && Gives(t, default, cap, Some(q)) ==>
      GivesTimes(t, default, cap, k, Some(p + q))
    ensures WithinTimes(t, default, cap, k - 1, p) && Within(t, default, cap, q) ==>
      WithinTimes(t, default, cap, k, p + q)
  {
    hide Gives, Within;
    assert (p + q)[..|p|] == p && (p + q)[|p|..] == q;
    assert Joined(p, Some(q)) == Some(p + q);
  }

  lemma WithinLast(t: Token, default: seq<RS.Range>, cap: nat, k: nat, s: seq<Unit>)
    returns (p: seq<Unit>, q: seq<Unit>)
    requires k > 0 && WithinTimes(t, default, cap, k, s)
    ensures WithinTimes(t, default, cap, k - 1, p) && Within(t, default, cap, q) && s == p + q
  {
    hide Within;
    var i :| 0 <= i <= |s| && WithinTimes(t, default, cap, k - 1, s[..i]) && Within(t, default, cap, s[i..]);
    p, q := s[..i], s[i..];
  }

  lemma {:induction false} GivesTimesExactly(t: Token, default: seq<RS.Range>, cap: nat, k: nat, o: Option<seq<Unit>>)
    requires Ordered(t) && SetsForward(t) && Plain(t, default) && RS.Sorted(default) && Units(default)
    ensures GivesTimes(t, default, cap, k, o) <==> o.Some? && WithinTimes(t, default, cap, k, o.value)
    decreases t, 1, k
  {
    hide Gives, Within, GivesTimes, WithinTimes, Ordered, SetsForward, Plain, RS.Sorted, Units;
    if k == 0 {
      NoTimesExactly(t, default, cap, o);
    } else {
      GivesTimesExactly(t, default, cap, k - 1, None);
      if GivesTimes(t, default, cap, k, o) {
        var p, q := LastTime(t, default, cap, k, o);
        GivesTimesExactly(t, default, cap, k - 1, Some(p));
        GivesExactly(t, default, cap, q);
        TimesJoin(t, default, cap, k, p, q.value);
      }
      if o.Some? && WithinTimes(t, default, cap, k, o.value) {
        var p, q := WithinLast(t, default, cap, k, o.value);
        GivesTimesExactly(t, default, cap, k - 1, Some(p));
        GivesExactly(t, default, cap, Some(q));
        TimesJoin(t, default, cap, k, p, q);
      }
    }
  }

  lemma NoTimesExactly(t: Token, default: seq<RS.Range>, cap: nat, o: Option<seq<Unit>>)
    ensures GivesTimes(t, default, cap, 0, o) <==> o.Some? && WithinTimes(t, default, cap, 0, o.value)
  {
  }

  /**
   Whatever is drawn, what a repetition of a plain value gives is within the bound and in the language
   if and only if its bounds are the right way round.
   */
  lemma RepetitionExact(min: nat, max: Option<nat>, v: Token, default: seq<RS.Range>, cap: nat, o: Option<seq<Unit>>)
    requires Ordered(v) && SetsSafe(v, default) && Plain(v, default) && RS.Sorted(default) && Units(default)
    requires Gives(Repetition(min, max, v), default, cap, o)
    ensures var t := Repetition(min, max, v);
      o.Some? && |o.value| <= Longest(t, cap) && Matches(t, o.value) <==> (max.Some? ==> min <= max.value)
  {
    var t := Repetition(min, max, v);
    if max.Some? ==> min <= max.value {
      GivesBounded(t, default, cap, o);
      GivesMatch(t, default, cap, o);
    }
  }

  // ---------------------------------------------------------------------
  // Three expressions that the parser takes
  // ---------------------------------------------------------------------

  lemma {:induction false} CharTimes(c: Unit, default: seq<RS.Range>, cap: nat, k: nat, o: Option<seq<Unit>>)
    ensures GivesTimes(Char(c), default, cap, k, o) <==> o == Some(Copies(c, k))
    decreases k
  {
    if k > 0 {
      var m := k - 1;
      forall p
        ensures GivesTimes(Char(c), default, cap, m, p) <==> p == Some(Copies(c, m))
      {
        CharTimes(c, default, cap, m, p);
      }
      assert Gives(Char(c), default, cap, Some([c]));
      assert Joined(Copies(c, k - 1), Some([c])) == Some(Copies(c, k));
    }
  }

  function Copies(c: Unit, k: nat): (s: seq<Unit>)
    ensures |s| == k
  {
    if k == 0 then [] else Copies(c, k - 1) + [c]
  }

  /** a{3,1}: one of two strings, both longer than the bound, and there is no string in its language. */
  lemma ReversedCount(default: seq<RS.Range>, cap: nat, o: Option<seq<Unit>>, s: seq<Unit>)
    ensures var t := Repetition(3, Some(1), Char(97));
      && (Gives(t, default, cap, o) <==> o == Some([97, 97]) || o == Some([97, 97, 97]))
      && !Matches(t, s) && Longest(t, cap) == 1
  {
    CharTimes(97, default, cap, 2, o);
    CharTimes(97, default, cap, 3, o);
    assert Copies(97, 1) == [97] && Copies(97, 2) == [97, 97] && Copies(97, 3) == [97, 97, 97];
    assert forall k: nat :: Drawn(3, 1, k) <==> k == 2 || k == 3;
  }

  /** [^z-anb]: it may give the b that it excludes. */
  lemma NegatedReversed()
    ensures var (default, ts) := ([RS.Range(32, 126)], [Span(122, 97), One(110), One(98)]);
      && RS.Sorted(default) && CleanAll(ts, default)
      && Gives(Set(ts, true), default, 100, Some([98])) && BelongsAny(ts, 98) && !SafeSet(ts, true, default)
  {
    var (default, ts) := ([RS.Range(32, 126)], [Span(122, 97), One(110), One(98)]);
    ThreeExpanded(default);
    LeftIn();
    assert RS.SubtractAll(default, [RS.Range(122, 97), RS.Range(110, 110), RS.Range(98, 98)]) ==
           [RS.Range(32, 97), RS.Range(99, 109), RS.Range(111, 121), RS.Range(98, 109), RS.Range(111, 126)];
    RS.InAt([RS.Range(32, 97), RS.Range(99, 109), RS.Range(111, 121), RS.Range(98, 109), RS.Range(111, 126)], 3, 98);
    var rs := ExpandToken(Sub(ts, true), default);
    assert RS.In(rs, 98);
    RS.InOne(RS.Range(32, 126), 0);
    forall x
      ensures RS.In(default, x) <==> 32 <= x <= 126
    {
      RS.InOne(RS.Range(32, 126), x);
    }
    NegatedGives(ts, default, Some([98]));
    assert ts[1..] == [One(110), One(98)] && ts[1..][1..] == [One(98)];
    if Clean(Sub(ts, true), default) { ExpandMeans(Sub(ts, true), default, 98); }
  }

  lemma ThreeExpanded(default: seq<RS.Range>)
    requires default == [RS.Range(32, 126)]
    ensures ExpandAll([Span(122, 97), One(110), One(98)], default) ==
            [RS.Range(122, 97), RS.Range(110, 110), RS.Range(98, 98)]
    ensures RS.AddAll([], default) == default
  {
    var a, b, c := RS.Range(122, 97), RS.Range(110, 110), RS.Range(98, 98);
    var ts := [Span(122, 97), One(110), One(98)];
    assert ts[..2] == [Span(122, 97), One(110)] && [Span(122, 97), One(110)][..1] == [Span(122, 97)];
    AddOneRange([], a);
    AddOneRange([a], b);
    AddOneRange([a, b], c);
    AddOneRange([], default[0]);
    assert RS.AddOne([a], b) == [a] + RS.AddOne([a][1..], b) && [a][1..] == [];
    assert RS.AddOne([a, b], c) == [a] + RS.AddOne([b], c) && [a, b][1..] == [b];
    assert RS.AddOne([b], c) == [b] + RS.AddOne([], c) && [b][1..] == [];
    assert ExpandAll([Span(122, 97)], default) == [a];
    assert ExpandAll([Span(122, 97), One(110)], default) == [a, b];
  }

  lemma AddOneRange(rs: seq<RS.Range>, t: RS.Range)
    ensures RS.AddAll(rs, [t]) == RS.AddOne(rs, t)
    ensures rs == [] ==> RS.AddOne(rs, t) == [t]
  {
    assert [t][..0] == [];
    assert RS.AddAll(rs, []) == rs;
  }

  lemma LeftIn()
    ensures RS.SubtractAll([RS.Range(32, 126)], [RS.Range(122, 97), RS.Range(110, 110), RS.Range(98, 98)]) ==
            [RS.Range(32, 97), RS.Range(99, 109), RS.Range(111, 121), RS.Range(98, 109), RS.Range(111, 126)]
  {
    hide RS.SubtractOne;
    var a, b, c := RS.Range(122, 97), RS.Range(110, 110), RS.Range(98, 98);
    RS.Peel(a, b, c);
    LeftInFirst();
    LeftInSecond();
    LeftInThird();
    var d := [RS.Range(32, 126)];
    assert RS.SubtractAll(d, [a]) == RS.SubtractOne(d, a);
    assert RS.SubtractAll(d, [a, b]) == RS.SubtractOne(RS.SubtractAll(d, [a]), b);
  }

  lemma LeftInFirst()
    ensures RS.SubtractOne([RS.Range(32, 126)], RS.Range(122, 97)) == [RS.Range(32, 121), RS.Range(98, 126)]
  {
  }

  lemma LeftInSecond()
    ensures RS.SubtractOne([RS.Range(32, 121), RS.Range(98, 126)], RS.Range(110, 110)) ==
            [RS.Range(32, 109), RS.Range(111, 121), RS.Range(98, 109), RS.Range(111, 126)]
  {
  }

  lemma LeftInThird()
    ensures
      var rs := [RS.Range(32, 109), RS.Range(111, 121), RS.Range(98, 109), RS.Range(111, 126)];
      RS.SubtractOne(rs, RS.Range(98, 98)) ==
            [RS.Range(32, 97), RS.Range(99, 109), RS.Range(111, 121), RS.Range(98, 109), RS.Range(111, 126)]
  {
  }

  /** [z-a]: whatever is drawn, index raises. */
  lemma ReversedRaises(o: Option<seq<Unit>>)
    ensures Gives(Set([Span(122, 97)], false), [RS.Range(32, 126)], 100, o) <==> o == None
  {
    var t := RS.Range(122, 97);
    OneBackwards();
    hide ExpandToken;
    assert RS.TotalLength([t]) == -24 by { assert [t][..0] == []; }
    forall i | Drawn(0, -25, i)
      ensures RS.Index([t], i) == None
    {
      RS.IndexStops([t], i);
    }
    assert Drawn(0, -25, 0);
  }

  lemma OneBackwards()
    ensures ExpandToken(Sub([Span(122, 97)], false), [RS.Range(32, 126)]) == [RS.Range(122, 97)]
  {
    var default, t := [RS.Range(32, 126)], RS.Range(122, 97);
    AddOneRange([], default[0]);
    AddOneRange([], t);
    assert ExpandAll([Span(122, 97)], default) == [t] by { assert [Span(122, 97)][..0] == []; }
    SharedBackwards();
  }

  lemma SharedBackwards()
    ensures RS.IntersectAll([RS.Range(32, 126)], [RS.Range(122, 97)]) == [RS.Range(122, 97)]
  {
    var default, t := [RS.Range(32, 126)], RS.Range(122, 97);
    assert [t][..0] == [];
    assert RS.IntersectOne(default, t) == RS.Shared(default, t) == [t] + RS.Shared(default[1..], t) == [t];
  }

  class RandExp {
    const defaultRange: RS.DiscontinuousRange
    const max: nat

    constructor (defaultRange: RS.DiscontinuousRange, max: nat)
      ensures this.defaultRange == defaultRange && this.max == max
    {
      this.defaultRange, this.max := defaultRange, max;
    }

    // _expand
    method Expand(t: SetToken) returns (r: RS.DiscontinuousRange)
      ensures fresh(r) && r.Valid() && r.ranges == ExpandToken(t, defaultRange.ranges)
      decreases t
    {
      match t
      case One(v) =>
        r := new RS.DiscontinuousRange();
        r.Add(RS.Range(v, v));
      case Span(a, b) =>
        r := new RS.DiscontinuousRange();
        r.Add(RS.Range(a, b));
      case Sub(ts, negated) =>
        var e := new RS.DiscontinuousRange();
        var n := 0;
        while n < |ts|
          invariant n <= |ts| && fresh(e) && e.Valid() && e.ranges == ExpandAll(ts[..n], defaultRange.ranges)
        {
          assert ts[..n + 1][..n] == ts[..n] && ts[..n + 1][n] == ts[n];
          var m := Expand(ts[n]);
          e.AddSet(m);
          n := n + 1;
        }
        assert ts[..n] == ts;
        r := defaultRange.Clone();
        if negated {
          r.SubtractSet(e);
        } else {
          r.IntersectSet(e);
        }
    }

    /**
     gen: whatever is drawn, the string is no longer than the bound if no repetition has its bounds
     the wrong way round, and if every set gives what it should it belongs to the language of a tree
     without anchors and lookaround in which every set has a character. s is None if index raises.
     */
    method Gen(t: Token) returns (s: Option<seq<Unit>>)
      requires Parsed(t) && RS.Sorted(defaultRange.ranges) && Units(defaultRange.ranges)
      ensures Gives(t, defaultRange.ranges, max, s)
      ensures Ordered(t) && s.Some? ==> |s.value| <= Longest(t, max)
      ensures Ordered(t) && SetsSafe(t, defaultRange.ranges) ==> s.Some?
      ensures Ordered(t) && SetsSafe(t, defaultRange.ranges) && Plain(t, defaultRange.ranges) ==> Matches(t, s.value)
    {
      s := GenToken(t);
      if Ordered(t) {
        GivesBounded(t, defaultRange.ranges, max, s);
        if SetsSafe(t, defaultRange.ranges) { GivesMatch(t, defaultRange.ranges, max, s); }
      }
    }

    // randInt: any random number is possible.
    method RandInt(a: int, b: int) returns (r: int)
      ensures Drawn(a, b, r)
    {
      var x: real :| 0.0 <= x < 1.0;
      r := IntOf(x, a, b);
      DrawnExactly(a, b, r);
    }

    // _gen
    method GenToken(t: Token) returns (s: Option<seq<Unit>>)
      requires Parsed(t)
      ensures Gives(t, defaultRange.ranges, max, s)
      decreases t, 0, 0
    {
      match t
      case Group(stack, lookaround) =>
        if lookaround {
          return Some([]);
        }
        s := GenAll(stack);
      case Choice(options, lookaround) =>
        if lookaround {
          return Some([]);
        }
        var i := RandInt(0, |options| - 1);
        s := GenAll(options[i].stack);
      case Position => s := Some([]);
      case Set(ts, negated) => s := GenSet(ts, negated);
      case Repetition(min, m, v) =>
        var i := RandInt(min, if m == None then min + max else m.value);
        s := GenTimes(v, i);
      case Char(c) => s := Some([c]);
    }

    method GenAll(ts: seq<Token>) returns (s: Option<seq<Unit>>)
      requires ParsedAll(ts)
      ensures GivesAll(ts, defaultRange.ranges, max, s)
      decreases ts, 0, 0
    {
      s := Some([]);
      var n := 0;
      while n < |ts|
        invariant n <= |ts| && GivesAll(ts[..n], defaultRange.ranges, max, s)
      {
        assert ts[..n + 1][..n] == ts[..n] && ts[..n + 1][n] == ts[n];
        if s.Some? {
          var r := GenToken(ts[n]);
          s := Joined(s.value, r);
        }
        n := n + 1;
      }
      assert ts[..n] == ts;
    }

    method GenTimes(t: Token, k: nat) returns (s: Option<seq<Unit>>)
      requires Parsed(t)
      ensures GivesTimes(t, defaultRange.ranges, max, k, s)
      decreases t, 1, k
    {
      s := Some([]);
      var n := 0;
      while n < k
        invariant n <= k && GivesTimes(t, defaultRange.ranges, max, n, s)
      {
        if s.Some? {
          var r := GenToken(t);
          s := Joined(s.value, r);
        }
        n := n + 1;
      }
    }

    // a.length ? String.fromCharCode(this._randSelect(a)) : ""
    method GenSet(ts: seq<SetToken>, negated: bool) returns (s: Option<seq<Unit>>)
      ensures SetGives(ExpandToken(Sub(ts, negated), defaultRange.ranges), s)
    {
      var a := Expand(Sub(ts, negated));
      if a.length != 0 {
        var i := RandInt(0, a.length - 1);
        var x := a.At(i);
        s := Letter(x);
      } else {
        s := Some([]);
      }
    }
  }

  lemma Scales(i: nat, j: nat, n: nat)
    requires i <= j
    ensures i * n <= j * n
  {
  }

  lemma {:induction false} EmptyLength(rs: seq<RS.Range>)
    requires RS.Proper(rs)
    ensures RS.TotalLength(rs) >= 0
    ensures RS.TotalLength(rs) == 0 <==> forall x :: !RS.In(rs, x)
  {
    RS.TotalPositive(rs);
    if |rs| > 0 {
      RS.TotalFirst(rs);
      assert rs[0] in rs && rs[0].Has(rs[0].low);
      assert RS.In(rs, rs[0].low);
      RS.TotalPositive(rs[1..]);
    }
  }
}
