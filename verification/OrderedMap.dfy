/**
 The OrderedMap of module 43393: a map from keys to positions and a list of pairs, in which a
 removed key leaves a hole until enough holes make it worth while to close them all.
 */
module OrderedMap {
  import opened Wrappers

  const SIZE := 32  // v

  datatype Ordered<K, V> = Ordered(index: map<K, nat>, list: seq<Option<(K, V)>>)

  // ---------------------------------------------------------------------
  // The code
  // ---------------------------------------------------------------------

  // list.filter: the pairs left, without the one at u
  function Compact<K, V>(list: seq<Option<(K, V)>>, u: nat): seq<Option<(K, V)>> {
    var n := |list|;
    if n == 0 then []
    else Compact(list[..n - 1], u) + (if list[n - 1].Some? && n - 1 != u then [list[n - 1]] else [])
  }

  // list.toKeyedSeq().map(pair => pair[0]).flip().toMap()
  function IndexOf<K, V>(list: seq<Option<(K, V)>>): map<K, nat>
    requires forall p | p in list :: p.Some?
  {
    var n := |list|;
    if n == 0 then map[] else
      assert list[n - 1] in list;
      IndexOf(list[..n - 1])[list[n - 1].value.0 := n - 1]
  }

  lemma {:induction false} CompactIsFull<K, V>(list: seq<Option<(K, V)>>, u: nat)
    ensures forall p | p in Compact(list, u) :: p.Some?
  {
    if |list| > 0 { CompactIsFull(list[..|list| - 1], u); }
  }

  // qe: a value to set, or None to remove
  function Update<K, V(==)>(m: Ordered<K, V>, k: K, v: Option<V>): Ordered<K, V>
    requires Valid(m)
  {
    if v == None then
      if k !in m.index then m
      else
        var u := m.index[k];
        if |m.list| >= SIZE && |m.list| >= 2 * |m.index| then
          CompactIsFull(m.list, u);
          var list := Compact(m.list, u);
          Ordered(IndexOf(list), list)
        else
          Ordered(m.index - {k}, if u == |m.list| - 1 then m.list[..u] else m.list[u := None])
    else if k in m.index then
      var u := m.index[k];
      if v.value == m.list[u].value.1 then m else Ordered(m.index, m.list[u := Some((k, v.value))])
    else
      Ordered(m.index[k := |m.list|], m.list + [Some((k, v.value))])
  }

  function Get<K, V>(m: Ordered<K, V>, k: K): Option<V>
    requires Valid(m)
  {
    if k in m.index then Some(m.list[m.index[k]].value.1) else None
  }

  // What an iteration meets: the list without its holes.
  function Entries<K, V>(list: seq<Option<(K, V)>>): seq<(K, V)> {
    var n := |list|;
    if n == 0 then [] else Entries(list[..n - 1]) + (if list[n - 1].Some? then [list[n - 1].value] else [])
  }

  // ---------------------------------------------------------------------
  // What it stands for
  // ---------------------------------------------------------------------

  // Index and list agree.
  ghost predicate Valid<K, V>(m: Ordered<K, V>) {
    && (forall k | k in m.index :: m.index[k] < |m.list| && m.list[m.index[k]].Some? && m.list[m.index[k]].value.0 == k)
    && (forall i | 0 <= i < |m.list| && m.list[i].Some? ::
        m.list[i].value.0 in m.index && m.index[m.list[i].value.0] == i)
  }

  // The list has room for few holes.
  ghost predicate Tight<K, V>(m: Ordered<K, V>) {
    |m.list| <= |m.index| + (if |m.index| + 1 > SIZE - 1 then |m.index| + 1 else SIZE - 1)
  }

  // A list of pairs in the order in which their keys came, each key once.
  ghost function Put<K, V>(es: seq<(K, V)>, k: K, v: V): seq<(K, V)> {
    if exists e :: e in es && e.0 == k then Replace(es, k, v) else es + [(k, v)]
  }

  ghost function Replace<K, V>(es: seq<(K, V)>, k: K, v: V): seq<(K, V)> {
    var n := |es|;
    if n == 0 then [] else Replace(es[..n - 1], k, v) + [if es[n - 1].0 == k then (k, v) else es[n - 1]]
  }

  ghost function Drop<K, V>(es: seq<(K, V)>, k: K): seq<(K, V)> {
    var n := |es|;
    if n == 0 then [] else Drop(es[..n - 1], k) + (if es[n - 1].0 == k then [] else [es[n - 1]])
  }

  ghost predicate Distinct<K, V>(es: seq<(K, V)>) {
    forall i, j | 0 <= i < j < |es| :: es[i].0 != es[j].0
  }

  // k is the key of the pair at u, and of no other.
  ghost predicate OnlyAt<K, V>(list: seq<Option<(K, V)>>, k: K, u: nat) {
    forall i | 0 <= i < |list| && list[i].Some? :: list[i].value.0 == k <==> i == u
  }

  lemma {:induction false} EntriesAre<K, V>(list: seq<Option<(K, V)>>, e: (K, V))
    ensures e in Entries(list) <==> Some(e) in list
  {
    var n := |list|;
    if n > 0 {
      EntriesAre(list[..n - 1], e);
      assert list == list[..n - 1] + [list[n - 1]];
    }
  }

  lemma EntriesMore<K, V>(p: seq<Option<(K, V)>>, x: Option<(K, V)>)
    ensures Entries(p + [x]) == Entries(p) + (if x.Some? then [x.value] else [])
  {
    assert (p + [x])[..|p|] == p;
  }

  lemma PairsMore<K, V>(es: seq<(K, V)>, e: (K, V), k: K, v: V)
    ensures Replace(es + [e], k, v) == Replace(es, k, v) + [if e.0 == k then (k, v) else e]
    ensures Drop(es + [e], k) == Drop(es, k) + (if e.0 == k then [] else [e])
  {
    assert (es + [e])[..|es|] == es;
  }

  lemma CompactMore<K, V>(p: seq<Option<(K, V)>>, x: Option<(K, V)>, u: nat)
    ensures Compact(p + [x], u) == Compact(p, u) + (if x.Some? && |p| != u then [x] else [])
  {
    assert (p + [x])[..|p|] == p;
  }

  lemma OnlyAtInit<K, V>(p: seq<Option<(K, V)>>, x: Option<(K, V)>, k: K, u: nat)
    requires OnlyAt(p + [x], k, u)
    ensures OnlyAt(p, k, u) && (x.Some? ==> (x.value.0 == k <==> |p| == u))
  {
    var list := p + [x];
    assert list[|p|] == x && forall i | 0 <= i < |p| :: list[i] == p[i];
  }

  lemma {:induction false} EntriesReplaced<K, V>(list: seq<Option<(K, V)>>, k: K, v: V, u: nat)
    requires OnlyAt(list, k, u) && u < |list| && list[u].Some?
    ensures Entries(list[u := Some((k, v))]) == Replace(Entries(list), k, v)
    decreases |list|
  {
    hide Entries, Replace;
    var p, x := list[..|list| - 1], list[|list| - 1];
    assert list == p + [x];
    OnlyAtInit(p, x, k, u);
    EntriesMore(p, x);
    if x.Some? { PairsMore(Entries(p), x.value, k, v); }
    if u == |p| {
      EntriesMore(p, Some((k, v)));
      assert list[u := Some((k, v))] == p + [Some((k, v))];
      ReplaceNone(p, k, v);
    } else {
      EntriesReplaced(p, k, v, u);
      EntriesMore(p[u := Some((k, v))], x);
      assert list[u := Some((k, v))] == p[u := Some((k, v))] + [x];
      assert Entries(p) + [] == Entries(p) && Entries(p[u := Some((k, v))]) + [] == Entries(p[u := Some((k, v))]);
    }
  }

  lemma {:induction false} ReplaceNone<K, V>(p: seq<Option<(K, V)>>, k: K, v: V)
    requires OnlyAt(p, k, |p|)
    ensures Replace(Entries(p), k, v) == Entries(p) == Drop(Entries(p), k)
  {
    forall e | e in Entries(p)
      ensures e.0 != k
    {
      EntriesAre(p, e);
    }
    ReplaceSame(Entries(p), k, v);
    DropNone(Entries(p), k);
  }

  lemma {:induction false} EntriesDropped<K, V>(list: seq<Option<(K, V)>>, k: K, v: V, u: nat)
    requires OnlyAt(list, k, u) && u < |list|
    ensures Entries(list[u := None]) == Drop(Entries(list), k)
    decreases |list|
  {
    hide Entries, Drop;
    var p, x := list[..|list| - 1], list[|list| - 1];
    assert list == p + [x];
    OnlyAtInit(p, x, k, u);
    EntriesMore(p, x);
    if x.Some? { PairsMore(Entries(p), x.value, k, v); }
    if u == |p| {
      EntriesMore(p, None);
      assert list[u := None] == p + [None];
      ReplaceNone(p, k, v);
      assert Entries(p) + [] == Entries(p);
    } else {
      EntriesDropped(p, k, v, u);
      EntriesMore(p[u := None], x);
      assert list[u := None] == p[u := None] + [x];
      assert Entries(p) + [] == Entries(p) && Entries(p[u := None]) + [] == Entries(p[u := None]);
      assert Drop(Entries(p), k) + [] == Drop(Entries(p), k);
    }
  }

  lemma {:induction false} EntriesCompact<K, V>(list: seq<Option<(K, V)>>, k: K, v: V, u: nat)
    requires OnlyAt(list, k, u)
    ensures Entries(Compact(list, u)) == Drop(Entries(list), k) && |Compact(list, u)| == |Entries(Compact(list, u))|
    decreases |list|
  {
    if |list| > 0 {
      hide Entries, Drop, Compact;
      var p, x := list[..|list| - 1], list[|list| - 1];
      assert list == p + [x];
      OnlyAtInit(p, x, k, u);
      EntriesMore(p, x);
      CompactMore(p, x, u);
      EntriesCompact(p, k, v, u);
      if x.Some? { PairsMore(Entries(p), x.value, k, v); }
      EntriesMore(Compact(p, u), x);
      assert Entries(p) + [] == Entries(p) && Compact(p, u) + [] == Compact(p, u)
        && Drop(Entries(p), k) + [] == Drop(Entries(p), k);
    }
  }

  lemma Appended<K, V>(m: Ordered<K, V>, k: K, v: V)
    requires Valid(m) && k !in m.index
    ensures Valid(Ordered(m.index[k := |m.list|], m.list + [Some((k, v))])) && |m.index[k := |m.list|]| == |m.index| + 1
  {
    assert m.index[k := |m.list|].Keys == m.index.Keys + {k};
  }

  lemma IndexMore<K, V>(p: seq<Option<(K, V)>>, x: Option<(K, V)>)
    requires x.Some? && forall y | y in p :: y.Some?
    ensures forall y | y in p + [x] :: y.Some?
    ensures IndexOf(p + [x]) == IndexOf(p)[x.value.0 := |p|]
  {
    assert (p + [x])[..|p|] == p;
  }

  lemma {:induction false} IndexFull<K, V>(list: seq<Option<(K, V)>>)
    requires forall p | p in list :: p.Some?
    requires forall i, j | 0 <= i < j < |list| :: list[i].value.0 != list[j].value.0
    ensures Valid(Ordered(IndexOf(list), list)) && |IndexOf(list)| == |list|
    decreases |list|
  {
    if |list| > 0 {
      hide IndexOf;
      var p, x := list[..|list| - 1], list[|list| - 1];
      assert list == p + [x] && x in list;
      assert forall i | 0 <= i < |p| :: p[i] == list[i];
      IndexFull(p);
      IndexMore(p, x);
      var k := x.value.0;
      assert list[|p|] == x;
      Appended(Ordered(IndexOf(p), p), k, x.value.1);
    } else {
      assert IndexOf(list) == map[];
    }
  }

  ghost predicate KeysApart<K, V>(list: seq<Option<(K, V)>>) {
    forall i, j | 0 <= i < j < |list| && list[i].Some? && list[j].Some? :: list[i].value.0 != list[j].value.0
  }

  // What Compact keeps are some of the pairs: their keys are as distinct as they were.
  lemma {:induction false} CompactDistinct<K, V>(list: seq<Option<(K, V)>>, u: nat)
    requires KeysApart(list)
    ensures (forall p | p in Compact(list, u) :: p in list && p.Some?) && KeysApart(Compact(list, u))
    decreases |list|
  {
    if |list| > 0 {
      hide Compact;
      var p, x := list[..|list| - 1], list[|list| - 1];
      assert list == p + [x];
      CompactMore(p, x, u);
      ApartFirst(p, x);
      CompactDistinct(p, u);
      assert forall y | y in Compact(p, u) && x.Some? :: y in p && y.value.0 != x.value.0;
    } else {
      assert Compact(list, u) == [];
    }
  }

  lemma ValidDistinct<K, V>(m: Ordered<K, V>)
    requires Valid(m)
    ensures KeysApart(m.list)
  {
  }

  lemma Present<K, V>(m: Ordered<K, V>, k: K)
    requires Valid(m)
    ensures k in m.index <==> exists e :: e in Entries(m.list) && e.0 == k
    ensures k in m.index ==> OnlyAt(m.list, k, m.index[k]) && (k, m.list[m.index[k]].value.1) in Entries(m.list)
  {
    if k in m.index {
      EntriesAre(m.list, m.list[m.index[k]].value);
    }
    forall e | e in Entries(m.list)
      ensures e.0 in m.index
    {
      EntriesAre(m.list, e);
    }
  }

  lemma {:induction false} ReplaceSame<K, V>(es: seq<(K, V)>, k: K, v: V)
    requires forall e | e in es && e.0 == k :: e.1 == v
    ensures Replace(es, k, v) == es
    decreases |es|
  {
    var n := |es|;
    if n > 0 {
      assert es[n - 1] in es && es == es[..n - 1] + [es[n - 1]];
      ReplaceSame(es[..n - 1], k, v);
    }
  }

  lemma {:induction false} DropNone<K, V>(es: seq<(K, V)>, k: K)
    requires forall e | e in es :: e.0 != k
    ensures Drop(es, k) == es
    decreases |es|
  {
    var n := |es|;
    if n > 0 {
      assert es[n - 1] in es && es == es[..n - 1] + [es[n - 1]];
      DropNone(es[..n - 1], k);
    }
  }

  // ---------------------------------------------------------------------
  // The theorems
  // ---------------------------------------------------------------------

  ghost predicate Has<K, V>(es: seq<(K, V)>, k: K) {
    exists e :: e in es && e.0 == k
  }

  // The list with its holes closed, but for the pair of k.
  lemma Compacted<K, V>(m: Ordered<K, V>, k: K)
    requires Valid(m) && k in m.index
    ensures var c := Compact(m.list, m.index[k]);
      (forall p | p in c :: p.Some?) && Valid(Ordered(IndexOf(c), c)) && |IndexOf(c)| == |c|
  {
    hide Compact, IndexOf;
    ValidDistinct(m);
    CompactIsFull(m.list, m.index[k]);
    CompactDistinct(m.list, m.index[k]);
    IndexFull(Compact(m.list, m.index[k]));
  }

  // The list with a hole for k, or without its end.
  lemma Emptied<K, V>(m: Ordered<K, V>, k: K)
    requires Valid(m) && k in m.index
    ensures var u := m.index[k];
      && u < |m.list| && |m.index - {k}| == |m.index| - 1
      && Valid(Ordered(m.index - {k}, m.list[u := None]))
      && (u == |m.list| - 1 ==> Valid(Ordered(m.index - {k}, m.list[..u])))
  {
    assert (m.index - {k}).Keys == m.index.Keys - {k};
  }

  lemma Rewritten<K, V>(m: Ordered<K, V>, k: K, v: V)
    requires Valid(m) && k in m.index
    ensures m.index[k] < |m.list| && Valid(Ordered(m.index, m.list[m.index[k] := Some((k, v))]))
  {
  }

  /** Index and list still agree after an update. */
  lemma UpdateValid<K, V>(m: Ordered<K, V>, k: K, v: Option<V>)
    requires Valid(m)
    ensures Valid(Update(m, k, v))
  {
    hide Valid, Compact, IndexOf;
    if k in m.index {
      Compacted(m, k);
      Emptied(m, k);
      if v.Some? { Rewritten(m, k, v.value); }
    } else if v.Some? {
      Appended(m, k, v.value);
    }
  }

  /**
   An update is the update of the list of pairs: setting keeps the place of a key and puts a new one
   last, removing keeps the order.
   */
  lemma UpdateRefines<K, V>(m: Ordered<K, V>, k: K, v: Option<V>)
    requires Valid(m)
    ensures Entries(Update(m, k, v).list) == if v == None then Drop(Entries(m.list), k)
      else Put(Entries(m.list), k, v.value)
  {
    hide Entries, Drop, Replace, Compact;
    Present(m, k);
    var es := Entries(m.list);
    if v == None {
      if k in m.index {
        var u := m.index[k];
        var w := m.list[u].value.1;
        EntriesCompact(m.list, k, w, u);
        EntriesDropped(m.list, k, w, u);
        var n := |m.list| - 1;
        if u == n {
          EntriesMore(m.list[..u], None);
          assert m.list[u := None] == m.list[..u] + [None];
          assert Entries(m.list[..u]) + [] == Entries(m.list[..u]);
        }
      } else {
        assert forall e | e in es :: e.0 != k;
        DropNone(es, k);
      }
    } else if k in m.index {
      var u := m.index[k];
      EntriesReplaced(m.list, k, v.value, u);
      if v.value == m.list[u].value.1 {
        assert m.list[u := Some((k, v.value))] == m.list;
      }
    } else {
      EntriesMore(m.list, Some((k, v.value)));
    }
  }

  // A valid map without the last place of its list.
  lemma Shorter<K, V>(m: Ordered<K, V>)
    requires Valid(m) && |m.list| > 0
    ensures var p, x := m.list[..|m.list| - 1], m.list[|m.list| - 1];
      && m.list == p + [x]
      && if x.Some? then |m.index - {x.value.0}| == |m.index| - 1 && Valid(Ordered(m.index - {x.value.0}, p))
          else Valid(Ordered(m.index, p))
  {
    hide Valid;
    var p, x := m.list[..|m.list| - 1], m.list[|m.list| - 1];
    assert m.list == p + [x];
    if x.Some? {
      WithoutLast(m.index, p, x.value);
      FewerKeys(m.index, x.value.0);
    } else {
      WithoutHole(m.index, p);
    }
  }

  lemma WithoutLast<K, V>(index: map<K, nat>, p: seq<Option<(K, V)>>, e: (K, V))
    requires Valid(Ordered(index, p + [Some(e)]))
    ensures e.0 in index && Valid(Ordered(index - {e.0}, p))
  {
    var list := p + [Some(e)];
    assert list[|p|] == Some(e) && forall i | 0 <= i < |p| :: list[i] == p[i];
  }

  lemma WithoutHole<K, V>(index: map<K, nat>, p: seq<Option<(K, V)>>)
    requires Valid(Ordered(index, p + [None]))
    ensures Valid(Ordered(index, p))
  {
    var list := p + [None];
    assert list[|p|] == None && forall i | 0 <= i < |p| :: list[i] == p[i];
  }

  lemma FewerKeys<K, V>(index: map<K, V>, k: K)
    requires k in index
    ensures |index - {k}| == |index| - 1
  {
    assert (index - {k}).Keys == index.Keys - {k};
  }

  lemma {:induction false} CountEntries<K, V>(m: Ordered<K, V>)
    requires Valid(m)
    ensures |Entries(m.list)| == |m.index|
    decreases |m.list|
  {
    if |m.list| > 0 {
      hide Valid, Entries;
      Shorter(m);
      var p, x := m.list[..|m.list| - 1], m.list[|m.list| - 1];
      EntriesMore(p, x);
      CountEntries(Ordered(if x.Some? then m.index - {x.value.0} else m.index, p));
    } else {
      assert m.index.Keys == {};
    }
  }

  /** The list is never much longer than the map: with m keys at most m + max(31, m + 1). */
  lemma UpdateTight<K, V>(m: Ordered<K, V>, k: K, v: Option<V>)
    requires Valid(m) && Tight(m)
    ensures Tight(Update(m, k, v))
  {
    hide Valid, Compact, IndexOf;
    if k in m.index {
      Compacted(m, k);
      Emptied(m, k);
    } else if v.Some? {
      Appended(m, k, v.value);
    }
  }

  /**
   Holes are closed just by the removal of a key that is there, from a list of 32 places or more of which
   at most half hold keys; then none is left. In all other cases the other keys keep their places, and
   the list grows by one for a new key, and shrinks by one for the key in its last place.
   */
  lemma UpdatePlaces<K, V>(m: Ordered<K, V>, k: K, v: Option<V>)
    requires Valid(m)
    ensures var t := Update(m, k, v);
      if v == None && k in m.index && |m.list| > 31 && |m.index| + |m.index| <= |m.list|
      then |t.list| == |t.index|
      else
        && (forall j | j in m.index && j != k :: j in t.index && t.index[j] == m.index[j])
        && |t.list| == |m.list|
          + (if v.Some? && k !in m.index then 1 else 0)
          - (if v == None && k in m.index && m.index[k] + 1 == |m.list| then 1 else 0)
  {
    if v == None && k in m.index {
      Compacted(m, k);
      FewerKeys(m.index, k);
    }
  }

  datatype Op<K, V> = Set(key: K, value: V) | Remove(key: K) | Clear

  function Step<K, V(==)>(m: Ordered<K, V>, op: Op<K, V>): Ordered<K, V>
    requires Valid(m)
  {
    match op
    case Set(k, v) => Update(m, k, Some(v))
    case Remove(k) => Update(m, k, None)
    case Clear => Ordered(map[], [])
  }

  ghost function Meaning<K, V>(ops: seq<Op<K, V>>): seq<(K, V)> {
    var n := |ops|;
    if n == 0 then []
    else match ops[n - 1]
      case Set(k, v) => Put(Meaning(ops[..n - 1]), k, v)
      case Remove(k) => Drop(Meaning(ops[..n - 1]), k)
      case Clear => []
  }

  lemma StepValid<K, V>(m: Ordered<K, V>, op: Op<K, V>)
    requires Valid(m)
    ensures Valid(Step(m, op))
  {
    match op
    case Set(k, v) => UpdateValid(m, k, Some(v));
    case Remove(k) => UpdateValid(m, k, None);
    case Clear =>
  }

  // The map that a run reaches from the empty one.
  function Run<K, V(==)>(ops: seq<Op<K, V>>): (m: Ordered<K, V>)
    ensures Valid(m)
  {
    var n := |ops|;
    if n == 0 then Ordered(map[], [])
    else
      StepValid(Run(ops[..n - 1]), ops[n - 1]);
      Step(Run(ops[..n - 1]), ops[n - 1])
  }

  /**
   Every run: what is iterated is the list of pairs it stands for, of which each key occurs once,
   size counts it, a lookup finds just its pairs, and the list keeps few holes.
   */
  lemma {:induction false} ReachableRefines<K, V>(ops: seq<Op<K, V>>)
    ensures var m := Run(ops);
      && Tight(m) && Entries(m.list) == Meaning(ops) && |m.index| == |Meaning(ops)| && Distinct(Meaning(ops))
      && forall k, v :: Get(m, k) == Some(v) <==> (k, v) in Meaning(ops)
    decreases |ops|
  {
    var n, m := |ops|, Run(ops);
    if n > 0 {
      var b := Run(ops[..n - 1]);
      ReachableRefines(ops[..n - 1]);
      match ops[n - 1]
      case Set(k, v) =>
        UpdateRefines(b, k, Some(v));
        UpdateTight(b, k, Some(v));
      case Remove(k) =>
        UpdateRefines(b, k, None);
        UpdateTight(b, k, None);
      case Clear =>
    }
    CountEntries(m);
    EntriesDistinct(m);
    GetIs(m);
  }

  lemma GetIs<K, V>(m: Ordered<K, V>)
    requires Valid(m)
    ensures forall k, v :: Get(m, k) == Some(v) <==> (k, v) in Entries(m.list)
  {
    forall k, v
      ensures Get(m, k) == Some(v) <==> (k, v) in Entries(m.list)
    {
      EntriesAre(m.list, (k, v));
      Present(m, k);
    }
  }

  lemma EntriesDistinct<K, V>(m: Ordered<K, V>)
    requires Valid(m)
    ensures Distinct(Entries(m.list))
  {
    hide Valid, Entries, Distinct, KeysApart;
    ValidDistinct(m);
    ApartDistinct(m.list);
  }

  lemma {:induction false} ApartDistinct<K, V>(list: seq<Option<(K, V)>>)
    requires KeysApart(list)
    ensures Distinct(Entries(list))
    decreases |list|
  {
    hide Entries;
    if |list| > 0 {
      var p, x := list[..|list| - 1], list[|list| - 1];
      assert list == p + [x];
      ApartFirst(p, x);
      EntriesMore(p, x);
      ApartDistinct(p);
      forall e | e in Entries(p) && x.Some?
        ensures e.0 != x.value.0
      {
        EntriesAre(p, e);
      }
    } else {
      NoEntries(list);
    }
  }

  lemma ApartFirst<K, V>(p: seq<Option<(K, V)>>, x: Option<(K, V)>)
    requires KeysApart(p + [x])
    ensures KeysApart(p)
    ensures forall y | y in p && x.Some? && y.Some? :: y.value.0 != x.value.0
  {
    var all := p + [x];
    assert all[|p|] == x && forall i | 0 <= i < |p| :: all[i] == p[i];
  }

  lemma NoEntries<K, V>(list: seq<Option<(K, V)>>)
    requires list == []
    ensures Entries(list) == []
  {
  }
}
