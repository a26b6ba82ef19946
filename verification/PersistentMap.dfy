/**
 Immutable's Map, module 43393: a size and a root (oe, ce and the array node $t),
 proved against a mathematical map.
 */
module PersistentMap {
  import opened Wrappers
  import opened HashTrie

  datatype Map<V> = Map(size: nat, root: Option<Node<V>>)

  function GetRoot<V>(t: Node<V>, k: Key): Option<V>
    requires ShapedRoot(t)
  {
    if t.ArrayMap? then GetIn(t.entries, k) else Get(t, 0, k)
  }

  function GetFrom<V>(m: Map<V>, k: Key): Option<V>
    requires Valid(m)
  {
    if m.root.None? then None else GetRoot(m.root.value, k)
  }

  // The loop of ce: entries move one by one from the array into the trie i.
  function Move<V(==)>(i: Node<V>, es: seq<Entry<V>>): Node<V>
    requires Shaped(i, [])
    decreases |es|
  {
    if |es| == 0 then i else
      UpdateCorrect(i, 0, es[0].key, Some(es[0].value));
      Move(Update(i, 0, es[0].key, Some(es[0].value)).node.value, es[1..])
  }

  function Create<V(==)>(es: seq<Entry<V>>, e: Entry<V>): Node<V> {  // ce
    Move(Leaf(e.key.hash, e), es)
  }

  function UpdateArrayMap<V(==)>(es: seq<Entry<V>>, k: Key, v: Option<V>): Updated<V> {  // $t.update
    var i := FindEntry(es, k);
    var found := i < |es|;
    if (if found then v == Some(es[i].value) else v.None?) then Updated(Some(ArrayMap(es)), false, false)
    else if v.None? then
      if |es| == 1 then Updated(None, true, true) else Updated(Some(ArrayMap(RemoveAt(es, i))), true, true)
    else if found then Updated(Some(ArrayMap(es[i := Entry(k, v.value)])), true, false)
    else if |es| >= ARRAY_MAX then Updated(Some(Create(es, Entry(k, v.value))), true, true)
    else Updated(Some(ArrayMap(es + [Entry(k, v.value)])), true, true)
  }

  function UpdateRoot<V(==)>(t: Node<V>, k: Key, v: Option<V>): Updated<V>
    requires ShapedRoot(t)
  {
    if t.ArrayMap? then UpdateArrayMap(t.entries, k, v) else Update(t, 0, k, v)
  }

  function UpdateMap<V(==)>(m: Map<V>, k: Key, v: Option<V>): Map<V>  // oe
    requires Valid(m)
  {
    if m.root.None? then
      if v.None? then m else Map(1, Some(ArrayMap([Entry(k, v.value)])))
    else
      var u := UpdateRoot(m.root.value, k, v);
      UpdateRootCorrect(m.root.value, k, v);
      if !u.altered then m
      else if u.node.None? then Map(0, None)
      else
        var size := if !u.resized then m.size else if v.None? then m.size - 1 else m.size + 1;
        Map(size, u.node)
  }

  ghost predicate Valid<V>(m: Map<V>) {
    if m.root.None? then m.size == 0
    else ShapedRoot(m.root.value) && m.size == |Pairs(m.root.value)|
  }

  // ---------------------------------------------------------------------
  // The root node
  // ---------------------------------------------------------------------

  lemma GetRootCounts<V>(t: Node<V>, e: Entry<V>)
    requires ShapedRoot(t)
    ensures Pairs(t)[e] == if GetRoot(t, e.key) == Some(e.value) then 1 else 0
  {
    if t.ArrayMap? { CountDistinct(t.entries, e); } else { GetCounts(t, [], e); }
  }

  lemma StillAbsent<V>(i: Node<V>, n: Node<V>, e: Entry<V>, k: Key)
    requires Shaped(i, []) && Shaped(n, []) && Pairs(n) == Pairs(i) + multiset{e}
    requires k != e.key && Get(i, 0, k) == None
    ensures Get(n, 0, k) == None
  {
    var x := Get(n, 0, k);
    if x.Some? {
      GetCounts(n, [], Entry(k, x.value));
      GetCounts(i, [], Entry(k, x.value));
    }
  }

  lemma InsertNew<V>(i: Node<V>, e: Entry<V>)
    requires Shaped(i, []) && Get(i, 0, e.key) == None
    ensures var n := Update(i, 0, e.key, Some(e.value)).node;
      n.Some? && Shaped(n.value, []) && Pairs(n.value) == Pairs(i) + multiset{e}
  {
    hide Update, Get, Shaped, Pairs;
    UpdateCorrect(i, 0, e.key, Some(e.value));
  }

  lemma {:induction false} MoveCorrect<V>(i: Node<V>, es: seq<Entry<V>>)
    requires Shaped(i, []) && Distinct(es)
    requires forall j | 0 <= j < |es| :: Get(i, 0, es[j].key) == None
    ensures Shaped(Move(i, es), [])
    ensures Pairs(Move(i, es)) == Pairs(i) + multiset(es)
    decreases |es|
  {
    hide Update, Get, Shaped, Pairs;
    if |es| > 0 {
      var e, rest := es[0], es[1..];
      InsertNew(i, e);
      var n := Update(i, 0, e.key, Some(e.value)).node.value;
      forall j | 0 <= j < |rest|
        ensures Get(n, 0, rest[j].key) == None
      {
        assert rest[j] == es[j + 1];
        StillAbsent(i, n, e, rest[j].key);
      }
      MoveCorrect(n, rest);
      assert es == [e] + rest;
      assert multiset([e] + rest) == multiset{e} + multiset(rest);
    }
  }

  lemma ArrayMapCorrect<V>(es: seq<Entry<V>>, k: Key, v: Option<V>)
    requires ShapedRoot(ArrayMap(es))
    ensures CorrectRoot(ArrayMap(es), k, v, UpdateArrayMap(es, k, v))
  {
    if FindEntry(es, k) < |es| {
      if v.None? { ArrayRemoves(es, k); } else { ArrayReplaces(es, k, v.value); }
    } else if v.Some? {
      if |es| < ARRAY_MAX { ArrayAppends(es, k, v.value); } else { ArrayConverts(es, k, v.value); }
    }
  }

  lemma ArrayRemoves<V>(es: seq<Entry<V>>, k: Key)
    requires ShapedRoot(ArrayMap(es)) && FindEntry(es, k) < |es|
    ensures CorrectRoot(ArrayMap(es), k, None, UpdateArrayMap(es, k, None))
  {
    RemoveAtCorrect(es, FindEntry(es, k));
    if |es| == 1 { assert es == [es[0]]; }
  }

  lemma ArrayReplaces<V>(es: seq<Entry<V>>, k: Key, v: V)
    requires ShapedRoot(ArrayMap(es)) && FindEntry(es, k) < |es|
    ensures CorrectRoot(ArrayMap(es), k, Some(v), UpdateArrayMap(es, k, Some(v)))
  {
    SetAtCorrect(es, FindEntry(es, k), Entry(k, v));
  }

  lemma ArrayAppends<V>(es: seq<Entry<V>>, k: Key, v: V)
    requires ShapedRoot(ArrayMap(es)) && FindEntry(es, k) == |es| < ARRAY_MAX
    ensures CorrectRoot(ArrayMap(es), k, Some(v), UpdateArrayMap(es, k, Some(v)))
  {
  }

  // A full array becomes a trie of all its entries and the new one.
  lemma ArrayConverts<V>(es: seq<Entry<V>>, k: Key, v: V)
    requires ShapedRoot(ArrayMap(es)) && FindEntry(es, k) == |es| == ARRAY_MAX
    ensures CorrectRoot(ArrayMap(es), k, Some(v), UpdateArrayMap(es, k, Some(v)))
  {
    CreateCorrect(es, Entry(k, v));
    var t := Create(es, Entry(k, v));
    assert UpdateArrayMap(es, k, Some(v)) == Updated(Some(t), true, true);
    assert PairsOfSlot(Some(t)) + Just(k, None) == Pairs(ArrayMap(es)) + Just(k, Some(v));
  }

  lemma CreateCorrect<V>(es: seq<Entry<V>>, e: Entry<V>)
    requires Distinct(es) && forall j | 0 <= j < |es| :: es[j].key != e.key
    ensures Shaped(Create(es, e), []) && Pairs(Create(es, e)) == multiset(es) + multiset{e}
  {
    var leaf := Leaf(e.key.hash, e);
    assert Shaped(leaf, []);
    MoveCorrect(leaf, es);
  }

  ghost predicate CorrectRoot<V>(t: Node<V>, k: Key, v: Option<V>, r: Updated<V>)
    requires ShapedRoot(t)
  {
    var was := GetRoot(t, k);
    && (r.node.Some? ==> ShapedRoot(r.node.value))
    && PairsOfSlot(r.node) + Just(k, was) == Pairs(t) + Just(k, v)
    && (r.altered <==> was != v)
    && (r.resized <==> was.Some? != v.Some?)
    && (!r.altered ==> r.node == Some(t))
  }

  lemma UpdateRootCorrect<V>(t: Node<V>, k: Key, v: Option<V>)
    requires ShapedRoot(t)
    ensures CorrectRoot(t, k, v, UpdateRoot(t, k, v))
    ensures GetRoot(t, k).Some? ==> |Pairs(t)| > 0
  {
    if t.ArrayMap? { ArrayMapCorrect(t.entries, k, v); } else { UpdateCorrect(t, 0, k, v); }
    var was := GetRoot(t, k);
    if was.Some? { GetRootCounts(t, Entry(k, was.value)); }
  }

  // ---------------------------------------------------------------------
  // The map refines a mathematical map
  // ---------------------------------------------------------------------

  ghost function PairsOf<V>(m: Map<V>): multiset<Entry<V>> {
    PairsOfSlot(m.root)
  }

  ghost function Contents<V>(m: Map<V>): map<Key, V>
    requires Valid(m)
  {
    map k | k in KeysOf(PairsOf(m)) && GetFrom(m, k).Some? :: GetFrom(m, k).value
  }

  ghost function KeysOf<V>(p: multiset<Entry<V>>): set<Key> {
    set e | e in p :: e.key
  }

  lemma PairsCount<V>(m: Map<V>, e: Entry<V>)
    requires Valid(m)
    ensures PairsOf(m)[e] == if GetFrom(m, e.key) == Some(e.value) then 1 else 0
  {
    if m.root.Some? { GetRootCounts(m.root.value, e); }
  }

  /** get is lookup in the mathematical map. */
  lemma GetRefines<V>(m: Map<V>, k: Key)
    requires Valid(m)
    ensures GetFrom(m, k) == if k in Contents(m) then Some(Contents(m)[k]) else None
  {
    var x := GetFrom(m, k);
    if x.Some? {
      PairsCount(m, Entry(k, x.value));
      assert Entry(k, x.value) in PairsOf(m);
    }
  }

  lemma UpdateMapPairs<V>(m: Map<V>, k: Key, v: Option<V>)
    requires Valid(m)
    ensures Valid(UpdateMap(m, k, v))
    ensures PairsOf(UpdateMap(m, k, v)) + Just(k, GetFrom(m, k)) == PairsOf(m) + Just(k, v)
  {
    var r := UpdateMap(m, k, v);
    if m.root.Some? {
      var t := m.root.value;
      UpdateRootCorrect(t, k, v);
      var u := UpdateRoot(t, k, v);
      var was := GetRoot(t, k);
      assert |PairsOfSlot(u.node) + Just(k, was)| == |Pairs(t) + Just(k, v)|;
    }
  }

  // A removal that empties the root leaves nothing behind.
  lemma EmptiedRoot<V>(t: Node<V>, k: Key, v: Option<V>)
    requires ShapedRoot(t)
    ensures var u := UpdateRoot(t, k, v);
      u.altered && u.node.None? ==> u.resized && v.None? && |Pairs(t)| == 1
  {
    UpdateRootCorrect(t, k, v);
    var u, was := UpdateRoot(t, k, v), GetRoot(t, k);
    if u.altered && u.node.None? {
      assert multiset{} + Just(k, was) == Pairs(t) + Just(k, v);
      assert Pairs(t) == multiset{Entry(k, was.value)};
    }
  }

  lemma UpdateToSame<V>(m: Map<V>, k: Key, v: Option<V>)
    requires Valid(m) && GetFrom(m, k) == v
    ensures UpdateMap(m, k, v) == m
  {
    if m.root.Some? { UpdateRootCorrect(m.root.value, k, v); }
  }

  lemma SizeZero<V>(m: Map<V>)
    requires Valid(m) && m.size == 0
    ensures m == Map(0, None)
  {
    if m.root.Some? && !m.root.value.ArrayMap? { ShapedHolds(m.root.value, []); }
  }

  // oe on a map that has a root.
  lemma UpdateMapStep<V>(m: Map<V>, k: Key, v: Option<V>)
    requires Valid(m) && m.root.Some?
    ensures var u := UpdateRoot(m.root.value, k, v);
      && (u.altered <==> GetFrom(m, k) != v)
      && (!u.altered ==> u.node == m.root)
      && (u.resized && v.None? ==> m.size > 0)
      && (u.altered && u.node.None? ==> u.resized && v.None? && m.size == 1)
      && UpdateMap(m, k, v) ==
        (if !u.altered then m
         else Map(if !u.resized then m.size else if v.None? then m.size - 1 else m.size + 1, u.node))
      && Valid(UpdateMap(m, k, v))
  {
    UpdateRootCorrect(m.root.value, k, v);
    EmptiedRoot(m.root.value, k, v);
    UpdateMapPairs(m, k, v);
  }

  /** set and remove, lookup by lookup: the new result at k, the old result at every other key. */
  lemma LookupAfterUpdate<V>(m: Map<V>, k: Key, v: Option<V>, other: Key)
    requires Valid(m)
    ensures Valid(UpdateMap(m, k, v))
    ensures GetFrom(UpdateMap(m, k, v), other) == if other == k then v else GetFrom(m, other)
  {
    var r := UpdateMap(m, k, v);
    UpdateMapPairs(m, k, v);
    forall x: V
      ensures GetFrom(r, other) == Some(x) <==> (if other == k then v else GetFrom(m, other)) == Some(x)
    {
      var e := Entry(other, x);
      PairsCount(r, e);
      PairsCount(m, e);
      assert (PairsOf(r) + Just(k, GetFrom(m, k)))[e] == (PairsOf(m) + Just(k, v))[e];
    }
    var a, b := GetFrom(r, other), if other == k then v else GetFrom(m, other);
    assert a.Some? ==> b == Some(a.value);
    assert b.Some? ==> a == Some(b.value);
  }

  /** set and remove on the mathematical map. */
  lemma UpdateRefines<V>(m: Map<V>, k: Key, v: Option<V>)
    requires Valid(m)
    ensures Valid(UpdateMap(m, k, v))
    ensures Contents(UpdateMap(m, k, v)) == if v.Some? then Contents(m)[k := v.value] else Contents(m) - {k}
  {
    hide UpdateMap, GetFrom, Contents, Valid;
    var r := UpdateMap(m, k, v);
    UpdateMapPairs(m, k, v);
    var want := if v.Some? then Contents(m)[k := v.value] else Contents(m) - {k};
    forall other: Key
      ensures other in Contents(r) <==> other in want
      ensures other in want ==> Contents(r)[other] == want[other]
    {
      LookupAfterUpdate(m, k, v, other);
      GetRefines(m, other);
      GetRefines(r, other);
    }
  }

  /** The size field counts the keys. */
  lemma SizeRefines<V>(m: Map<V>)
    requires Valid(m)
    ensures m.size == |Contents(m)|
  {
    forall e | e in PairsOf(m)
      ensures PairsOf(m)[e] == 1 && GetFrom(m, e.key) == Some(e.value)
    {
      PairsCount(m, e);
    }
    KeysCount(PairsOf(m));
    assert Contents(m).Keys == KeysOf(PairsOf(m));
    assert |Contents(m)| == |Contents(m).Keys|;
  }

  lemma {:induction false} KeysCount<V>(p: multiset<Entry<V>>)
    requires forall e | e in p :: p[e] == 1
    requires forall e, f | e in p && f in p && e.key == f.key :: e == f
    ensures |KeysOf(p)| == |p|
    decreases |p|
  {
    if |p| > 0 {
      var e :| e in p;
      var q := p - multiset{e};
      KeysCount(q);
      assert KeysOf(p) == KeysOf(q) + {e.key};
      assert e.key !in KeysOf(q);
    }
  }

  // ---------------------------------------------------------------------
  // iterate
  // ---------------------------------------------------------------------

  function Iterate<V>(t: Node<V>): seq<Entry<V>>
    decreases t
  {
    match t
    case ArrayMap(es) => es
    case Collision(_, es) => es
    case Leaf(_, e) => [e]
    case Bitmap(_, ns) => IterateNodes(ns)
    case HashArray(_, slots) => IterateSlots(slots)
  }

  function IterateNodes<V>(ns: seq<Node<V>>): seq<Entry<V>>
    decreases ns
  {
    if |ns| == 0 then [] else IterateNodes(ns[..|ns| - 1]) + Iterate(ns[|ns| - 1])
  }

  function IterateSlots<V>(slots: seq<Option<Node<V>>>): seq<Entry<V>>
    decreases slots
  {
    if |slots| == 0 then []
    else IterateSlots(slots[..|slots| - 1]) + IterateSlot(slots[|slots| - 1])
  }

  function IterateSlot<V>(slot: Option<Node<V>>): seq<Entry<V>>
    decreases slot
  {
    if slot.Some? then Iterate(slot.value) else []
  }

  lemma {:induction false} IteratePairs<V>(t: Node<V>)
    ensures multiset(Iterate(t)) == Pairs(t)
    decreases t
  {
    match t
    case ArrayMap(_) =>
    case Collision(_, _) =>
    case Leaf(_, _) =>
    case Bitmap(_, ns) => IterateNodesPairs(ns);
    case HashArray(_, slots) => IterateSlotsPairs(slots);
  }

  lemma {:induction false} IterateNodesPairs<V>(ns: seq<Node<V>>)
    ensures multiset(IterateNodes(ns)) == PairsOfNodes(ns)
    decreases ns
  {
    if |ns| > 0 {
      IterateNodesPairs(ns[..|ns| - 1]);
      IteratePairs(ns[|ns| - 1]);
    }
  }

  lemma {:induction false} IterateSlotsPairs<V>(slots: seq<Option<Node<V>>>)
    ensures multiset(IterateSlots(slots)) == PairsOfSlots(slots)
    decreases slots
  {
    if |slots| > 0 {
      IterateSlotsPairs(slots[..|slots| - 1]);
      IterateSlotPairs(slots[|slots| - 1]);
    }
  }

  lemma {:induction false} IterateSlotPairs<V>(slot: Option<Node<V>>)
    ensures multiset(IterateSlot(slot)) == PairsOfSlot(slot)
    decreases slot
  {
    if slot.Some? { IteratePairs(slot.value); }
  }

  lemma RepeatedCount<T>(s: seq<T>, i: nat, j: nat)
    requires i < j < |s| && s[i] == s[j]
    ensures multiset(s)[s[i]] >= 2
  {
    assert s == s[..i] + [s[i]] + s[i + 1..j] + [s[j]] + s[j + 1..];
  }

  /** forEach visits every key of the map exactly once, with the value get finds for it. */
  lemma IterateRefines<V>(m: Map<V>)
    requires Valid(m)
    ensures var es := IterateSlot(m.root);
      && |es| == m.size
      && (forall i, j | 0 <= i < j < |es| :: es[i].key != es[j].key)
      && (forall k: Key, v: V :: Entry(k, v) in es <==> k in Contents(m) && Contents(m)[k] == v)
  {
    var es := IterateSlot(m.root);
    IterateSlotPairs(m.root);
    forall k: Key, v: V
      ensures Entry(k, v) in es <==> k in Contents(m) && Contents(m)[k] == v
    {
      PairsCount(m, Entry(k, v));
      GetRefines(m, k);
      assert Entry(k, v) in es <==> Entry(k, v) in multiset(es);
    }
    forall i, j | 0 <= i < j < |es|
      ensures es[i].key != es[j].key
    {
      if es[i].key == es[j].key {
        assert multiset(es)[es[i]] > 0 && multiset(es)[es[j]] > 0;
        PairsCount(m, es[i]);
        PairsCount(m, es[j]);
        RepeatedCount(es, i, j);
      }
    }
  }

  // ---------------------------------------------------------------------
  // Every map that set, remove and clear can reach
  // ---------------------------------------------------------------------

  datatype Op<V> = Set(key: Key, value: V) | Remove(key: Key) | Clear

  function Step<V(==)>(m: Map<V>, op: Op<V>): Map<V>
    requires Valid(m)
  {
    match op
    case Set(k, v) => UpdateMap(m, k, Some(v))
    case Remove(k) => UpdateMap(m, k, None)
    case Clear => Map(0, None)
  }

  lemma StepValid<V>(m: Map<V>, op: Op<V>)
    requires Valid(m)
    ensures Valid(Step(m, op))
  {
    if !op.Clear? { UpdateMapPairs(m, op.key, if op.Set? then Some(op.value) else None); }
  }

  function RunFrom<V(==)>(m: Map<V>, ops: seq<Op<V>>): (r: Map<V>)
    requires Valid(m)
    ensures Valid(r)
    decreases |ops|
  {
    if |ops| == 0 then m
    else
      var before, op := RunFrom(m, ops[..|ops| - 1]), ops[|ops| - 1];
      StepValid(before, op);
      Step(before, op)
  }

  ghost function MeaningFrom<V>(c: map<Key, V>, ops: seq<Op<V>>): map<Key, V>
    decreases |ops|
  {
    if |ops| == 0 then c
    else
      var before := MeaningFrom(c, ops[..|ops| - 1]);
      match ops[|ops| - 1]
      case Set(k, v) => before[k := v]
      case Remove(k) => before - {k}
      case Clear => map[]
  }

  /** After any updates of any map, the trie holds what the updates say, and size counts it. */
  lemma {:induction false} RunFromRefines<V>(m: Map<V>, ops: seq<Op<V>>)
    requires Valid(m)
    ensures Contents(RunFrom(m, ops)) == MeaningFrom(Contents(m), ops)
    ensures RunFrom(m, ops).size == |MeaningFrom(Contents(m), ops)|
    decreases |ops|
  {
    if |ops| > 0 {
      var before, op := ops[..|ops| - 1], ops[|ops| - 1];
      RunFromRefines(m, before);
      if !op.Clear? { UpdateRefines(RunFrom(m, before), op.key, if op.Set? then Some(op.value) else None); }
    }
    SizeRefines(RunFrom(m, ops));
  }

  /** In every state reachable from the empty map: contents, size, lookups and the shape of the trie. */
  lemma ReachableRefines<V>(ops: seq<Op<V>>, k: Key)
    ensures var m, c := RunFrom(Map(0, None), ops), MeaningFrom(map[], ops);
      && Contents(m) == c
      && m.size == |c|
      && GetFrom(m, k) == (if k in c then Some(c[k]) else None)
      && (m.root.Some? ==> ShapedRoot(m.root.value))
  {
    var empty: Map<V> := Map(0, None);
    RunFromRefines(empty, ops);
    assert Contents(empty) == map[];
    GetRefines(RunFrom(empty, ops), k);
  }
}
