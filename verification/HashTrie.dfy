/**
 The persistent hash map of module 43393 (Immutable 3.8): a trie that consumes a
 32-bit hash five bits at a time, with five kinds of node.

   source   here          holds
   $t       ArrayMap      at most 8 entries, only ever the root
   Zt       Bitmap        1 to 16 children, addressed through a bitmap
   Vt       HashArray     8 to 32 children in 32 slots
   Xt       Collision     two or more entries of one hash
   Kt       Leaf          one entry

 A depth d stands for the source's shift 5*d.
 */
module HashTrie {
  import opened Wrappers

  const ARRAY_MAX := 8       // _e
  const BITMAP_MAX := 16     // me
  const HASH_ARRAY_MIN := 8  // be

  type Hash = h: int | 0 <= h < 0x1_0000_0000
  type Slot = s: int | 0 <= s < 32

  // Equal keys hash equally because the hash is part of the key.
  datatype Key = Key(id: int, hash: Hash)
  datatype Entry<V> = Entry(key: Key, value: V)

  datatype Node<V> =
    | ArrayMap(entries: seq<Entry<V>>)
    | Bitmap(bitmap: set<Slot>, nodes: seq<Node<V>>)
    | HashArray(count: nat, slots: seq<Option<Node<V>>>)
    | Collision(keyHash: Hash, entries: seq<Entry<V>>)
    | Leaf(keyHash: Hash, entry: Entry<V>)

  // ---------------------------------------------------------------------
  // Five-bit groups of a hash
  // ---------------------------------------------------------------------

  // h >>> 5*d
  function Drop(h: nat, d: nat): nat {
    if d == 0 then h else Drop(h, d - 1) / 32
  }

  // (h >>> 5*d) & 31
  function SlotAt(h: nat, d: nat): Slot {
    Drop(h, d) % 32
  }

  // The first d groups of h: the way from the root to depth d.
  function Path(h: nat, d: nat): (p: seq<Slot>)
    ensures |p| == d
  {
    if d == 0 then [] else Path(h, d - 1) + [SlotAt(h, d - 1)]
  }

  ghost predicate OnPath(h: nat, path: seq<Slot>) {
    path == Path(h, |path|)
  }

  lemma {:induction false} PathPrefix(h: nat, d: nat, n: nat)
    requires d <= n
    ensures Path(h, n)[..d] == Path(h, d)
    decreases n
  {
    if d < n {
      PathPrefix(h, d, n - 1);
      assert Path(h, n)[..d] == Path(h, n - 1)[..d];
    }
  }

  lemma OnPathChild(h: nat, path: seq<Slot>, s: Slot)
    ensures OnPath(h, path + [s]) <==> OnPath(h, path) && SlotAt(h, |path|) == s
  {
    assert |path + [s]| == |path| + 1;
    assert Path(h, |path| + 1) == Path(h, |path|) + [SlotAt(h, |path|)];
    if OnPath(h, path + [s]) {
      assert path == (path + [s])[..|path|] == Path(h, |path|);
      assert (path + [s])[|path|] == s;
    }
  }

  // A 32-bit hash has no bits beyond its first seven groups.
  lemma {:induction false} DropVanishes(h: Hash, d: nat)
    requires 7 <= d
    ensures Drop(h, d) == 0
    decreases d
  {
    if d == 7 {
      assert Drop(h, 1) == h / 32;
      assert Drop(h, 2) <= h / 1024;
      assert Drop(h, 3) <= h / 32768;
      assert Drop(h, 4) <= h / 1048576;
      assert Drop(h, 5) <= h / 33554432;
      assert Drop(h, 6) <= h / 1073741824;
    } else {
      DropVanishes(h, d - 1);
    }
  }

  lemma {:induction false} SamePathSameHash(a: Hash, b: Hash, d: nat)
    requires d <= 7 && Path(a, 7) == Path(b, 7)
    ensures Drop(a, d) == Drop(b, d)
    decreases 7 - d
  {
    if d == 7 {
      DropVanishes(a, 7);
      DropVanishes(b, 7);
    } else {
      SamePathSameHash(a, b, d + 1);
      PathPrefix(a, d + 1, 7);
      PathPrefix(b, d + 1, 7);
      assert Path(a, d + 1)[d] == Path(b, d + 1)[d];
    }
  }

  // Two different hashes differ in a group at one of the shifts 0, 5, ..., 30.
  lemma DifferentHashesPart(a: Hash, b: Hash)
    requires a != b
    ensures exists d: nat :: d <= 6 && Path(a, d) == Path(b, d) && SlotAt(a, d) != SlotAt(b, d)
  {
    if Path(a, 7) == Path(b, 7) {
      SamePathSameHash(a, b, 0);
    }
    FirstDifference(a, b, 7);
  }

  lemma {:induction false} FirstDifference(a: Hash, b: Hash, n: nat)
    requires Path(a, n) != Path(b, n)
    ensures exists d: nat :: d < n && Path(a, d) == Path(b, d) && SlotAt(a, d) != SlotAt(b, d)
    decreases n
  {
    if Path(a, n - 1) != Path(b, n - 1) {
      FirstDifference(a, b, n - 1);
    } else {
      assert SlotAt(a, n - 1) != SlotAt(b, n - 1);
    }
  }

  // ---------------------------------------------------------------------
  // Bitmaps
  // ---------------------------------------------------------------------

  // ve(bitmap & (1 << u) - 1): the number of set bits below u
  function Rank(b: set<Slot>, u: nat): nat
    requires u <= 32
    decreases b, u
  {
    if u == 0 then 0 else Rank(b, u - 1) + (if u - 1 in b then 1 else 0)
  }

  lemma {:induction false} RankMonotone(b: set<Slot>, i: nat, j: nat)
    requires i <= j <= 32
    ensures Rank(b, i) <= Rank(b, j)
    ensures i < j && i in b ==> Rank(b, i) < Rank(b, j)
    decreases j
  {
    if i < j {
      RankMonotone(b, i, j - 1);
    }
  }

  lemma {:induction false} RankChange(b: set<Slot>, s: Slot, u: nat)
    requires u <= 32
    ensures Rank(b + {s}, u) == Rank(b, u) + (if s < u && s !in b then 1 else 0)
    ensures Rank(b - {s}, u) == Rank(b, u) - (if s < u && s in b then 1 else 0)
    decreases u
  {
    if u > 0 {
      RankChange(b, s, u - 1);
    }
  }

  // The 32 slots a bitmap node stands for.
  ghost function View<V>(b: set<Slot>, ns: seq<Node<V>>): (v: seq<Option<Node<V>>>)
    requires |ns| == Rank(b, 32)
    ensures |v| == 32
  {
    seq(32, (i: int) requires 0 <= i < 32 =>
      if i in b then (RankMonotone(b, i, 32); Some(ns[Rank(b, i)])) else None)
  }

  function Flat<V>(slots: seq<Option<Node<V>>>): seq<Node<V>> {
    if |slots| == 0 then []
    else Flat(slots[..|slots| - 1]) + (if slots[|slots| - 1].Some? then [slots[|slots| - 1].value] else [])
  }

  lemma {:induction false} FlatView<V>(b: set<Slot>, ns: seq<Node<V>>, u: nat)
    requires |ns| == Rank(b, 32) && u <= 32
    ensures Rank(b, u) <= |ns|
    ensures Flat(View(b, ns)[..u]) == ns[..Rank(b, u)]
    decreases u
  {
    RankMonotone(b, u, 32);
    if u > 0 {
      FlatView(b, ns, u - 1);
      assert View(b, ns)[..u][..u - 1] == View(b, ns)[..u - 1];
    }
  }

  lemma {:induction false} FlatConcat<V>(a: seq<Option<Node<V>>>, b: seq<Option<Node<V>>>)
    ensures Flat(a + b) == Flat(a) + Flat(b)
    decreases |b|
  {
    if |b| == 0 {
      assert a + b == a;
    } else {
      assert (a + b)[..|a + b| - 1] == a + b[..|b| - 1];
      FlatConcat(a, b[..|b| - 1]);
    }
  }

  // ---------------------------------------------------------------------
  // What a node holds
  // ---------------------------------------------------------------------

  ghost function Pairs<V>(t: Node<V>): multiset<Entry<V>>
    decreases t
  {
    match t
    case ArrayMap(es) => multiset(es)
    case Collision(_, es) => multiset(es)
    case Leaf(_, e) => multiset{e}
    case Bitmap(_, ns) => PairsOfNodes(ns)
    case HashArray(_, slots) => PairsOfSlots(slots)
  }

  ghost function PairsOfNodes<V>(ns: seq<Node<V>>): multiset<Entry<V>>
    decreases ns
  {
    if |ns| == 0 then multiset{} else PairsOfNodes(ns[..|ns| - 1]) + Pairs(ns[|ns| - 1])
  }

  ghost function PairsOfSlots<V>(slots: seq<Option<Node<V>>>): multiset<Entry<V>>
    decreases slots
  {
    if |slots| == 0 then multiset{}
    else PairsOfSlots(slots[..|slots| - 1]) + PairsOfSlot(slots[|slots| - 1])
  }

  ghost function PairsOfSlot<V>(slot: Option<Node<V>>): multiset<Entry<V>>
    decreases slot
  {
    if slot.Some? then Pairs(slot.value) else multiset{}
  }

  lemma {:induction false} PairsOfFlat<V>(slots: seq<Option<Node<V>>>)
    ensures PairsOfSlots(slots) == PairsOfNodes(Flat(slots))
    decreases |slots|
  {
    if |slots| > 0 {
      var init, last := slots[..|slots| - 1], slots[|slots| - 1];
      PairsOfFlat(init);
      if last.Some? {
        assert Flat(slots) == Flat(init) + [last.value];
        assert Flat(slots)[..|Flat(slots)| - 1] == Flat(init);
      } else {
        assert Flat(slots) == Flat(init);
      }
    }
  }

  lemma {:induction false} PairsAfterSlot<V>(slots: seq<Option<Node<V>>>, s: nat, x: Option<Node<V>>)
    requires s < |slots|
    ensures PairsOfSlots(slots[s := x]) + PairsOfSlot(slots[s]) == PairsOfSlots(slots) + PairsOfSlot(x)
    decreases |slots|
  {
    var n := |slots| - 1;
    var init, after := slots[..n], slots[s := x];
    if s < n {
      PairsAfterSlot(init, s, x);
      assert after[..n] == init[s := x] && after[n] == slots[n];
      AddToBoth(PairsOfSlots(init[s := x]), PairsOfSlot(slots[s]),
                PairsOfSlots(init), PairsOfSlot(x), PairsOfSlot(slots[n]));
    } else {
      assert after[..n] == init && after[n] == x;
    }
  }

  lemma AddToBoth<T>(a: multiset<T>, b: multiset<T>, c: multiset<T>, d: multiset<T>, x: multiset<T>)
    requires a + b == c + d
    ensures (a + x) + b == (c + x) + d
  {
    assert (a + x) + b == (a + b) + x;
    assert (c + x) + d == (c + d) + x;
  }

  lemma {:induction false} PairsInOneSlot<V>(slots: seq<Option<Node<V>>>, s: nat, e: Entry<V>)
    requires s < |slots|
    requires forall i | 0 <= i < |slots| && i != s :: PairsOfSlot(slots[i])[e] == 0
    ensures PairsOfSlots(slots)[e] == PairsOfSlot(slots[s])[e]
    decreases |slots|
  {
    var n := |slots| - 1;
    if s < n {
      PairsInOneSlot(slots[..n], s, e);
    } else {
      PairsInNoSlot(slots[..n], e);
    }
  }

  lemma {:induction false} PairsInNoSlot<V>(slots: seq<Option<Node<V>>>, e: Entry<V>)
    requires forall i | 0 <= i < |slots| :: PairsOfSlot(slots[i])[e] == 0
    ensures PairsOfSlots(slots)[e] == 0
    decreases |slots|
  {
    if |slots| > 0 {
      PairsInNoSlot(slots[..|slots| - 1], e);
    }
  }

  // ---------------------------------------------------------------------
  // The shape invariant
  // ---------------------------------------------------------------------

  predicate IsLeafLike<V>(t: Node<V>) {  // ue
    t.Leaf? || t.Collision?
  }

  ghost predicate Distinct<V>(es: seq<Entry<V>>) {
    forall i, j | 0 <= i < j < |es| :: es[i].key != es[j].key
  }

  ghost function CountSome<V>(slots: seq<Option<Node<V>>>): nat {
    |Flat(slots)|
  }

  /** A node below the root, reached over the groups in path. */
  ghost predicate Shaped<V>(t: Node<V>, path: seq<Slot>)
    decreases t
  {
    match t
    case ArrayMap(_) => false
    case Leaf(h, e) => OnPath(h, path) && e.key.hash == h
    case Collision(h, es) =>
      && OnPath(h, path)
      && |es| >= 2 && Distinct(es)
      && forall i | 0 <= i < |es| :: es[i].key.hash == h
    case Bitmap(b, ns) =>
      && |path| <= 6
      && |ns| == Rank(b, 32)
      && 1 <= |ns| <= BITMAP_MAX
      && (|ns| == 1 ==> !IsLeafLike(ns[0]))
      && forall s: Slot {:trigger ns[Rank(b, s)]} | s in b && Rank(b, s) < |ns| :: Shaped(ns[Rank(b, s)], path + [s])
    case HashArray(count, slots) =>
      && |path| <= 6
      && |slots| == 32
      && count == CountSome(slots)
      && HASH_ARRAY_MIN <= count
      && forall s: Slot :: slots[s].Some? ==> Shaped(slots[s].value, path + [s])
  }

  /** A map's root: an array of at most 8 entries, or a trie. */
  ghost predicate ShapedRoot<V>(t: Node<V>) {
    if t.ArrayMap? then 1 <= |t.entries| <= ARRAY_MAX && Distinct(t.entries) else Shaped(t, [])
  }

  ghost predicate ShapedSlots<V>(slots: seq<Option<Node<V>>>, path: seq<Slot>) {
    |slots| == 32 && forall s: Slot :: slots[s].Some? ==> Shaped(slots[s].value, path + [s])
  }

  // ---------------------------------------------------------------------
  // get
  // ---------------------------------------------------------------------

  function FindEntry<V>(es: seq<Entry<V>>, k: Key): (i: nat)
    ensures i <= |es|
    ensures i < |es| ==> es[i].key == k
    ensures forall j | 0 <= j < i :: es[j].key != k
  {
    if |es| == 0 || es[0].key == k then 0 else 1 + FindEntry(es[1..], k)
  }

  function GetIn<V>(es: seq<Entry<V>>, k: Key): Option<V> {
    var i := FindEntry(es, k);
    if i < |es| then Some(es[i].value) else None
  }

  function Get<V>(t: Node<V>, d: nat, k: Key): Option<V>
    requires Shaped(t, Path(k.hash, d))
    decreases t
  {
    match t
    case Leaf(_, e) => if e.key == k then Some(e.value) else None
    case Collision(_, es) => GetIn(es, k)
    case Bitmap(b, ns) =>
      var s := SlotAt(k.hash, d);
      if s !in b then None else
        RankMonotone(b, s, 32);
        Get(ns[Rank(b, s)], d + 1, k)
    case HashArray(_, slots) =>
      var s := SlotAt(k.hash, d);
      if slots[s].None? then None else Get(slots[s].value, d + 1, k)
  }

  // The other keys of the collision node that holds k.
  ghost function Mates<V>(t: Node<V>, d: nat, k: Key): set<Key>
    requires Shaped(t, Path(k.hash, d))
    decreases t
  {
    match t
    case Leaf(_, _) => {}
    case Collision(h, es) => if h == k.hash then KeysBut(es, k) else {}
    case Bitmap(b, ns) =>
      var s := SlotAt(k.hash, d);
      if s !in b then {} else
        RankMonotone(b, s, 32);
        Mates(ns[Rank(b, s)], d + 1, k)
    case HashArray(_, slots) =>
      var s := SlotAt(k.hash, d);
      if slots[s].None? then {} else Mates(slots[s].value, d + 1, k)
  }

  ghost function KeysBut<V>(es: seq<Entry<V>>, k: Key): set<Key> {
    set e | e in es && e.key != k :: e.key
  }

  lemma {:induction false} MatesHash<V>(t: Node<V>, d: nat, k: Key)
    requires Shaped(t, Path(k.hash, d))
    ensures forall x | x in Mates(t, d, k) :: x.hash == k.hash && x != k
    decreases t
  {
    var s := SlotAt(k.hash, d);
    match t
    case Leaf(_, _) =>
    case Collision(_, _) =>
    case Bitmap(b, ns) =>
      RankMonotone(b, s, 32);
      if s in b { MatesHash(ns[Rank(b, s)], d + 1, k); }
    case HashArray(_, slots) =>
      if slots[s].Some? { MatesHash(slots[s].value, d + 1, k); }
  }

  lemma GetBitmapStep<V>(b: set<Slot>, ns: seq<Node<V>>, d: nat, k: Key)
    requires Shaped(Bitmap(b, ns), Path(k.hash, d))
    ensures var s := SlotAt(k.hash, d);
      var i := Rank(b, s);
      && (s in b ==> i < |ns| && Shaped(ns[i], Path(k.hash, d + 1)) && Get(Bitmap(b, ns), d, k) == Get(ns[i], d + 1, k))
      && (s !in b ==> Get(Bitmap(b, ns), d, k) == None)
  {
    RankMonotone(b, SlotAt(k.hash, d), 32);
  }

  lemma GetHashArrayStep<V>(count: nat, slots: seq<Option<Node<V>>>, d: nat, k: Key)
    requires Shaped(HashArray(count, slots), Path(k.hash, d))
    ensures |slots| == 32
    ensures var c := slots[SlotAt(k.hash, d)];
      && (c.Some? ==> Shaped(c.value, Path(k.hash, d + 1)))
      && Get(HashArray(count, slots), d, k) == if c.None? then None else Get(c.value, d + 1, k)
  {
  }

  // ---------------------------------------------------------------------
  // update
  // ---------------------------------------------------------------------

  /** What update returns and the two flags it sets. A removal is v == None. */
  datatype Updated<V> = Updated(node: Option<Node<V>>, altered: bool, resized: bool)

  function NewLeaf<V>(k: Key, v: Option<V>): Updated<V> {  // se on an absent node
    if v.None? then Updated(None, false, false)
    else Updated(Some(Leaf(k.hash, Entry(k, v.value))), true, true)
  }

  function Split<V>(t: Node<V>, d: nat, e: Entry<V>): Node<V>  // ae
    requires IsLeafLike(t) && d <= 7
    requires OnPath(t.keyHash, Path(e.key.hash, d))
    requires t.keyHash == e.key.hash ==> t.Leaf?
    decreases 7 - d
  {
    var h := e.key.hash;
    if t.keyHash == h then Collision(h, [t.entry, e]) else
      (if d == 7 then SamePathSameHash(t.keyHash, h, 0); assert false; t else
       var s, u := SlotAt(t.keyHash, d), SlotAt(h, d);
       Bitmap({s, u},
         if s == u then [Split(t, d + 1, e)]
         else if s < u then [t, Leaf(h, e)]
         else [Leaf(h, e), t]))
  }

  function Expand<V>(b: set<Slot>, ns: seq<Node<V>>, s: Slot, child: Node<V>): Node<V>  // le
    requires |ns| == Rank(b, 32)
  {
    HashArray(|ns| + 1,
      seq(32, (i: int) requires 0 <= i < 32 =>
        if i == s then Some(child)
        else if i in b then (RankMonotone(b, i, 32); Some(ns[Rank(b, i)]))
        else None))
  }

  function Pack<V>(slots: seq<Option<Node<V>>>, excluded: Slot): Node<V>  // fe
    requires |slots| == 32
  {
    Bitmap((set i: Slot | slots[i].Some? && i != excluded), Flat(slots[excluded := None]))
  }

  // A removal fills the hole with the last entry.
  function RemoveAt<X>(es: seq<X>, i: nat): seq<X>
    requires i < |es|
  {
    var n := |es| - 1;
    if i == n then es[..n] else es[..n][i := es[n]]
  }

  function Update<V(==)>(t: Node<V>, d: nat, k: Key, v: Option<V>): (r: Updated<V>)
    requires d <= 7 && Shaped(t, Path(k.hash, d))
    ensures v.Some? ==> r.node.Some?
    ensures !r.altered ==> r.node == Some(t) && !r.resized
    decreases t
  {
    match t
    case Leaf(h, e) =>
      if e.key == k then
        if v == Some(e.value) then Updated(Some(t), false, false)
        else if v.None? then Updated(None, true, true)
        else Updated(Some(Leaf(h, Entry(k, v.value))), true, false)
      else if v.None? then Updated(Some(t), false, false)
      else Updated(Some(Split(t, d, Entry(k, v.value))), true, true)
    case Collision(h, es) => UpdateCollision(t, d, k, v)
    case Bitmap(b, ns) =>
      var s := SlotAt(k.hash, d);
      RankMonotone(b, s, 32);
      var i := Rank(b, s);
      var c := if s in b then Update(ns[i], d + 1, k, v) else NewLeaf(k, v);
      if !c.altered then Updated(Some(t), false, false)
      else Updated(Some(BitmapWith(b, ns, s, c.node)), true, c.resized)
    case HashArray(count, slots) =>
      var s := SlotAt(k.hash, d);
      var c := if slots[s].Some? then Update(slots[s].value, d + 1, k, v) else NewLeaf(k, v);
      if !c.altered then Updated(Some(t), false, false)
      else Updated(Some(HashArrayWith(count, slots, s, c.node)), true, c.resized)
  }

  // Update on a bitmap node, one level unfolded.
  lemma UpdateBitmapStep<V>(b: set<Slot>, ns: seq<Node<V>>, d: nat, k: Key, v: Option<V>)
    requires d <= 7 && Shaped(Bitmap(b, ns), Path(k.hash, d))
    ensures d <= 6 && |ns| == Rank(b, 32)
    ensures var s := SlotAt(k.hash, d);
      if s !in b then
        Update(Bitmap(b, ns), d, k, v) ==
          if v.None? then Updated(Some(Bitmap(b, ns)), false, false)
          else Updated(Some(BitmapWith(b, ns, s, Some(Leaf(k.hash, Entry(k, v.value))))), true, true)
      else
        && Rank(b, s) < |ns|
        && Shaped(ns[Rank(b, s)], Path(k.hash, d + 1))
        && (|ns| == 1 ==> !IsLeafLike(ns[Rank(b, s)]))
        && var c := Update(ns[Rank(b, s)], d + 1, k, v);
           && Update(Bitmap(b, ns), d, k, v) ==
                Updated(Some(BitmapWith(b, ns, s, c.node)), c.altered, c.altered && c.resized)
           && (!c.altered ==> BitmapWith(b, ns, s, c.node) == Bitmap(b, ns) && !c.resized)
  {
    var s := SlotAt(k.hash, d);
    RankMonotone(b, s, 32);
    if s in b { assert ns[Rank(b, s) := ns[Rank(b, s)]] == ns; }
  }

  // Update on a 32-slot node, one level unfolded.
  lemma UpdateHashArrayStep<V>(count: nat, slots: seq<Option<Node<V>>>, d: nat, k: Key, v: Option<V>)
    requires d <= 7 && Shaped(HashArray(count, slots), Path(k.hash, d))
    ensures d <= 6 && |slots| == 32 && count >= 1
    ensures var s := SlotAt(k.hash, d);
      if slots[s].None? then
        Update(HashArray(count, slots), d, k, v) ==
          if v.None? then Updated(Some(HashArray(count, slots)), false, false)
          else Updated(Some(HashArrayWith(count, slots, s, Some(Leaf(k.hash, Entry(k, v.value))))), true, true)
      else
        && Shaped(slots[s].value, Path(k.hash, d + 1))
        && var c := Update(slots[s].value, d + 1, k, v);
           && Update(HashArray(count, slots), d, k, v) ==
                Updated(Some(HashArrayWith(count, slots, s, c.node)), c.altered, c.altered && c.resized)
           && (!c.altered ==> HashArrayWith(count, slots, s, c.node) == HashArray(count, slots) && !c.resized)
  {
    var s := SlotAt(k.hash, d);
    assert slots[s := slots[s]] == slots;
  }

  function UpdateCollision<V(==)>(t: Node<V>, d: nat, k: Key, v: Option<V>): (r: Updated<V>)
    requires t.Collision? && d <= 7 && Shaped(t, Path(k.hash, d))
    ensures v.Some? ==> r.node.Some?
    ensures !r.altered ==> r.node == Some(t) && !r.resized
    ensures r.node.Some?
  {
    var h, es := t.keyHash, t.entries;
    if k.hash != h then
      if v.None? then Updated(Some(t), false, false)
      else Updated(Some(Split(t, d, Entry(k, v.value))), true, true)
    else
      var i := FindEntry(es, k);
      var found := i < |es|;
      if (if found then v == Some(es[i].value) else v.None?) then Updated(Some(t), false, false)
      else if v.None? then
        if |es| == 2 then Updated(Some(Leaf(h, es[1 - i])), true, true)
        else Updated(Some(Collision(h, RemoveAt(es, i))), true, true)
      else if found then Updated(Some(Collision(h, es[i := Entry(k, v.value)])), true, false)
      else Updated(Some(Collision(h, es + [Entry(k, v.value)])), true, true)
  }

  // The end of Zt.update: slot s of a bitmap node gets a new child, or none.
  function BitmapWith<V>(b: set<Slot>, ns: seq<Node<V>>, s: Slot, child: Option<Node<V>>): Node<V>
    requires |ns| == Rank(b, 32)
    requires child.None? ==> s in b
  {
    RankMonotone(b, s, 32);
    var i := Rank(b, s);
    if s !in b then
      if |ns| >= BITMAP_MAX then Expand(b, ns, s, child.value)
      else Bitmap(b + {s}, ns[..i] + [child.value] + ns[i..])
    else if child.None? then
      if |ns| == 2 && IsLeafLike(ns[1 - i]) then ns[1 - i]
      else Bitmap(b - {s}, ns[..i] + ns[i + 1..])
    else
      if |ns| == 1 && IsLeafLike(child.value) then child.value
      else Bitmap(b, ns[i := child.value])
  }

  // The end of Vt.update.
  function HashArrayWith<V>(count: nat, slots: seq<Option<Node<V>>>, s: Slot, child: Option<Node<V>>): Node<V>
    requires |slots| == 32
    requires slots[s].Some? ==> count >= 1
  {
    if slots[s].None? then HashArray(count + 1, slots[s := child])
    else if child.None? then
      if count - 1 < HASH_ARRAY_MIN then Pack(slots, s) else HashArray(count - 1, slots[s := None])
    else HashArray(count, slots[s := child])
  }

  // ---------------------------------------------------------------------
  // Every rebuilt node stands for its 32 slots with one of them changed
  // ---------------------------------------------------------------------

  lemma ViewPairs<V>(b: set<Slot>, ns: seq<Node<V>>)
    requires |ns| == Rank(b, 32)
    ensures PairsOfSlots(View(b, ns)) == PairsOfNodes(ns)
    ensures Flat(View(b, ns)) == ns
  {
    FlatView(b, ns, 32);
    assert View(b, ns)[..32] == View(b, ns);
    assert ns[..|ns|] == ns;
    PairsOfFlat(View(b, ns));
  }

  lemma ViewShaped<V>(b: set<Slot>, ns: seq<Node<V>>, path: seq<Slot>)
    requires |path| <= 6 && |ns| == Rank(b, 32) && 1 <= |ns| <= BITMAP_MAX
    requires |ns| == 1 ==> !IsLeafLike(ns[0])
    ensures Shaped(Bitmap(b, ns), path) <==> ShapedSlots(View(b, ns), path)
  {
    var v := View(b, ns);
    forall s: Slot | s in b
      ensures Rank(b, s) < |ns| && v[s] == Some(ns[Rank(b, s)])
    {
      RankMonotone(b, s, 32);
    }
    if ShapedSlots(v, path) {
      forall s: Slot | s in b && Rank(b, s) < |ns|
        ensures Shaped(ns[Rank(b, s)], path + [s])
      {
        assert v[s].Some?;
      }
    }
  }

  // Where the child of slot j stands once a child has been added at slot s, or taken from it.
  lemma RankAround(b: set<Slot>, s: Slot, j: Slot)
    requires j in b && j != s
    ensures Rank(b, j) < Rank(b, 32) && Rank(b, s) <= Rank(b, 32)
    ensures j < s ==> Rank(b, j) < Rank(b, s) && Rank(b + {s}, j) == Rank(b - {s}, j) == Rank(b, j)
    ensures j > s ==>
      && Rank(b, s) <= Rank(b, j) && (s !in b ==> Rank(b + {s}, j) == Rank(b, j) + 1)
      && (s in b ==> Rank(b, s) < Rank(b, j) && Rank(b - {s}, j) == Rank(b, j) - 1)
  {
    RankMonotone(b, j, 32);
    RankMonotone(b, s, 32);
    RankChange(b, s, j);
    if j < s { RankMonotone(b, j, s); } else { RankMonotone(b, s, j); }
  }

  // Where the r-th child is after an insertion at rank i, and after a removal there.
  lemma Inserted<X>(ns: seq<X>, i: nat, c: X, r: nat)
    requires r < |ns| && i <= |ns|
    ensures (ns[..i] + [c] + ns[i..])[if r < i then r else r + 1] == ns[r]
  {
  }

  lemma Removed<X>(ns: seq<X>, i: nat, r: nat)
    requires r < |ns| && i < |ns| && r != i
    ensures (ns[..i] + ns[i + 1..])[if r < i then r else r - 1] == ns[r]
  {
  }

  lemma ViewAt<V>(b: set<Slot>, ns: seq<Node<V>>, j: Slot)
    requires |ns| == Rank(b, 32)
    ensures j in b ==> Rank(b, j) < |ns| && View(b, ns)[j] == Some(ns[Rank(b, j)])
    ensures j !in b ==> View(b, ns)[j] == None
  {
    RankMonotone(b, j, 32);
  }

  lemma ViewInsertAt<V>(b: set<Slot>, ns: seq<Node<V>>, s: Slot, c: Node<V>, j: Slot)
    requires |ns| == Rank(b, 32) && s !in b
    ensures Rank(b, s) <= |ns| && Rank(b + {s}, 32) == |ns| + 1
    ensures View(b + {s}, ns[..Rank(b, s)] + [c] + ns[Rank(b, s)..])[j] == if j == s then Some(c) else View(b, ns)[j]
  {
    hide View, Rank;
    RankMonotone(b, s, 32);
    RankChange(b, s, 32);
    RankChange(b, s, s);
    var i := Rank(b, s);
    var ms := ns[..i] + [c] + ns[i..];
    ViewAt(b, ns, j);
    ViewAt(b + {s}, ms, j);
    if j == s {
      assert ms[i] == c;
    } else if j in b {
      RankAround(b, s, j);
      Inserted(ns, i, c, Rank(b, j));
    }
  }

  lemma ViewInsert<V>(b: set<Slot>, ns: seq<Node<V>>, s: Slot, c: Node<V>)
    requires |ns| == Rank(b, 32) && s !in b
    ensures Rank(b, s) <= |ns| && Rank(b + {s}, 32) == |ns| + 1
    ensures View(b + {s}, ns[..Rank(b, s)] + [c] + ns[Rank(b, s)..]) == View(b, ns)[s := Some(c)]
  {
    hide View, Rank;
    ViewInsertAt(b, ns, s, c, s);
    var v, w := View(b + {s}, ns[..Rank(b, s)] + [c] + ns[Rank(b, s)..]), View(b, ns)[s := Some(c)];
    forall j: Slot
      ensures v[j] == w[j]
    {
      ViewInsertAt(b, ns, s, c, j);
    }
  }

  lemma ViewRemoveAt<V>(b: set<Slot>, ns: seq<Node<V>>, s: Slot, j: Slot)
    requires |ns| == Rank(b, 32) && s in b
    ensures Rank(b, s) < |ns| && Rank(b - {s}, 32) == |ns| - 1
    ensures View(b - {s}, ns[..Rank(b, s)] + ns[Rank(b, s) + 1..])[j] == if j == s then None else View(b, ns)[j]
  {
    hide View, Rank;
    RankMonotone(b, s, 32);
    RankChange(b, s, 32);
    var i := Rank(b, s);
    var ms := ns[..i] + ns[i + 1..];
    ViewAt(b, ns, j);
    ViewAt(b - {s}, ms, j);
    if j in b && j != s {
      RankAround(b, s, j);
      Removed(ns, i, Rank(b, j));
    }
  }

  lemma ViewRemove<V>(b: set<Slot>, ns: seq<Node<V>>, s: Slot)
    requires |ns| == Rank(b, 32) && s in b
    ensures Rank(b, s) < |ns| && Rank(b - {s}, 32) == |ns| - 1
    ensures View(b - {s}, ns[..Rank(b, s)] + ns[Rank(b, s) + 1..]) == View(b, ns)[s := None]
  {
    hide View, Rank;
    ViewRemoveAt(b, ns, s, s);
    var v, w := View(b - {s}, ns[..Rank(b, s)] + ns[Rank(b, s) + 1..]), View(b, ns)[s := None];
    forall j: Slot
      ensures v[j] == w[j]
    {
      ViewRemoveAt(b, ns, s, j);
    }
  }

  lemma ViewReplace<V>(b: set<Slot>, ns: seq<Node<V>>, s: Slot, c: Node<V>)
    requires |ns| == Rank(b, 32) && s in b
    ensures Rank(b, s) < |ns|
    ensures View(b, ns[Rank(b, s) := c]) == View(b, ns)[s := Some(c)]
  {
    RankMonotone(b, s, 32);
    var i := Rank(b, s);
    var v, w := View(b, ns), View(b, ns[i := c]);
    forall j: Slot
      ensures w[j] == v[s := Some(c)][j]
    {
      if j in b {
        RankMonotone(b, j, 32);
        if j < s { RankMonotone(b, j, s); }
        if s < j { RankMonotone(b, s, j); }
      }
    }
  }

  lemma {:induction false} FlatSlot<V>(slots: seq<Option<Node<V>>>, s: nat, x: Option<Node<V>>)
    requires s < |slots|
    ensures |Flat(slots[s := x])| == |Flat(slots)| - (if slots[s].Some? then 1 else 0) + (if x.Some? then 1 else 0)
    decreases |slots|
  {
    var n := |slots| - 1;
    if s < n {
      FlatSlot(slots[..n], s, x);
      assert slots[s := x][..n] == slots[..n][s := x];
    } else {
      assert slots[s := x][..n] == slots[..n];
    }
  }

  // The bitmap that Pack computes stands for the very slots it was given.
  lemma {:induction false} PackedRank<V>(slots: seq<Option<Node<V>>>, b: set<Slot>, u: nat)
    requires |slots| == 32 && u <= 32
    requires forall i: Slot :: i in b <==> slots[i].Some?
    ensures Rank(b, u) == |Flat(slots[..u])|
    decreases u
  {
    if u > 0 {
      PackedRank(slots, b, u - 1);
      assert slots[..u][..u - 1] == slots[..u - 1];
    }
  }

  lemma PackedView<V>(slots: seq<Option<Node<V>>>, b: set<Slot>)
    requires |slots| == 32
    requires forall i: Slot :: i in b <==> slots[i].Some?
    ensures Rank(b, 32) == |Flat(slots)|
    ensures View(b, Flat(slots)) == slots
  {
    PackedRank(slots, b, 32);
    assert slots[..32] == slots;
    var v := View(b, Flat(slots));
    forall j: Slot
      ensures v[j] == slots[j]
    {
      if j in b {
        PackedRank(slots, b, j);
        RankMonotone(b, j, 32);
        assert slots == slots[..j] + slots[j..];
        FlatConcat(slots[..j], slots[j..]);
        assert slots[j..] == [slots[j]] + slots[j + 1..];
        FlatConcat([slots[j]], slots[j + 1..]);
      }
    }
  }

  lemma {:induction false} RankInverse(b: set<Slot>, u: nat) returns (s: Slot)
    requires u <= 32 && Rank(b, u) > 0
    ensures s in b && Rank(b, s) == Rank(b, u) - 1
    decreases u
  {
    if u - 1 in b { s := u - 1; } else { s := RankInverse(b, u - 1); }
  }

  // Which slot the i-th child is in.
  lemma {:induction false} RankHit(b: set<Slot>, i: nat, u: nat) returns (s: Slot)
    requires u <= 32 && i < Rank(b, u)
    ensures s in b && Rank(b, s) == i
    decreases u
  {
    if u - 1 in b && Rank(b, u - 1) == i { s := u - 1; } else { s := RankHit(b, i, u - 1); }
  }

  // No key below has this hash.
  ghost predicate NoHash<V>(t: Node<V>, h: Hash)
    decreases t
  {
    match t
    case ArrayMap(_) => false
    case Leaf(_, e) => e.key.hash != h
    case Collision(_, es) => forall i | 0 <= i < |es| :: es[i].key.hash != h
    case Bitmap(_, ns) => forall i | 0 <= i < |ns| :: NoHash(ns[i], h)
    case HashArray(_, slots) => forall i | 0 <= i < |slots| :: NoHashSlot(slots[i], h)
  }

  ghost predicate NoHashSlot<V>(slot: Option<Node<V>>, h: Hash)
    decreases slot
  {
    slot.Some? ==> NoHash(slot.value, h)
  }

  // A node that the hash does not lead to.
  lemma {:induction false} OffPath<V>(t: Node<V>, path: seq<Slot>, h: Hash)
    requires Shaped(t, path) && !OnPath(h, path)
    ensures NoHash(t, h)
    decreases t
  {
    match t
    case Leaf(_, _) =>
    case Collision(_, _) =>
    case Bitmap(b, ns) =>
      forall i | 0 <= i < |ns|
        ensures NoHash(ns[i], h)
      {
        var s := RankHit(b, i, 32);
        OnPathChild(h, path, s);
        OffPath(ns[Rank(b, s)], path + [s], h);
      }
    case HashArray(_, slots) =>
      forall i | 0 <= i < |slots|
        ensures NoHashSlot(slots[i], h)
      {
        if slots[i].Some? {
          OnPathChild(h, path, i);
          OffPath(slots[i].value, path + [i], h);
        }
      }
  }

  // The hash of k leads to one child of a bitmap node at most.
  lemma OtherChildren<V>(b: set<Slot>, ns: seq<Node<V>>, d: nat, k: Key)
    requires Shaped(Bitmap(b, ns), Path(k.hash, d))
    ensures var s := SlotAt(k.hash, d);
      forall j | 0 <= j < |ns| && !(s in b && j == Rank(b, s)) :: NoHash(ns[j], k.hash)
  {
    forall j | 0 <= j < |ns| && !(SlotAt(k.hash, d) in b && j == Rank(b, SlotAt(k.hash, d)))
      ensures NoHash(ns[j], k.hash)
    {
      var u := RankHit(b, j, 32);
      OnPathChild(k.hash, Path(k.hash, d), u);
      OffPath(ns[Rank(b, u)], Path(k.hash, d) + [u], k.hash);
    }
  }

  lemma OtherSlots<V>(count: nat, slots: seq<Option<Node<V>>>, d: nat, k: Key)
    requires Shaped(HashArray(count, slots), Path(k.hash, d))
    ensures forall j | 0 <= j < |slots| && j != SlotAt(k.hash, d) :: NoHashSlot(slots[j], k.hash)
  {
    forall j | 0 <= j < |slots| && j != SlotAt(k.hash, d)
      ensures NoHashSlot(slots[j], k.hash)
    {
      if slots[j].Some? {
        OnPathChild(k.hash, Path(k.hash, d), j);
        OffPath(slots[j].value, Path(k.hash, d) + [j], k.hash);
      }
    }
  }

  lemma LeafNoHash<V>(t: Node<V>, path: seq<Slot>, h: Hash)
    requires IsLeafLike(t) && Shaped(t, path) && t.keyHash != h
    ensures NoHash(t, h)
  {
  }

  // In a collision node of its hash, k has as many mates as there are other entries.
  lemma {:induction false} KeysButCount<V>(es: seq<Entry<V>>, k: Key)
    requires Distinct(es)
    ensures |KeysBut(es, k)| == |es| - (if FindEntry(es, k) < |es| then 1 else 0)
    decreases |es|
  {
    hide FindEntry, KeysBut;
    if |es| == 0 {
      NoKeysBut(es, k);
    } else {
      KeysButCount(es[1..], k);
      KeysButFirst(es, k);
    }
  }

  lemma NoKeysBut<V>(es: seq<Entry<V>>, k: Key)
    requires |es| == 0
    ensures KeysBut(es, k) == {}
  {
  }

  lemma KeysButFirst<V>(es: seq<Entry<V>>, k: Key)
    requires Distinct(es) && |es| > 0
    ensures Distinct(es[1..]) && (FindEntry(es, k) < |es| <==> es[0].key == k || FindEntry(es[1..], k) < |es| - 1)
    ensures es[0].key == k ==> FindEntry(es[1..], k) == |es| - 1
    ensures if es[0].key == k then KeysBut(es, k) == KeysBut(es[1..], k)
            else KeysBut(es, k) == KeysBut(es[1..], k) + {es[0].key} && es[0].key !in KeysBut(es[1..], k)
  {
    var rest := es[1..];
    assert forall i | 0 <= i < |rest| :: rest[i] == es[i + 1] && rest[i].key != es[0].key;
    assert forall e :: e in es <==> e == es[0] || e in rest;
  }

  // No node below the root is empty.
  lemma {:induction false} ShapedHolds<V>(t: Node<V>, path: seq<Slot>)
    requires Shaped(t, path)
    ensures |Pairs(t)| > 0
    decreases t
  {
    match t
    case Leaf(_, _) =>
    case Collision(_, _) =>
    case Bitmap(b, ns) =>
      var s := RankInverse(b, 32);
      ShapedHolds(ns[Rank(b, s)], path + [s]);
    case HashArray(_, slots) =>
      PairsOfFlat(slots);
      var s: Slot := FlatLast(slots);
      ShapedHolds(slots[s].value, path + [s]);
  }

  lemma {:induction false} FlatLast<V>(slots: seq<Option<Node<V>>>) returns (s: nat)
    requires |Flat(slots)| > 0
    ensures s < |slots| && slots[s].Some? && Flat(slots)[|Flat(slots)| - 1] == slots[s].value
    decreases |slots|
  {
    var n := |slots| - 1;
    if slots[n].Some? { s := n; } else { s := FlatLast(slots[..n]); }
  }

  // A leaf or collision may move up one level: its hash stays on the path.
  lemma LeafMovesUp<V>(t: Node<V>, path: seq<Slot>, s: Slot)
    requires IsLeafLike(t) && Shaped(t, path + [s])
    ensures Shaped(t, path)
  {
    OnPathChild(t.keyHash, path, s);
  }

  // s names the slot that changed, c its new content.
  ghost predicate Rebuilt<V>(r: Node<V>, slots: seq<Option<Node<V>>>, path: seq<Slot>, s: Slot, c: Option<Node<V>>)
    requires |slots| == 32
  {
    && Shaped(r, path)
    && Pairs(r) + PairsOfSlot(slots[s]) == PairsOfSlots(slots) + PairsOfSlot(c)
  }

  lemma BitmapGrows<V>(b: set<Slot>, ns: seq<Node<V>>, s: Slot, c: Node<V>, path: seq<Slot>)
    requires Shaped(Bitmap(b, ns), path) && Shaped(c, path + [s]) && s !in b
    ensures Rebuilt(BitmapWith(b, ns, s, Some(c)), View(b, ns), path, s, Some(c))
  {
    var v, r := View(b, ns), BitmapWith(b, ns, s, Some(c));
    ViewShaped(b, ns, path);
    ViewPairs(b, ns);
    PairsAfterSlot(v, s, Some(c));
    ViewInsert(b, ns, s, c);
    if |ns| >= BITMAP_MAX {
      assert r.slots == v[s := Some(c)];
      FlatSlot(v, s, Some(c));
    } else {
      ViewShaped(b + {s}, r.nodes, path);
      ViewPairs(b + {s}, r.nodes);
    }
  }

  lemma BitmapShrinks<V>(b: set<Slot>, ns: seq<Node<V>>, s: Slot, path: seq<Slot>)
    requires Shaped(Bitmap(b, ns), path) && s in b && |ns| >= 2
    ensures Shaped(BitmapWith(b, ns, s, None), path)
  {
    var r, i := BitmapWith(b, ns, s, None), Rank(b, s);
    ViewRemove(b, ns, s);
    if |ns| == 2 && IsLeafLike(ns[1 - i]) {
      LoneSibling(b, ns, s, path);
    } else {
      ViewShaped(b, ns, path);
      if |ns| == 2 { assert r.nodes[0] == ns[1 - i]; }
      ViewShaped(b - {s}, r.nodes, path);
    }
  }

  lemma BitmapShrinksPairs<V>(b: set<Slot>, ns: seq<Node<V>>, s: Slot)
    requires |ns| == Rank(b, 32) && s in b && |ns| >= 2
    ensures Pairs(BitmapWith(b, ns, s, None)) + PairsOfSlot(View(b, ns)[s]) == PairsOfSlots(View(b, ns))
  {
    var v, r, i := View(b, ns), BitmapWith(b, ns, s, None), Rank(b, s);
    ViewRemove(b, ns, s);
    assert v[s] == Some(ns[i]);
    ViewPairs(b, ns);
    if |ns| == 2 && IsLeafLike(ns[1 - i]) {
      PairsOfTwo(ns);
    } else {
      PairsAfterSlot(v, s, None);
      ViewPairs(b - {s}, r.nodes);
    }
  }

  lemma BitmapReplaces<V>(b: set<Slot>, ns: seq<Node<V>>, s: Slot, c: Node<V>, path: seq<Slot>)
    requires Shaped(Bitmap(b, ns), path) && Shaped(c, path + [s]) && s in b
    ensures Shaped(BitmapWith(b, ns, s, Some(c)), path)
  {
    var r := BitmapWith(b, ns, s, Some(c));
    ViewReplace(b, ns, s, c);
    if |ns| == 1 && IsLeafLike(c) {
      LeafMovesUp(c, path, s);
    } else {
      ViewShaped(b, ns, path);
      ViewShaped(b, r.nodes, path);
    }
  }

  lemma BitmapReplacesPairs<V>(b: set<Slot>, ns: seq<Node<V>>, s: Slot, c: Node<V>)
    requires |ns| == Rank(b, 32) && s in b
    ensures Pairs(BitmapWith(b, ns, s, Some(c))) + PairsOfSlot(View(b, ns)[s]) == PairsOfSlots(View(b, ns)) + Pairs(c)
  {
    var v, r, i := View(b, ns), BitmapWith(b, ns, s, Some(c)), Rank(b, s);
    ViewReplace(b, ns, s, c);
    assert v[s] == Some(ns[i]);
    ViewPairs(b, ns);
    if |ns| == 1 && IsLeafLike(c) {
      assert ns[..0] == [];
    } else {
      PairsAfterSlot(v, s, Some(c));
      ViewPairs(b, r.nodes);
    }
  }

  lemma BitmapRebuilt<V>(b: set<Slot>, ns: seq<Node<V>>, s: Slot, c: Option<Node<V>>, path: seq<Slot>)
    requires Shaped(Bitmap(b, ns), path)
    requires c.Some? ==> Shaped(c.value, path + [s])
    requires c.None? ==> s in b && |ns| >= 2
    ensures Rebuilt(BitmapWith(b, ns, s, c), View(b, ns), path, s, c)
  {
    if c.None? {
      BitmapShrinks(b, ns, s, path);
      BitmapShrinksPairs(b, ns, s);
    } else if s in b {
      BitmapReplaces(b, ns, s, c.value, path);
      BitmapReplacesPairs(b, ns, s, c.value);
    } else {
      BitmapGrows(b, ns, s, c.value, path);
    }
  }

  lemma PairsOfTwo<V>(ns: seq<Node<V>>)
    requires |ns| == 2
    ensures PairsOfNodes(ns) == Pairs(ns[0]) + Pairs(ns[1])
  {
    var one := ns[..1];
    assert one[..0] == [] && one[0] == ns[0];
    assert PairsOfNodes(one) == PairsOfNodes(one[..0]) + Pairs(one[0]);
  }

  lemma LoneSibling<V>(b: set<Slot>, ns: seq<Node<V>>, s: Slot, path: seq<Slot>)
    requires Shaped(Bitmap(b, ns), path) && |ns| == 2
    requires s in b && Rank(b, s) < 2 && IsLeafLike(ns[1 - Rank(b, s)])
    ensures Shaped(ns[1 - Rank(b, s)], path)
  {
    var other := OtherSlot(b, s, 32);
    RankMonotone(b, other, 32);
    if other < s { RankMonotone(b, other, s); } else { RankMonotone(b, s, other); }
    assert Shaped(ns[Rank(b, other)], path + [other]);
    LeafMovesUp(ns[1 - Rank(b, s)], path, other);
  }

  lemma {:induction false} OtherSlot(b: set<Slot>, s: Slot, u: nat) returns (o: Slot)
    requires u <= 32 && Rank(b, u) > (if s < u && s in b then 1 else 0)
    ensures o in b && o != s
    decreases u
  {
    if u - 1 in b && u - 1 != s {
      o := u - 1;
    } else {
      o := OtherSlot(b, s, u - 1);
    }
  }

  lemma HashArrayRebuilt<V>(count: nat, slots: seq<Option<Node<V>>>, s: Slot, c: Option<Node<V>>, path: seq<Slot>)
    requires Shaped(HashArray(count, slots), path)
    requires c.Some? ==> Shaped(c.value, path + [s])
    requires c.None? ==> slots[s].Some?
    ensures Rebuilt(HashArrayWith(count, slots, s, c), slots, path, s, c)
  {
    PairsAfterSlot(slots, s, c);
    FlatSlot(slots, s, c);
    var after := slots[s := c];
    if slots[s].Some? && c.None? && count - 1 < HASH_ARRAY_MIN {
      var r := HashArrayWith(count, slots, s, c);
      assert Flat(after) == r.nodes;
      PackedView(after, r.bitmap);
      ViewShaped(r.bitmap, r.nodes, path);
      ViewPairs(r.bitmap, r.nodes);
    }
  }

  // ---------------------------------------------------------------------
  // get agrees with what the node holds
  // ---------------------------------------------------------------------

  lemma {:induction false} CountDistinct<V>(es: seq<Entry<V>>, e: Entry<V>)
    requires Distinct(es)
    ensures multiset(es)[e] == if GetIn(es, e.key) == Some(e.value) then 1 else 0
  {
    var i := FindEntry(es, e.key);
    if i < |es| {
      assert es == es[..i] + [es[i]] + es[i + 1..];
      assert e !in es[..i] && e !in es[i + 1..];
    } else {
      assert e !in es;
    }
  }

  /** The pair (k, v) occurs in a node once if get finds v for k there, and otherwise never. */
  lemma {:induction false} GetCounts<V>(t: Node<V>, path: seq<Slot>, e: Entry<V>)
    requires Shaped(t, path)
    ensures Pairs(t)[e] ==
      if OnPath(e.key.hash, path) && Get(t, |path|, e.key) == Some(e.value) then 1 else 0
    decreases t
  {
    match t
    case Leaf(h, e0) =>
    case Collision(h, es) =>
      CountDistinct(es, e);
    case Bitmap(b, ns) =>
      var v, s := View(b, ns), SlotAt(e.key.hash, |path|);
      ViewPairs(b, ns);
      forall j: Slot
        ensures PairsOfSlot(v[j])[e] ==
          if j == s && OnPath(e.key.hash, path) && Get(t, |path|, e.key) == Some(e.value) then 1 else 0
      {
        if j in b {
          RankMonotone(b, j, 32);
          GetCounts(ns[Rank(b, j)], path + [j], e);
          OnPathChild(e.key.hash, path, j);
        }
      }
      PairsInOneSlot(v, s, e);
    case HashArray(count, slots) =>
      var s := SlotAt(e.key.hash, |path|);
      forall j: Slot
        ensures PairsOfSlot(slots[j])[e] ==
          if j == s && OnPath(e.key.hash, path) && Get(t, |path|, e.key) == Some(e.value) then 1 else 0
      {
        if slots[j].Some? {
          GetCounts(slots[j].value, path + [j], e);
          OnPathChild(e.key.hash, path, j);
        }
      }
      PairsInOneSlot(slots, s, e);
  }

  // ---------------------------------------------------------------------
  // update does to what the node holds what its name says
  // ---------------------------------------------------------------------

  ghost function Just<V>(k: Key, v: Option<V>): multiset<Entry<V>> {
    if v.Some? then multiset{Entry(k, v.value)} else multiset{}
  }

  // Two leaves whose hashes part at this depth, side by side.
  lemma PairShaped<V>(x: Node<V>, y: Node<V>, path: seq<Slot>, s: Slot, u: Slot)
    requires |path| <= 6 && s < u
    requires Shaped(x, path + [s]) && Shaped(y, path + [u])
    ensures Shaped(Bitmap({s, u}, [x, y]), path)
    ensures Pairs(Bitmap({s, u}, [x, y])) == Pairs(x) + Pairs(y)
  {
    SlotsOfTwo(s, u);
    PairsOfTwo([x, y]);
    forall j: Slot {:trigger [x, y][Rank({s, u}, j)]} | j in {s, u} && Rank({s, u}, j) < 2
      ensures Shaped([x, y][Rank({s, u}, j)], path + [j])
    {
      assert j == s || j == u;
    }
  }

  // One step of Split: the old leaf t and the new entry e in different slots.
  lemma SplitApart<V>(t: Node<V>, d: nat, e: Entry<V>)
    requires d <= 6 && Shaped(t, Path(e.key.hash, d)) && IsLeafLike(t)
    requires SlotAt(t.keyHash, d) != SlotAt(e.key.hash, d)
    ensures Shaped(Split(t, d, e), Path(e.key.hash, d))
    ensures Pairs(Split(t, d, e)) == Pairs(t) + multiset{e}
  {
    var h, path := e.key.hash, Path(e.key.hash, d);
    var s, u := SlotAt(t.keyHash, d), SlotAt(h, d);
    LeafMovesDown(t, path);
    assert Path(h, d + 1) == path + [u];
    var leaf := Leaf(h, e);
    if s < u {
      PairShaped(t, leaf, path, s, u);
    } else {
      assert {s, u} == {u, s};
      PairShaped(leaf, t, path, u, s);
    }
  }

  lemma LeafMovesDown<V>(t: Node<V>, path: seq<Slot>)
    requires IsLeafLike(t) && Shaped(t, path)
    ensures Shaped(t, path + [SlotAt(t.keyHash, |path|)])
  {
    OnPathChild(t.keyHash, path, SlotAt(t.keyHash, |path|));
  }

  lemma SplitOnce<V>(t: Node<V>, path: seq<Slot>, s: Slot)
    requires |path| <= 6 && Shaped(t, path + [s]) && !IsLeafLike(t)
    ensures Shaped(Bitmap({s, s}, [t]), path)
    ensures Pairs(Bitmap({s, s}, [t])) == Pairs(t)
  {
    SlotsOfTwo(s, s);
    PairsOfOne(t);
  }

  lemma {:induction false} SplitCorrect<V>(t: Node<V>, d: nat, e: Entry<V>)
    requires d <= 7 && Shaped(t, Path(e.key.hash, d)) && IsLeafLike(t)
    requires t.keyHash == e.key.hash ==> t.Leaf? && t.entry.key != e.key
    ensures Shaped(Split(t, d, e), Path(e.key.hash, d))
    ensures Pairs(Split(t, d, e)) == Pairs(t) + multiset{e}
    decreases 7 - d
  {
    var h := e.key.hash;
    if t.keyHash != h {
      if d == 7 {
        SamePathSameHash(t.keyHash, h, 0);
        assert false;
      } else if SlotAt(t.keyHash, d) != SlotAt(h, d) {
        SplitApart(t, d, e);
      } else {
        LeafMovesDown(t, Path(h, d));
        SplitCorrect(t, d + 1, e);
        if t.keyHash != h && IsLeafLike(Split(t, d + 1, e)) { assert false; }
        SplitOnce(Split(t, d + 1, e), Path(h, d), SlotAt(h, d));
      }
    }
  }

  lemma PairsOfOne<V>(n: Node<V>)
    ensures PairsOfNodes([n]) == Pairs(n)
  {
    assert [n][..0] == [];
  }

  lemma SlotsOfTwo(s: Slot, u: Slot)
    ensures Rank({s, u}, 32) == if s == u then 1 else 2
    ensures Rank({s, u}, s) == if u < s then 1 else 0
    ensures Rank({s, u}, u) == if s < u then 1 else 0
  {
    forall n: nat | n <= 32
      ensures Rank({s, u}, n) == (if s < n then 1 else 0) + (if u < n && s != u then 1 else 0)
    {
      NoSlots(n);
      RankChange({}, s, n);
      RankChange({s}, u, n);
      assert {} + {s} == {s} && {s} + {u} == {s, u};
    }
  }

  lemma {:induction false} NoSlots(n: nat)
    requires n <= 32
    ensures Rank({}, n) == 0
  {
    if n > 0 { NoSlots(n - 1); }
  }

  /** r is what an update of key k to v (None removes it) must make of t. */
  ghost predicate Correct<V>(t: Node<V>, d: nat, k: Key, v: Option<V>, r: Updated<V>)
    requires Shaped(t, Path(k.hash, d))
  {
    CorrectSlot(Some(t), Get(t, d, k), Path(k.hash, d), k, v, r)
  }

  // The same for a slot that may be empty; was is what get found for k in it.
  ghost predicate CorrectSlot<V>(slot: Option<Node<V>>, was: Option<V>, path: seq<Slot>, k: Key, v: Option<V>,
                                 r: Updated<V>) {
    && (r.node.Some? ==> Shaped(r.node.value, path))
    && (r.node.None? ==> slot.Some? ==> slot.value.Leaf?)
    && (r.node.None? ==> r.altered ==> slot.Some?)
    && PairsOfSlot(r.node) + Just(k, was) == PairsOfSlot(slot) + Just(k, v)
    && (r.altered <==> was != v)
    && (r.resized <==> was.Some? != v.Some?)
  }

  lemma NewLeafCorrect<V>(path: seq<Slot>, k: Key, v: Option<V>)
    requires OnPath(k.hash, path)
    ensures CorrectSlot(None, None, path, k, v, NewLeaf(k, v))
  {
  }

  lemma CollisionOther<V>(h: Hash, es: seq<Entry<V>>, d: nat, k: Key, v: Option<V>)
    requires d <= 7 && Shaped(Collision(h, es), Path(k.hash, d)) && k.hash != h
    ensures var t := Collision(h, es); Correct(t, d, k, v, UpdateCollision(t, d, k, v))
  {
    if v.Some? { SplitCorrect(Collision(h, es), d, Entry(k, v.value)); }
  }

  lemma CollisionRemove<V>(h: Hash, es: seq<Entry<V>>, d: nat, k: Key)
    requires d <= 7 && Shaped(Collision(h, es), Path(k.hash, d)) && k.hash == h
    ensures var t := Collision(h, es); Correct(t, d, k, None, UpdateCollision(t, d, k, None))
  {
    var i := FindEntry(es, k);
    if i < |es| {
      RemoveAtCorrect(es, i);
      if |es| == 2 { assert RemoveAt(es, i) == [es[1 - i]]; }
    }
  }

  lemma CollisionSet<V>(h: Hash, es: seq<Entry<V>>, d: nat, k: Key, v: V)
    requires d <= 7 && Shaped(Collision(h, es), Path(k.hash, d)) && k.hash == h
    ensures var t := Collision(h, es); Correct(t, d, k, Some(v), UpdateCollision(t, d, k, Some(v)))
  {
    var i := FindEntry(es, k);
    if i < |es| {
      SetAtCorrect(es, i, Entry(k, v));
    }
  }

  lemma RemoveAtCorrect<V>(es: seq<Entry<V>>, i: nat)
    requires i < |es| && Distinct(es)
    ensures Distinct(RemoveAt(es, i))
    ensures multiset(RemoveAt(es, i)) + multiset{es[i]} == multiset(es)
    ensures forall e | e in RemoveAt(es, i) :: e in es
  {
    hide Pairs;
    var n := |es| - 1;
    assert es == es[..n] + [es[n]];
    if i < n {
      var init := es[..n];
      assert init == init[..i] + [es[i]] + init[i + 1..];
      assert RemoveAt(es, i) == init[..i] + [es[n]] + init[i + 1..];
    }
  }

  lemma SetAtCorrect<V>(es: seq<Entry<V>>, i: nat, e: Entry<V>)
    requires i < |es| && Distinct(es) && e.key == es[i].key
    ensures Distinct(es[i := e])
    ensures multiset(es[i := e]) + multiset{es[i]} == multiset(es) + multiset{e}
  {
    assert es == es[..i] + [es[i]] + es[i + 1..];
    assert es[i := e] == es[..i] + [e] + es[i + 1..];
  }

  lemma BitmapUpdated<V>(b: set<Slot>, ns: seq<Node<V>>, s: Slot, was: Option<V>, path: seq<Slot>, k: Key, v: Option<V>,
                         c: Updated<V>)
    requires Shaped(Bitmap(b, ns), path)
    requires CorrectSlot(View(b, ns)[s], was, path + [s], k, v, c) && c.altered
    ensures c.node.None? ==> s in b
    ensures CorrectSlot(Some(Bitmap(b, ns)), was, path, k, v,
      Updated(Some(BitmapWith(b, ns, s, c.node)), true, c.resized))
  {
    RankMonotone(b, s, 32);
    BitmapRebuilt(b, ns, s, c.node, path);
    ViewPairs(b, ns);
    Combine(Pairs(BitmapWith(b, ns, s, c.node)), PairsOfSlot(View(b, ns)[s]), PairsOfNodes(ns), PairsOfSlot(c.node),
            Just(k, was), Just(k, v));
  }

  lemma HashArrayUpdated<V>(count: nat, slots: seq<Option<Node<V>>>, s: Slot, was: Option<V>, path: seq<Slot>, k: Key,
                            v: Option<V>, c: Updated<V>)
    requires Shaped(HashArray(count, slots), path)
    requires CorrectSlot(slots[s], was, path + [s], k, v, c) && c.altered
    ensures CorrectSlot(Some(HashArray(count, slots)), was, path, k, v,
                        Updated(Some(HashArrayWith(count, slots, s, c.node)), true, c.resized))
  {
    HashArrayRebuilt(count, slots, s, c.node, path);
    Combine(Pairs(HashArrayWith(count, slots, s, c.node)), PairsOfSlot(slots[s]), PairsOfSlots(slots),
            PairsOfSlot(c.node), Just(k, was), Just(k, v));
  }

  lemma {:induction false} UpdateCorrect<V>(t: Node<V>, d: nat, k: Key, v: Option<V>)
    requires d <= 7 && Shaped(t, Path(k.hash, d))
    ensures Correct(t, d, k, v, Update(t, d, k, v))
    decreases t
  {
    match t
    case Leaf(h, e) =>
      if e.key != k && v.Some? { SplitCorrect(t, d, Entry(k, v.value)); }
    case Collision(h, es) =>
      if k.hash != h { CollisionOther(h, es, d, k, v); }
      else if v.None? { CollisionRemove(h, es, d, k); }
      else { CollisionSet(h, es, d, k, v.value); }
    case Bitmap(b, ns) => UpdateBitmapCorrect(b, ns, d, k, v);
    case HashArray(count, slots) => UpdateHashArrayCorrect(count, slots, d, k, v);
  }

  lemma {:induction false} UpdateBitmapCorrect<V>(b: set<Slot>, ns: seq<Node<V>>, d: nat, k: Key, v: Option<V>)
    requires d <= 7 && Shaped(Bitmap(b, ns), Path(k.hash, d))
    ensures Correct(Bitmap(b, ns), d, k, v, Update(Bitmap(b, ns), d, k, v))
    decreases Bitmap(b, ns), 0
  {
    hide *;
    UpdateBitmapStep(b, ns, d, k, v);
    GetBitmapStep(b, ns, d, k);
    var s, path, t := SlotAt(k.hash, d), Path(k.hash, d), Bitmap(b, ns);
    PathLonger(k.hash, d);
    OnPathChild(k.hash, path, s);
    var was := Get(t, d, k);
    CorrectAt(t, d, k, v, Update(t, d, k, v));
    ViewAt(b, ns, s);
    if s in b {
      var child := ns[Rank(b, s)];
      UpdateCorrect(child, d + 1, k, v);
      var c := Update(child, d + 1, k, v);
      CorrectAt(child, d + 1, k, v, c);
      Unaltered(t, Some(child), was, path, path + [s], k, v, c);
      if c.altered { BitmapUpdated(b, ns, s, was, path, k, v, c); }
    } else {
      NewLeafCorrect(path + [s], k, v);
      NewLeafIs(k, v);
      Unaltered(t, None, None, path, path + [s], k, v, NewLeaf(k, v));
      if v.Some? { BitmapUpdated(b, ns, s, None, path, k, v, NewLeaf(k, v)); }
    }
  }

  lemma PathLonger(h: nat, d: nat)
    ensures OnPath(h, Path(h, d)) && Path(h, d + 1) == Path(h, d) + [SlotAt(h, d)]
  {
  }

  // Correct, for a node that is not in a slot.
  lemma CorrectAt<V>(t: Node<V>, d: nat, k: Key, v: Option<V>, r: Updated<V>)
    requires Shaped(t, Path(k.hash, d))
    ensures Correct(t, d, k, v, r) <==> CorrectSlot(Some(t), Get(t, d, k), Path(k.hash, d), k, v, r)
  {
  }

  // A slot that an update leaves alone.
  lemma Unaltered<V>(t: Node<V>, slot: Option<Node<V>>, was: Option<V>, path: seq<Slot>, p: seq<Slot>, k: Key,
                     v: Option<V>, c: Updated<V>)
    requires CorrectSlot(slot, was, p, k, v, c) && Shaped(t, path)
    ensures c.resized <==> was.Some? != v.Some?
    ensures !c.altered ==> CorrectSlot(Some(t), was, path, k, v, Updated(Some(t), false, false))
  {
    hide Shaped, Pairs;
  }

  lemma NewLeafIs<V>(k: Key, v: Option<V>)
    ensures NewLeaf(k, v) == if v.None? then Updated(None, false, false)
      else Updated(Some(Leaf(k.hash, Entry(k, v.value))), true, true)
  {
  }

  lemma {:induction false} UpdateHashArrayCorrect<V>(count: nat, slots: seq<Option<Node<V>>>, d: nat, k: Key,
                                                     v: Option<V>)
    requires d <= 7 && Shaped(HashArray(count, slots), Path(k.hash, d))
    ensures Correct(HashArray(count, slots), d, k, v, Update(HashArray(count, slots), d, k, v))
    decreases HashArray(count, slots), 0
  {
    hide *;
    UpdateHashArrayStep(count, slots, d, k, v);
    GetHashArrayStep(count, slots, d, k);
    var s, path, t := SlotAt(k.hash, d), Path(k.hash, d), HashArray(count, slots);
    PathLonger(k.hash, d);
    OnPathChild(k.hash, path, s);
    var was := Get(t, d, k);
    CorrectAt(t, d, k, v, Update(t, d, k, v));
    if slots[s].Some? {
      UpdateCorrect(slots[s].value, d + 1, k, v);
      var c := Update(slots[s].value, d + 1, k, v);
      CorrectAt(slots[s].value, d + 1, k, v, c);
      Unaltered(t, slots[s], was, path, path + [s], k, v, c);
      if c.altered { HashArrayUpdated(count, slots, s, was, path, k, v, c); }
    } else {
      NewLeafCorrect(path + [s], k, v);
      NewLeafIs(k, v);
      Unaltered(t, None, None, path, path + [s], k, v, NewLeaf(k, v));
      if v.Some? { HashArrayUpdated(count, slots, s, None, path, k, v, NewLeaf(k, v)); }
    }
  }

  lemma Combine<T>(r: multiset<T>, old_: multiset<T>, t: multiset<T>, new_: multiset<T>, a: multiset<T>, b: multiset<T>)
    requires r + old_ == t + new_
    requires new_ + a == old_ + b
    ensures r + a == t + b
  {
    forall x
      ensures (r + a)[x] == (t + b)[x]
    {
      assert (r + old_)[x] == (t + new_)[x];
      assert (new_ + a)[x] == (old_ + b)[x];
    }
  }
}
