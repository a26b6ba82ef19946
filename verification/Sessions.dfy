/**
 When a withMutations session changes a map that existed before it, told from the map and the
 updates alone.

 The two entries of a collision node are removed down to one by moving the pair of the other, as
 the object it is, into a leaf of the session. Until that pair is replaced, or bound in a collision
 node again, a set of its key writes to it, and it is still part of the map the session came from.
 */
module Sessions {
  import opened Wrappers
  import opened HashTrie
  import P = PersistentMap

  // The other keys with the hash of k.
  ghost function MatesIn<V>(c: map<Key, V>, k: Key): set<Key> {
    set x | x in c && x != k && x.hash == k.hash
  }

  // The keys of other hashes.
  ghost function OtherHashes(ks: set<Key>, k: Key): set<Key> {
    set x | x in ks && x.hash != k.hash
  }

  // The keys whose pair a removal of k lets into a leaf of the session: its only mate, if its pair was kept.
  ghost function LetGo<V>(c: map<Key, V>, kept: set<Key>, k: Key): set<Key> {
    if |MatesIn(c, k)| == 1 then MatesIn(c, k) * kept else {}
  }

  /**
   The first of the updates that leaks, their number if none does. c is what the map holds, kept are
   the keys whose pair has not been replaced since the session began, and loose are those of them
   whose pair is in a leaf of the session.
   */
  ghost function FirstLeak<V>(c: map<Key, V>, kept: set<Key>, loose: set<Key>, ops: seq<P.Op<V>>): (n: nat)
    ensures n <= |ops|
    decreases |ops|
  {
    if |ops| == 0 then 0
    else match ops[0]
      case Set(k, v) =>
        if k in c && c[k] == v then 1 + FirstLeak(c, kept, loose, ops[1..])
        else if k in c && k in loose then 0
        else 1 + FirstLeak(c[k := v], kept - {k}, OtherHashes(loose, k), ops[1..])
      case Remove(k) =>
        if k !in c then 1 + FirstLeak(c, kept, loose, ops[1..])
        else 1 + FirstLeak(c - {k}, kept - {k}, OtherHashes(loose, k) + LetGo(c, kept, k), ops[1..])
      case Clear => 1 + FirstLeak(map[], {}, {}, ops[1..])
  }

  // The pairs of a trie are kept at first; those of an array node never come into a leaf.
  ghost function Start<V>(m: P.Map<V>): set<Key>
    requires P.Valid(m)
  {
    if m.root.Some? && !m.root.value.ArrayMap? then P.Contents(m).Keys else {}
  }

  /** A session with these updates changes a pair of the map it starts from. */
  ghost predicate Leaks<V>(m: P.Map<V>, ops: seq<P.Op<V>>)
    requires P.Valid(m)
  {
    FirstLeak(P.Contents(m), Start(m), {}, ops) < |ops|
  }

  // ---------------------------------------------------------------------
  // Sessions that never leak
  // ---------------------------------------------------------------------

  lemma {:induction false} NothingKept<V>(c: map<Key, V>, loose: set<Key>, ops: seq<P.Op<V>>)
    requires loose == {}
    ensures FirstLeak(c, {}, loose, ops) == |ops|
    decreases |ops|
  {
    if |ops| > 0 {
      match ops[0]
      case Set(k, v) =>
        assert {} - {k} == {};
        NothingKept(c, loose, ops[1..]);
        NothingKept(c[k := v], OtherHashes(loose, k), ops[1..]);
      case Remove(k) =>
        assert {} - {k} == {} && OtherHashes(loose, k) + LetGo(c, {}, k) == {};
        NothingKept(c, loose, ops[1..]);
        NothingKept(c - {k}, {}, ops[1..]);
      case Clear => NothingKept(map[], {}, ops[1..]);
    }
  }

  /** A session of a map whose root is an array node, or that is empty, never leaks. */
  lemma SmallMapSafe<V>(m: P.Map<V>, ops: seq<P.Op<V>>)
    requires P.Valid(m) && (m.root.None? || m.root.value.ArrayMap?)
    ensures !Leaks(m, ops)
  {
    NothingKept(P.Contents(m), {}, ops);
  }

  lemma {:induction false} NothingRemoved<V>(c: map<Key, V>, kept: set<Key>, loose: set<Key>, ops: seq<P.Op<V>>)
    requires loose == {} && forall op | op in ops :: !op.Remove?
    ensures FirstLeak(c, kept, loose, ops) == |ops|
    decreases |ops|
  {
    if |ops| > 0 {
      assert ops[0] in ops;
      match ops[0]
      case Set(k, v) =>
        NothingRemoved(c, kept, loose, ops[1..]);
        NothingRemoved(c[k := v], kept - {k}, OtherHashes(loose, k), ops[1..]);
      case Clear => NothingRemoved(map[], {}, {}, ops[1..]);
    }
  }

  /** A session that removes no key never leaks. */
  lemma NoRemovalSafe<V>(m: P.Map<V>, ops: seq<P.Op<V>>)
    requires P.Valid(m) && forall op | op in ops :: !op.Remove?
    ensures !Leaks(m, ops)
  {
    NothingRemoved(P.Contents(m), Start(m), {}, ops);
  }

  // The keys that the updates name.
  ghost function Named<V>(ops: seq<P.Op<V>>): set<Key>
    decreases |ops|
  {
    if |ops| == 0 then {} else (if ops[0].Clear? then {} else {ops[0].key}) + Named(ops[1..])
  }

  ghost predicate HashesDiffer(ks: set<Key>) {
    forall x, y | x in ks && y in ks && x != y :: x.hash != y.hash
  }

  lemma {:induction false} NoMates<V>(c: map<Key, V>, kept: set<Key>, loose: set<Key>, ops: seq<P.Op<V>>, ks: set<Key>)
    requires loose == {} && HashesDiffer(ks) && c.Keys <= ks && Named(ops) <= ks
    ensures FirstLeak(c, kept, loose, ops) == |ops|
    decreases |ops|
  {
    if |ops| > 0 {
      match ops[0]
      case Set(k, v) =>
        NoMates(c, kept, loose, ops[1..], ks);
        NoMates(c[k := v], kept - {k}, OtherHashes(loose, k), ops[1..], ks);
      case Remove(k) =>
        assert k in ks && MatesIn(c, k) == {};
        NoMates(c, kept, loose, ops[1..], ks);
        NoMates(c - {k}, kept - {k}, OtherHashes(loose, k) + LetGo(c, kept, k), ops[1..], ks);
      case Clear => NoMates(map[], {}, {}, ops[1..], ks);
    }
  }

  /** A session over keys of pairwise different hashes never leaks. */
  lemma DifferentHashesSafe<V>(m: P.Map<V>, ops: seq<P.Op<V>>)
    requires P.Valid(m) && HashesDiffer(P.Contents(m).Keys + Named(ops))
    ensures !Leaks(m, ops)
  {
    NoMates(P.Contents(m), Start(m), {}, ops, P.Contents(m).Keys + Named(ops));
  }

  /** The shortest leak: two keys of one hash in a trie; one is removed and the other set to something else. */
  lemma RemoveThenSetLeaks<V>(m: P.Map<V>, j: Key, k: Key, v: V)
    requires P.Valid(m) && m.root.Some? && !m.root.value.ArrayMap?
    requires j in P.Contents(m) && MatesIn(P.Contents(m), j) == {k} && P.Contents(m)[k] != v
    ensures FirstLeak(P.Contents(m), Start(m), {}, [P.Remove(j), P.Set(k, v)]) == 1
    ensures Leaks(m, [P.Remove(j), P.Set(k, v)])
  {
    var c := P.Contents(m);
    assert [P.Remove(j), P.Set(k, v)][1..] == [P.Set(k, v)];
    assert k in MatesIn(c, j);
    assert k in LetGo(c, c.Keys, j) && k in c - {j} && (c - {j})[k] == c[k];
    assert FirstLeak(c - {j}, c.Keys - {j}, OtherHashes({}, j) + LetGo(c, c.Keys, j), [P.Set(k, v)]) == 0;
  }

  // ---------------------------------------------------------------------
  // Mates in the trie and in the map
  // ---------------------------------------------------------------------

  lemma {:induction false} MateFound<V>(t: Node<V>, d: nat, k: Key, x: Key)
    requires Shaped(t, Path(k.hash, d)) && x.hash == k.hash && x != k && Get(t, d, k).Some?
    ensures x in Mates(t, d, k) <==> Get(t, d, x).Some?
    decreases t
  {
    hide Path, SlotAt, Drop, Rank;
    var s := SlotAt(k.hash, d);
    match t
    case Leaf(_, _) =>
    case Collision(_, es) =>
      if GetIn(es, x).Some? { assert es[FindEntry(es, x)] in es; }
    case Bitmap(b, ns) =>
      GetBitmapStep(b, ns, d, k);
      GetBitmapStep(b, ns, d, x);
      MateFound(ns[Rank(b, s)], d + 1, k, x);
    case HashArray(count, slots) =>
      GetHashArrayStep(count, slots, d, k);
      GetHashArrayStep(count, slots, d, x);
      MateFound(slots[s].value, d + 1, k, x);
  }

  /** The mates that a trie holds next to k are the keys of its hash in the map. */
  lemma MatesAreMates<V>(m: P.Map<V>, k: Key)
    requires P.Valid(m) && m.root.Some? && !m.root.value.ArrayMap? && P.GetFrom(m, k).Some?
    ensures Mates(m.root.value, 0, k) == MatesIn(P.Contents(m), k)
  {
    var t := m.root.value;
    MatesHash(t, 0, k);
    forall x
      ensures x in Mates(t, 0, k) <==> x in MatesIn(P.Contents(m), k)
    {
      P.GetRefines(m, x);
      if x.hash == k.hash && x != k { MateFound(t, 0, k, x); }
    }
  }
}
