/**
 Map.set, Map.remove, clear, get and withMutations of module 43393 on nodes in memory:
 a session edits its own nodes in place, and is compared with the same updates done on the
 persistent map.
 */
module TransientMap {
  import opened Wrappers
  import T = HashTrie
  import opened HashTrie
  import opened TransientTrie
  import P = PersistentMap
  import opened Sessions
  import opened TwoKeys

  class MutableMap<V(==)> {  // ne(size, root, ownerID)
    var size: nat
    var root: Cell?<V>
    var owner: Owner?
    var altered: bool

    constructor (n: nat, r: Cell?<V>, o: Owner?)
      ensures size == n && root == r && owner == o && !altered
    {
      size, root, owner, altered := n, r, o, false;
    }

    ghost function Value(): P.Map<V>
      reads this, root
    {
      P.Map(size, if root == null then None else Some(root.tree))
    }

    ghost function Parts(w: World<V>): set<object>
      reads this, root
    {
      if root == null then {} else root.OwnOf(w)
    }

    ghost predicate Valid(w: World<V>)
      reads this, root, Parts(w), w.cells, w.pairs
    {
      && (root != null ==> root.Valid(w))
      && P.Valid(Value())
      && this !in Parts(w)
    }

    // What an update of k to v would overwrite outside the session.
    function LeakSet(w: World<V>, tok: Owner?, k: Key, v: Option<V>): set<Pair<V>>
      requires w.Ok() && Valid(w)
      reads this, root, Parts(w), w.cells, w.pairs
    {
      if root == null || root.body.ArrayBody? then {} else (root.ArrayTree(w); root.LeakSet(w, tok, 0, k, v))
    }

    /** oe: set when v is Some, remove when it is None. */
    method Put(ghost w: World<V>, k: Key, v: Option<V>) returns (r: MutableMap<V>)
      requires w.Foreign(owner) && w.Ok() && Valid(w) && (root == null ==> w.Blank())
      modifies this, Parts(w), LeakSet(w, owner, k, v)
      ensures old(LeakSet(w, owner, k, v)) == {} ==>
        && r.Valid(AfterUpdate(w, old(Value()), k, v))
        && r.Value() == P.UpdateMap(old(Value()), k, v)
        && (forall o | o in r.Parts(w) :: o in old(Parts(w)) || fresh(o))
        && (owner != null ==> altered == (old(altered) || P.GetFrom(old(Value()), k) != v))
      ensures if old(owner) != null then r == this && owner == old(owner)
              else unchanged(this) && (r == this || fresh(r)) && r.owner == null
      ensures Cell.Leaked(w, old(LeakSet(w, owner, k, v)), k, v, r == this)
    {
      if root != null {
        r := PutInRoot(w, k, v);
      } else if v == None {
        r := this;
      } else {
        var newRoot := MakeArray(w, owner, k, v.value);
        r := Install(1, newRoot);
      }
    }

    method PutInRoot(ghost w: World<V>, k: Key, v: Option<V>) returns (r: MutableMap<V>)
      requires w.Foreign(owner) && w.Ok() && Valid(w) && root != null
      modifies this, Parts(w), LeakSet(w, owner, k, v)
      ensures old(LeakSet(w, owner, k, v)) == {} ==>
        && r.Valid(AfterUpdate(w, old(Value()), k, v))
        && r.Value() == P.UpdateMap(old(Value()), k, v)
        && (forall o | o in r.Parts(w) :: o in old(Parts(w)) || fresh(o))
        && (owner != null ==> altered == (old(altered) || P.GetFrom(old(Value()), k) != v))
      ensures if old(owner) != null then r == this && owner == old(owner)
              else unchanged(this) && (r == this || fresh(r)) && r.owner == null
      ensures Cell.Leaked(w, old(LeakSet(w, owner, k, v)), k, v, r == this)
    {
      hide World.Ok, World.After, P.UpdateMap, P.UpdateRoot, P.GetFrom, P.Valid, ShapedRoot, Cell.Valid;
      assert Value() == P.Map(size, Some(root.tree));
      P.UpdateMapStep(Value(), k, v);
      RootShaped(Value());
      root.ArrayTree(w);
      UpdateLike(w, Value(), k, v);
      ghost var ok, a := LeakSet(w, owner, k, v) == {}, AfterUpdate(w, Value(), k, v);
      var newRoot, did, resized := UpdateRoot(w, owner, root, k, v);
      assert ok && newRoot != null ==> newRoot.OwnOf(a) == newRoot.OwnOf(w) && this !in newRoot.OwnOf(w);
      if !did { return this; }
      r := Install(if !resized then size else if v == None then size - 1 else size + 1, newRoot);
    }

    /** get */
    method Lookup(ghost w: World<V>, k: Key) returns (x: Option<V>)
      requires w.Ok() && Valid(w)
      ensures x == P.GetFrom(Value(), k)
    {
      if root == null { return None; }
      root.ArrayTree(w);
      if root.body.ArrayBody? {
        root.EntriesValid(w);
        Cell.FindPairIsFindEntry(root.body.entries, root.tree.entries, k);
        x := Cell.ReadPairs(root.body.entries, k);
      } else {
        x := root.Lookup(w, 0, k);
      }
    }

    method Clear(ghost w: World<V>) returns (r: MutableMap<V>)
      requires w.Foreign(owner) && w.Ok() && Valid(w)
      modifies this
      ensures r.Valid(w) && r.Value() == P.Map(0, None)
      ensures forall o | o in r.Parts(w) :: o in old(Parts(w))
      ensures if old(owner) != null
        then r == this && owner == old(owner) && altered == (old(altered) || old(size) != 0)
        else unchanged(this) && (r == this || fresh(r)) && r.owner == null
    {
      if size == 0 {
        P.SizeZero(Value());
        r := this;
      } else if owner != null {
        size, root, altered := 0, null, true;
        r := this;
      } else {
        r := new MutableMap(0, null, null);
      }
    }

    method AsMutable(ghost w: World<V>) returns (e: MutableMap<V>)
      requires w.Ok() && Valid(w) && w.Foreign(owner)
      ensures e.owner != null && w.Foreign(e.owner) && e.Valid(w) && e.Value() == Value()
      ensures if owner != null then e == this else fresh(e) && !e.altered
      ensures forall o | o in e.Parts(w) :: o in Parts(w)
    {
      if owner != null { return this; }
      var tok := new Owner();
      e := new MutableMap(size, root, tok);
    }

    // __ensureOwner(t), where t is this map's own token or none
    method EnsureOwner(ghost w: World<V>, t: Owner?) returns (r: MutableMap<V>)
      requires (t == owner || t == null) && w.Ok() && Valid(w)
      modifies this
      ensures r == this && owner == t && Valid(w) && Value() == old(Value())
      ensures t == old(owner) ==> unchanged(this)
    {
      if t != owner { owner, altered := t, false; }
      r := this;
    }

    // The world follows the session of this map.
    ghost predicate Tracked(w: World<V>)
      requires P.Valid(Value())
      reads this, root
    {
      w.tok != null ==> w.tok == owner && w.loose <= w.kept <= P.Contents(Value()).Keys
    }

    // Ready for the next update of a session.
    ghost predicate InSession(w: World<V>)
      reads this, root, Parts(w), w.cells, w.pairs
    {
      owner != null && w.Foreign(owner) && w.Ok() && Valid(w) && Tracked(w)
    }

    // One update of a session.
    method Apply(ghost w: World<V>, op: P.Op<V>)
      requires InSession(w) && LeakOf(w, op) == {}
      modifies this, Parts(w)
      ensures owner == old(owner) && Value() == P.Step(old(Value()), op)
      ensures InSession(AfterOp(w, old(Value()), op))
      ensures forall o | o in Parts(w) :: o in old(Parts(w)) || fresh(o)
      ensures old(altered) ==> altered
      ensures !altered ==> Value() == old(Value())
    {
      hide InSession, P.UpdateMap, AfterUpdate, LeakSet;
      match op
      case Set(k, v) => PutHere(w, k, Some(v));
      case Remove(k) => RemovesNothing(w, k); PutHere(w, k, None);
      case Clear => ClearHere(w);
    }

    // Of an array node and of nothing there is nothing to know.
    lemma BlankRoot(w: World<V>)
      requires InSession(w)
      ensures root == null || root.tree.ArrayMap? ==> w.Blank()
    {
      if root == null {
        assert P.Contents(Value()).Keys == {};
      } else {
        root.ArrayTree(w);
        if root.body.ArrayBody? { root.EntriesValid(w); }
      }
    }

    // A removal overwrites nothing.
    lemma RemovesNothing(w: World<V>, k: Key)
      requires InSession(w)
      ensures w.Ok() && Valid(w) && LeakSet(w, owner, k, None) == {}
    {
    }

    // set or remove in a session
    method PutHere(ghost w: World<V>, k: Key, v: Option<V>)
      requires InSession(w) && LeakSet(w, owner, k, v) == {}
      modifies this, Parts(w)
      ensures owner == old(owner) && Value() == P.UpdateMap(old(Value()), k, v)
      ensures InSession(AfterUpdate(w, old(Value()), k, v))
      ensures forall o | o in Parts(w) :: o in old(Parts(w)) || fresh(o)
      ensures old(altered) ==> altered
      ensures !altered ==> Value() == old(Value())
    {
      hide World.After, P.UpdateMap, P.GetFrom, P.Contents, LeakSet, AfterUpdate;
      ghost var m := Value();
      BlankRoot(w);
      UpdateLike(w, m, k, v);
      UpdateTracked(w, m, k, v);
      if P.GetFrom(m, k) == v { P.UpdateToSame(m, k, v); }
      var r := Put(w, k, v);
    }

    method ClearHere(ghost w: World<V>)
      requires InSession(w)
      modifies this
      ensures owner == old(owner) && Value() == P.Map(0, None)
      ensures InSession(if w.tok == null then w else w.(kept := {}, loose := {}))
      ensures forall o | o in Parts(w) :: o in old(Parts(w)) || fresh(o)
      ensures old(altered) ==> altered
      ensures !altered ==> Value() == old(Value())
    {
      hide P.Contents;
      if size == 0 { P.SizeZero(Value()); }
      var r := Clear(w);
    }

    function LeakOf(w: World<V>, op: P.Op<V>): (leak: set<Pair<V>>)
      requires w.Ok() && Valid(w)
      ensures leak <= w.pairs
      reads this, root, Parts(w), w.cells, w.pairs
    {
      if op.Set? then LeakSet(w, owner, op.key, Some(op.value)) else {}
    }

    // An update leaks if and only if it is the first to, by what the world tells of the keys; if it
    // does not, the first to leak is as far behind it as before.
    lemma LeakIsFirst(w: World<V>, ops: seq<P.Op<V>>, n: nat)
      requires InSession(w) && w.tok != null && n < |ops|
      ensures LeakOf(w, ops[n]) != {} <==> FirstLeak(P.Contents(Value()), w.kept, w.loose, ops[n..]) == 0
      ensures P.Valid(P.Step(Value(), ops[n]))
      ensures var a := AfterOp(w, Value(), ops[n]);
        LeakOf(w, ops[n]) == {} ==>
          FirstLeak(P.Contents(Value()), w.kept, w.loose, ops[n..]) ==
            1 + FirstLeak(P.Contents(P.Step(Value(), ops[n])), a.kept, a.loose, ops[n + 1..])
    {
      hide P.Contents, P.Step, AfterOp, P.GetFrom;
      P.StepValid(Value(), ops[n]);
      BlankRoot(w);
      if ops[n].Set? { SetLeaks(w, ops[n].key, ops[n].value); }
      FirstIsNow(P.Contents(Value()), w.kept, w.loose, ops, n);
      if LeakOf(w, ops[n]) == {} { FirstLater(w, Value(), ops, n); }
    }

    lemma SetLeaks(w: World<V>, k: Key, v: V)
      requires InSession(w) && w.tok != null
      ensures var c := P.Contents(Value()); LeakSet(w, owner, k, Some(v)) != {} <==> k in c && c[k] != v && k in w.loose
    {
      P.GetRefines(Value(), k);
      if root != null {
        root.ArrayTree(w);
        if root.body.ArrayBody? { root.EntriesValid(w); } else { root.LeakFound(w, owner, 0, k, Some(v)); }
      }
    }

    // The updates of a session, in order, up to the first that leaks.
    method ApplyAll(w: World<V>, ops: seq<P.Op<V>>) returns (n: nat)
      requires InSession(w)
      modifies this, Parts(w)
      ensures n <= |ops| && owner == old(owner) && Value() == P.RunFrom(old(Value()), ops[..n])
      ensures w.tok != null ==> n == FirstLeak(P.Contents(old(Value())), w.kept, w.loose, ops)
      ensures InSession(Follow(w, old(Value()), ops[..n]))
      ensures n < |ops| ==> LeakOf(Follow(w, old(Value()), ops[..n]), ops[n]) != {}
      ensures forall o | o in Parts(w) :: o in old(Parts(w)) || fresh(o)
      ensures !altered ==> Value() == old(Value())
    {
      hide P.Contents, P.Step, P.RunFrom, AfterOp, Follow, FirstLeak, Tracked, LeakOf;
      n := 0;
      var a := w;
      ghost var m := Value();
      FollowNone(w, m, ops);
      while n < |ops| && LeakOf(a, ops[n]) == {}
        invariant n <= |ops| && owner == old(owner) && InSession(a) && a.cells == w.cells && a.pairs == w.pairs
          && a.tok == w.tok
        invariant a == Follow(w, m, ops[..n]) && Value() == P.RunFrom(m, ops[..n])
        invariant w.tok != null ==>
          FirstLeak(P.Contents(m), w.kept, w.loose, ops) ==
            n + FirstLeak(P.Contents(Value()), a.kept, a.loose, ops[n..])
        invariant forall o | o in Parts(w) :: o in old(Parts(w)) || fresh(o)
        invariant !altered ==> Value() == m
      {
        if w.tok != null { LeakIsFirst(a, ops, n); }
        FollowMore(w, m, ops, n);
        a := ApplyNext(a, ops[n]);
        n := n + 1;
      }
      if n < |ops| && w.tok != null { LeakIsFirst(a, ops, n); }
    }

    method ApplyNext(a: World<V>, op: P.Op<V>) returns (b: World<V>)
      requires InSession(a) && LeakOf(a, op) == {}
      modifies this, Parts(a)
      ensures owner == old(owner) && Value() == P.Step(old(Value()), op)
      ensures b == AfterOp(a, old(Value()), op) && InSession(b) && b.cells == a.cells && b.pairs == a.pairs
        && b.tok == a.tok
      ensures forall o | o in Parts(a) :: o in old(Parts(a)) || fresh(o)
      ensures old(altered) ==> altered
      ensures !altered ==> Value() == old(Value())
    {
      ghost var c := AfterOp(a, Value(), op);
      OpLike(a, Value(), op);
      Apply(a, op);
      b := World(a.cells, a.pairs, c.tok, c.kept, c.loose);
    }

    // An update that leaks changes pairs that existed before the session, all of its key.
    method ApplyLeaking(w: World<V>, op: P.Op<V>)
      requires InSession(w) && LeakOf(w, op) != {}
      modifies this, Parts(w), w.pairs
      ensures owner == old(owner) && unchanged(w.cells) && Overwritten(w, op)
    {
      ghost var p :| p in LeakOf(w, op);
      var r := Put(w, op.key, Some(op.value));
    }

    // Some pairs of w have changed, all of them the pairs of the key that op sets.
    static twostate predicate Overwritten(w: World<V>, op: P.Op<V>)
      reads w.pairs
    {
      && op.Set?
      && (exists p :: p in w.pairs && p.value != old(p.value))
      && forall p | p in w.pairs && p.value != old(p.value) :: p.key == op.key && p.value == op.value
    }

    // The updates of a session, up to and with the first that leaks.
    method RunSession(w: World<V>, ops: seq<P.Op<V>>) returns (leaked: bool, ghost n: nat)
      requires InSession(w)
      modifies this, Parts(w), w.pairs
      ensures owner == old(owner) && unchanged(w.cells) && n <= |ops| && leaked == (n < |ops|)
      ensures w.tok != null ==> n == FirstLeak(P.Contents(old(Value())), w.kept, w.loose, ops)
      ensures !leaked ==>
        && unchanged(w.pairs) && InSession(Follow(w, old(Value()), ops)) && Value() == P.RunFrom(old(Value()), ops)
        && (!altered ==> Value() == old(Value()))
      ensures leaked ==> Overwritten(w, ops[n])
    {
      hide P.Contents, P.RunFrom, Follow, FirstLeak, Tracked, LeakOf;
      ghost var m := Value();
      var k := ApplyAll(w, ops);
      n, leaked := k, k < |ops|;
      ghost var b := Follow(w, m, ops[..n]);
      FollowLike(w, m, ops[..n]);
      if leaked {
        ApplyLeaking(World(w.cells, w.pairs, b.tok, b.kept, b.loose), ops[k]);
      } else {
        assert ops[..n] == ops;
      }
    }

    /**
     withMutations(f), f being the updates ops. leaked reports that an update wrote to a pair that
     existed before; the model stops there, because the maps that hold the pair have changed.
     */
    method WithMutations(w: World<V>, ops: seq<P.Op<V>>) returns (r: MutableMap<V>, leaked: bool)
      requires w.Ok() && Valid(w) && w.Foreign(owner) && (owner != null ==> Tracked(w))
      requires owner == null && root != null ==> root in w.cells
      modifies this, Parts(w), w.pairs
      ensures old(owner) == null ==> (leaked <==> Leaks(old(Value()), ops)) && unchanged(this)
      ensures old(owner) != null && w.tok != null ==>
        (leaked <==> FirstLeak(P.Contents(old(Value())), w.kept, w.loose, ops) < |ops|)
      ensures unchanged(w.cells)
      ensures !leaked ==>
        && unchanged(w.pairs) && r.owner == old(owner) && r.Value() == P.RunFrom(old(Value()), ops)
        && r.Valid(if old(owner) == null then w else Follow(w, old(Value()), ops))
      ensures leaked && old(owner) == null ==>
        Overwritten(w, ops[FirstLeak(P.Contents(old(Value())), Start(old(Value())), {}, ops)])
      ensures leaked ==> exists n :: 0 <= n < |ops| && Overwritten(w, ops[n])
    {
      hide P.Contents, P.RunFrom, Follow, FirstLeak, Tracked, Start;
      var e := AsMutable(w);
      ghost var m, n := Value(), 0;
      ghost var b := if owner == null then w else Follow(w, m, ops);
      if owner == null {
        var a := World(w.cells, w.pairs, e.owner, Start(m), {});
        e.Begins(w, a);
        leaked, n := e.RunSession(a, ops);
        FollowLike(a, m, ops);
        if !leaked { e.Ends(Follow(a, m, ops), w); }
      } else {
        leaked, n := e.RunSession(w, ops);
      }
      if leaked {
        r := e;
      } else if e.altered {
        r := e.EnsureOwner(b, owner);
      } else {
        r := this;
      }
    }

    // A session of a map that has no owner starts with all the pairs of a trie kept.
    lemma Begins(w: World<V>, a: World<V>)
      requires w.tok == null && w.Ok() && Valid(w) && owner != null && w.Foreign(owner)
      requires root != null ==> root in w.cells
      requires a.cells == w.cells && a.pairs == w.pairs && a.tok == owner && a.kept == Start(Value()) && a.loose == {}
      ensures InSession(a)
    {
      if root != null { AllSettled(a, Value()); }
    }

    // The result of a session without what is known of it.
    lemma Ends(b: World<V>, w: World<V>)
      requires InSession(b) && w.tok == null && w.cells == b.cells && w.pairs == b.pairs
      ensures Valid(w)
    {
      if root != null { root.Elsewhere(b, w, 0); }
    }

    // The end of oe.
    method Install(newSize: nat, newRoot: Cell?<V>) returns (r: MutableMap<V>)
      modifies this
      ensures if old(owner) != null
        then r == this && owner == old(owner) && altered && root == newRoot && size == newSize
        else
          && unchanged(this) && fresh(r) && r.owner == null && r.root == newRoot
          && r.size == if newRoot == null then 0 else newSize
    {
      if owner != null {
        size, root, altered := newSize, newRoot, true;
        r := this;
      } else {
        r := new MutableMap(if newRoot == null then 0 else newSize, newRoot, null);
      }
    }
  }

  // ---------------------------------------------------------------------
  // What a session learns of the keys
  // ---------------------------------------------------------------------

  ghost function AfterRoot<V>(w: World<V>, t: T.Node<V>, k: Key, v: Option<V>): World<V>
    requires ShapedRoot(t)
  {
    if t.ArrayMap? then w else w.After(t, 0, k, v)
  }

  ghost function AfterUpdate<V>(w: World<V>, m: P.Map<V>, k: Key, v: Option<V>): World<V>
    requires P.Valid(m)
  {
    if m.root.None? then w else AfterRoot(w, m.root.value, k, v)
  }

  ghost function AfterOp<V>(w: World<V>, m: P.Map<V>, op: P.Op<V>): World<V>
    requires P.Valid(m)
  {
    match op
    case Set(k, v) => AfterUpdate(w, m, k, Some(v))
    case Remove(k) => AfterUpdate(w, m, k, None)
    case Clear => if w.tok == null then w else w.(kept := {}, loose := {})
  }

  // The world after the updates ops of m.
  ghost function Follow<V>(w: World<V>, m: P.Map<V>, ops: seq<P.Op<V>>): World<V>
    requires P.Valid(m)
    decreases |ops|
  {
    if |ops| == 0 then w
    else AfterOp(Follow(w, m, ops[..|ops| - 1]), P.RunFrom(m, ops[..|ops| - 1]), ops[|ops| - 1])
  }

  lemma UpdateLike<V>(w: World<V>, m: P.Map<V>, k: Key, v: Option<V>)
    requires P.Valid(m)
    ensures var a := AfterUpdate(w, m, k, v);
      a.cells == w.cells && a.pairs == w.pairs && a.tok == w.tok && (w.tok == null ==> a == w)
  {
  }

  lemma OpLike<V>(w: World<V>, m: P.Map<V>, op: P.Op<V>)
    requires P.Valid(m)
    ensures var a := AfterOp(w, m, op);
      a.cells == w.cells && a.pairs == w.pairs && a.tok == w.tok && (w.tok == null ==> a == w)
  {
  }

  lemma {:induction false} FollowLike<V>(w: World<V>, m: P.Map<V>, ops: seq<P.Op<V>>)
    requires P.Valid(m)
    ensures var a := Follow(w, m, ops);
      a.cells == w.cells && a.pairs == w.pairs && a.tok == w.tok && (w.tok == null ==> a == w)
    decreases |ops|
  {
    if |ops| > 0 {
      var p := ops[..|ops| - 1];
      FollowLike(w, m, p);
      OpLike(Follow(w, m, p), P.RunFrom(m, p), ops[|ops| - 1]);
    }
  }

  // What a session learns, told from the contents of the map.
  lemma UpdateTells<V>(w: World<V>, m: P.Map<V>, k: Key, v: Option<V>)
    requires P.Valid(m) && w.tok != null && w.loose <= w.kept <= P.Contents(m).Keys
    requires m.root.Some? && m.root.value.ArrayMap? ==> w.Blank()
    ensures var a, c := AfterUpdate(w, m, k, v), P.Contents(m);
      if P.GetFrom(m, k) == v then a == w
      else
        a == w.(kept := w.kept - {k},
                loose := if v == None then OtherHashes(w.loose, k) + LetGo(c, w.kept, k)
                         else OtherHashes(w.loose, k))
  {
    if m.root.None? || m.root.value.ArrayMap? {
      BlankTells(w, m, k);
    } else if v == None && P.GetFrom(m, k).Some? {
      MatesAreMates(m, k);
    } else {
      assert OtherHashes(w.loose, k) + {} == OtherHashes(w.loose, k);
    }
  }

  // A map without trie nodes has nothing to learn from.
  lemma BlankTells<V>(w: World<V>, m: P.Map<V>, k: Key)
    requires P.Valid(m) && w.tok != null && w.loose <= w.kept <= P.Contents(m).Keys
    requires m.root.None? || (m.root.value.ArrayMap? && w.Blank())
    ensures w.kept - {k} == w.kept && OtherHashes(w.loose, k) == w.loose
    ensures OtherHashes(w.loose, k) + LetGo(P.Contents(m), w.kept, k) == w.loose
  {
    if m.root.None? { assert P.Contents(m).Keys == {}; }
    assert w.kept == {};
  }

  // What is known holds of the map after an update.
  lemma UpdateTracked<V>(w: World<V>, m: P.Map<V>, k: Key, v: Option<V>)
    requires P.Valid(m) && (w.tok != null ==> w.loose <= w.kept <= P.Contents(m).Keys)
    requires w.tok != null && m.root.Some? && m.root.value.ArrayMap? ==> w.Blank()
    ensures P.Valid(P.UpdateMap(m, k, v))
    ensures w.tok != null ==> var a := AfterUpdate(w, m, k, v);
      a.loose <= a.kept <= P.Contents(P.UpdateMap(m, k, v)).Keys
  {
    hide P.UpdateMap, P.GetFrom, P.Contents, P.Valid, AfterUpdate;
    P.UpdateRefines(m, k, v);
    if w.tok != null {
      UpdateTells(w, m, k, v);
      P.GetRefines(m, k);
    }
  }

  lemma FollowNone<V>(w: World<V>, m: P.Map<V>, ops: seq<P.Op<V>>)
    requires P.Valid(m)
    ensures ops[..0] == [] && ops[0..] == ops && ops[..|ops|] == ops
    ensures Follow(w, m, ops[..0]) == w && P.RunFrom(m, ops[..0]) == m
  {
  }

  lemma FollowMore<V>(w: World<V>, m: P.Map<V>, ops: seq<P.Op<V>>, n: nat)
    requires P.Valid(m) && n < |ops|
    ensures Follow(w, m, ops[..n + 1]) == AfterOp(Follow(w, m, ops[..n]), P.RunFrom(m, ops[..n]), ops[n])
    ensures P.RunFrom(m, ops[..n + 1]) == P.Step(P.RunFrom(m, ops[..n]), ops[n])
  {
    hide AfterOp;
    var p := ops[..n + 1];
    assert p[..|p| - 1] == ops[..n] && p[|p| - 1] == ops[n];
  }

  // Whether the n-th update is the first to leak.
  lemma FirstIsNow<V>(c: map<Key, V>, kept: set<Key>, loose: set<Key>, ops: seq<P.Op<V>>, n: nat)
    requires n < |ops|
    ensures FirstLeak(c, kept, loose, ops[n..]) == 0 <==>
      ops[n].Set? && ops[n].key in c && c[ops[n].key] != ops[n].value && ops[n].key in loose
  {
  }

  // After an update that does not leak the first leak is where it was.
  lemma FirstLater<V>(w: World<V>, m: P.Map<V>, ops: seq<P.Op<V>>, n: nat)
    requires P.Valid(m) && w.tok != null && w.loose <= w.kept <= P.Contents(m).Keys
    requires m.root.Some? && m.root.value.ArrayMap? ==> w.Blank()
    requires n < |ops| && FirstLeak(P.Contents(m), w.kept, w.loose, ops[n..]) != 0
    ensures P.Valid(P.Step(m, ops[n]))
    ensures var a := AfterOp(w, m, ops[n]);
      FirstLeak(P.Contents(m), w.kept, w.loose, ops[n..]) ==
        1 + FirstLeak(P.Contents(P.Step(m, ops[n])), a.kept, a.loose, ops[n + 1..])
  {
    hide P.UpdateMap, AfterUpdate;
    var op := ops[n];
    assert ops[n..][0] == op && ops[n..][1..] == ops[n + 1..];
    match op
    case Clear => assert P.Contents<V>(P.Map(0, None)) == map[];
    case Set(k, v) =>
      P.GetRefines(m, k);
      P.UpdateRefines(m, k, Some(v));
      UpdateTells(w, m, k, Some(v));
      if P.GetFrom(m, k) == Some(v) { P.UpdateToSame(m, k, Some(v)); }
    case Remove(k) =>
      P.GetRefines(m, k);
      P.UpdateRefines(m, k, None);
      UpdateTells(w, m, k, None);
      if P.GetFrom(m, k) == None { P.UpdateToSame(m, k, None); }
  }

  // At the start of a session the keys of a trie are all settled.
  lemma AllSettled<V>(w: World<V>, m: P.Map<V>)
    requires P.Valid(m) && m.root.Some? && w.kept == Start(m) && w.loose == {}
    ensures w.Settled(m.root.value)
  {
    if !m.root.value.ArrayMap? {
      forall e | e in Pairs(m.root.value)
        ensures e.key in w.kept
      {
        P.PairsCount(m, e);
        P.GetRefines(m, e.key);
      }
      TreeSettled(w, m.root.value, []);
    }
  }

  lemma {:induction false} TreeSettled<V>(w: World<V>, t: T.Node<V>, path: seq<Slot>)
    requires Shaped(t, path) && w.loose == {} && forall e | e in Pairs(t) :: e.key in w.kept
    ensures w.Settled(t)
    decreases t
  {
    match t
    case Leaf(_, e) => assert e in Pairs(t);
    case Collision(_, es) => assert forall i | 0 <= i < |es| :: es[i] in Pairs(t);
    case Bitmap(b, ns) =>
      forall i | 0 <= i < |ns|
        ensures w.Settled(ns[i])
      {
        var s := RankHit(b, i, 32);
        forall e | e in Pairs(ns[i]) ensures e in Pairs(t) { NodePairs(ns, i, e); }
        TreeSettled(w, ns[Rank(b, s)], path + [s]);
      }
    case HashArray(_, slots) =>
      forall i | 0 <= i < |slots|
        ensures w.SettledSlot(slots[i])
      {
        if slots[i].Some? {
          forall e | e in Pairs(slots[i].value) ensures e in Pairs(t) { SlotPairs(slots, i, e); }
          TreeSettled(w, slots[i].value, path + [i]);
        }
      }
  }

  lemma {:induction false} NodePairs<V>(ns: seq<T.Node<V>>, i: nat, e: Entry<V>)
    requires i < |ns| && e in Pairs(ns[i])
    ensures e in PairsOfNodes(ns)
    decreases |ns|
  {
    if i < |ns| - 1 { NodePairs(ns[..|ns| - 1], i, e); }
  }

  lemma {:induction false} SlotPairs<V>(slots: seq<Option<T.Node<V>>>, i: nat, e: Entry<V>)
    requires i < |slots| && slots[i].Some? && e in Pairs(slots[i].value)
    ensures e in PairsOfSlots(slots)
    decreases |slots|
  {
    if i < |slots| - 1 { SlotPairs(slots[..|slots| - 1], i, e); }
  }

  // ---------------------------------------------------------------------
  // The root node
  // ---------------------------------------------------------------------

  method MakeArray<V(==)>(ghost w: World<V>, tok: Owner?, k: Key, v: V) returns (r: Cell<V>)
    requires w.Foreign(tok) && w.Ok() && w.Blank()
    ensures fresh(r) && fresh(r.own) && r.Valid(w) && r.tree == ArrayMap([Entry(k, v)])
  {
    var q := new Pair(k, v);
    r := new Cell(tok, ArrayBody([q]), ArrayMap([Entry(k, v)]), {q});
  }

  lemma RootShaped<V>(m: P.Map<V>)
    requires P.Valid(m) && m.root.Some?
    ensures ShapedRoot(m.root.value)
  {
  }

  method UpdateRoot<V(==)>(ghost w: World<V>, tok: Owner?, n: Cell<V>, k: Key, v: Option<V>)
    returns (r: Cell?<V>, altered: bool, resized: bool)
    requires w.Foreign(tok) && w.Ok() && n.Valid(w) && ShapedRoot(n.tree)
    modifies n.OwnOf(w), if n.tree.ArrayMap? then {} else n.LeakSet(w, tok, 0, k, v)
    ensures old(if n.tree.ArrayMap? then {} else n.LeakSet(w, tok, 0, k, v)) == {} ==>
      var u := P.UpdateRoot(old(n.tree), k, v);
      && altered == u.altered && resized == u.resized
      && (if r == null then u.node == None else u.node == Some(r.tree) && r.Valid(AfterRoot(w, old(n.tree), k, v)))
      && (r != null ==> forall o | o in r.OwnOf(w) :: o in old(n.OwnOf(w)) || fresh(o))
      && (!altered ==> r == n)
    ensures Cell.Leaked(w, old(if n.tree.ArrayMap? then {} else n.LeakSet(w, tok, 0, k, v)), k, v, r == n)
  {
    n.ArrayTree(w);
    if n.body.ArrayBody? {
      r, altered, resized := UpdateArray(w, tok, n, k, v);
    } else {
      r, altered, resized := n.Update(w, tok, 0, k, v);
    }
  }

  // $t.update, on a root that is an array node
  method UpdateArray<V(==)>(ghost w: World<V>, tok: Owner?, n: Cell<V>, k: Key, v: Option<V>)
    returns (r: Cell?<V>, altered: bool, resized: bool)
    requires w.Foreign(tok) && w.Ok() && n.Valid(w) && n.body.ArrayBody? && n.tree.ArrayMap? && ShapedRoot(n.tree)
    modifies n.OwnOf(w)
    ensures var u := P.UpdateArrayMap(old(n.tree.entries), k, v);
      && altered == u.altered && resized == u.resized
      && (if r == null then u.node == None else u.node == Some(r.tree) && r.Valid(w))
      && (r != null ==> forall o | o in r.OwnOf(w) :: o in old(n.OwnOf(w)) || fresh(o))
      && (!altered ==> r == n)
  {
    hide P.Create, P.Move, Cell.Frozen, Shaped, World.Settled, World.Ok;
    var es := n.body.entries;
    n.EntriesValid(w);
    Cell.FindPairIsFindEntry(es, n.tree.entries, k);
    var i := Cell.FindPair(es, k);
    if if i < |es| then v == Some(es[i].value) else v == None {
      return n, false, false;
    }
    altered, resized := true, i == |es| || v == None;
    if v == None {
      if |es| == 1 {
        r := null;
      } else {
        r := PutArray(w, tok, n, RemoveAt(es, i), RemoveAt(n.tree.entries, i), {});
      }
    } else if i == |es| && |es| >= T.ARRAY_MAX {
      r := Create(w, tok, es, n.tree.entries, n.OwnOf(w), k, v.value);
    } else {
      var q := new Pair(k, v.value);
      r := PutArray(w, tok, n, Cell<V>.EntrySet(es, i, q), Cell<V>.EntrySet(n.tree.entries, i, Entry(k, v.value)), {q});
    }
  }

  method PutArray<V(==)>(ghost w: World<V>, tok: Owner?, n: Cell<V>, es: seq<Pair<V>>, ghost ts: seq<Entry<V>>,
                         ghost added: set<object>)
    returns (r: Cell<V>)
    requires w.Foreign(tok) && w.Ok() && n.Apart(w) && w.Blank() && n.body.ArrayBody?
    requires Cell.EntriesMatch(w, n.OwnOf(w) + added, es, ts)
    requires n !in added && Cell.Clear(w, added)
    modifies n.OwnOf(w)
    ensures r.Valid(w) && r.tree == ArrayMap(ts)
    ensures forall o | o in r.OwnOf(w) :: o in old(n.OwnOf(w)) || o in added || fresh(o)
  {
    r := n.PutEntries(w, tok, ArrayBody(es), ArrayMap(ts), added);
  }

  // ce: a trie of its own for the entries of a full array and one more
  method Create<V(==)>(ghost w: World<V>, tok: Owner?, es: seq<Pair<V>>, ghost ts: seq<Entry<V>>,
                       ghost area: set<object>, k: Key, v: V)
    returns (r: Cell<V>)
    requires w.Foreign(tok) && w.Ok() && w.Blank() && Cell.EntriesMatch(w, area, es, ts)
    requires Distinct(ts) && forall j | 0 <= j < |ts| :: ts[j].key != k
    ensures r.Valid(w) && fresh(r.OwnOf(w))
    ensures r.tree == P.Create(ts, Entry(k, v))
  {
    var t := tok;
    if t == null { t := new Owner(); }
    r := Cell.MakeLeaf(w, t, k, v);
    var j := 0;
    while j < |es|
      invariant j <= |es| && Moving(w, r, ts, j)
      invariant fresh(r.OwnOf(w))
      invariant P.Move(r.tree, ts[j..]) == P.Create(ts, Entry(k, v))
    {
      r := MoveOne(w, t, r, ts, j, es[j].key, es[j].value);
      j := j + 1;
    }
  }

  // The first j entries are in the trie i, the others are not.
  ghost predicate Moving<V>(w: World<V>, i: Cell<V>, ts: seq<Entry<V>>, j: nat)
    reads i, i.OwnOf(w), w.cells, w.pairs
  {
    && i.Valid(w) && Shaped(i.tree, [])
    && forall l | j <= l < |ts| :: Get(i.tree, 0, ts[l].key) == None
  }

  method MoveOne<V(==)>(ghost w: World<V>, t: Owner?, i: Cell<V>, ghost ts: seq<Entry<V>>, ghost j: nat, k: Key, v: V)
    returns (r: Cell<V>)
    requires w.Foreign(t) && w.Ok() && w.Blank() && Moving(w, i, ts, j) && Distinct(ts)
    requires j < |ts| && ts[j] == Entry(k, v)
    modifies i.OwnOf(w)
    ensures Moving(w, r, ts, j + 1)
    ensures P.Move(r.tree, ts[j + 1..]) == P.Move(old(i.tree), ts[j..])
    ensures forall o | o in r.OwnOf(w) :: o in old(i.OwnOf(w)) || fresh(o)
  {
    MoveStep(i.tree, ts, j);
    i.LeakFound(w, t, 0, k, Some(v));
    assert Get(i.tree, 0, ts[j].key) == None;
    w.BlankTurns(k, {});
    var c, _, _ := i.Update(w, t, 0, k, Some(v));
    r := c;
  }

  // One round of the loop of ce on values.
  lemma MoveStep<V>(t: T.Node<V>, ts: seq<Entry<V>>, j: nat)
    requires j < |ts| && Shaped(t, []) && Distinct(ts)
    requires forall l | j <= l < |ts| :: Get(t, 0, ts[l].key) == None
    ensures var u := T.Update(t, 0, ts[j].key, Some(ts[j].value));
      && u.node.Some? && Shaped(u.node.value, [])
      && P.Move(t, ts[j..]) == P.Move(u.node.value, ts[j + 1..])
      && forall l | j < l < |ts| :: Get(u.node.value, 0, ts[l].key) == None
  {
    var e := ts[j];
    UpdateCorrect(t, 0, e.key, Some(e.value));
    var n := T.Update(t, 0, e.key, Some(e.value)).node.value;
    assert ts[j..][1..] == ts[j + 1..];
    assert Get(t, 0, ts[j].key) == None;
    forall l | j < l < |ts|
      ensures Get(n, 0, ts[l].key) == None
    {
      P.StillAbsent(t, n, e, ts[l].key);
    }
  }

  // What a world is after a session whose result is m.
  ghost function Joined<V>(m: MutableMap<V>, w: World<V>): World<V>
    requires m.Valid(w)
    reads m, m.root, m.Parts(w), w.cells, w.pairs
  {
    if m.root == null then w else w.(cells := w.cells + m.root.CellsBelow(w), pairs := w.pairs + m.root.PairsBelow(w))
  }

  /** After a session its result can be counted among the maps that later sessions must not change. */
  lemma ResultJoins<V>(m: MutableMap<V>, w: World<V>)
    requires w.tok == null && w.Ok() && m.Valid(w)
    ensures var w' := Joined(m, w);
      && w.cells <= w'.cells && w.pairs <= w'.pairs && w'.Ok() && m.Valid(w')
      && (m.root != null ==> m.root in w'.cells)
  {
    if m.root != null {
      m.root.Freezes(w, Joined(m, w));
      Cell.StaysFrozen(w, Joined(m, w));
    }
  }

  // Two entries of one hash, in a map that no session owns. Its value is one that set and remove
  // reach from the empty map.
  method TwoOfOneHash(h: Hash)
    returns (m: MutableMap<int>, w: World<int>, root: Cell<int>, p1: Pair<int>, p2: Pair<int>)
    ensures fresh(m) && fresh(root) && fresh(p1) && fresh(p2) && p1 != p2
    ensures OfTwo(w, root, p1, p2, h, 1) && w.Ok()
    ensures m.owner == null && m.size == 2 && m.root == root && m.Valid(w)
    ensures P.Contents(m.Value()) == map[Key(1, h) := 1, Key(2, h) := 2] && !root.tree.ArrayMap?
    ensures m.Value() == P.RunFrom(P.Map(0, None), NineThenTwo(h, 2))
  {
    p1 := new Pair(Key(1, h), 1);
    p2 := new Pair(Key(2, h), 2);
    root := new Cell(null, CollisionBody(h, [p1, p2]), TwoEntries(h, 1), {p1, p2});
    w := World({root}, {p1, p2}, null, {}, {});
    m := new MutableMap(2, root, null);
    TwoOk(m, w, root, p1, p2, h, 1);
    TwoValid(h, 1);
    TwoReached(h);
  }

  // A root of the two pairs, p1 having the value v.
  ghost predicate OfTwo(w: World<int>, root: Cell<int>, p1: Pair<int>, p2: Pair<int>, h: Hash, v: int)
    reads root, p1, p2
  {
    && w.cells == {root} && w.pairs == {p1, p2} && w.tok == null
    && root.body == CollisionBody(h, [p1, p2])
    && p1.key == Key(1, h) && p1.value == v && p2.key == Key(2, h) && p2.value == 2
  }

  lemma TwoOk(m: MutableMap<int>, w: World<int>, root: Cell<int>, p1: Pair<int>, p2: Pair<int>, h: Hash, v: int)
    requires OfTwo(w, root, p1, p2, h, v) && root.tree == TwoEntries(h, v)
    requires m.root == root && m.size == 2
    ensures w.Ok() && m.Valid(w) && m.Value() == P.Map(2, Some(TwoEntries(h, v)))
  {
    hide P.Valid, P.Contents, Shaped, Pairs;
    TwoValid(h, v);
    assert root.Frozen(w.cells, w.pairs);
  }

  // get of k1 on the map that holds the two pairs. What the root is said to hold, a ghost, is first
  // brought into line with its pairs.
  method GetFirst(m: MutableMap<int>, ghost w: World<int>, root: Cell<int>, p1: Pair<int>, p2: Pair<int>, h: Hash,
                  ghost v: int)
    returns (x: Option<int>)
    requires OfTwo(w, root, p1, p2, h, v) && m.root == root && m.size == 2
    modifies root`tree
    ensures x == Some(v) && w.Ok() && m.Valid(w) && root.tree == TwoEntries(h, v)
  {
    hide P.Valid, P.GetFrom, Cell.Frozen;
    root.tree := TwoEntries(h, v);
    TwoOk(m, w, root, p1, p2, h, v);
    GetOfTwo(h, v, Key(1, h));
    x := m.Lookup(w, Key(1, h));
  }

  /**
   A leak: a map that holds two keys of one hash, and the session remove(k2), set(k1, 9). The map
   was never edited, and yet its get of k1 gives 1 before the session and 9 after it.
   */
  method OldMapChanges(h: Hash) returns (before: Option<int>, after: Option<int>)
    ensures before == Some(1) && after == Some(9)
  {
    hide FirstLeak, P.RunFrom, P.Contents, P.Valid, Follow, Start, Cell.Frozen;
    var m, w, root, p1, p2 := TwoOfOneHash(h);
    before := GetFirst(m, w, root, p1, p2, h, 1);
    TwoLeak(h);
    var ops := [P.Remove(Key(2, h)), P.Set(Key(1, h), 9)];
    assert m.Value() == P.Map(2, Some(TwoEntries(h, 1)));
    var _, leaked := m.WithMutations(w, ops);
    after := GetFirst(m, w, root, p1, p2, h, 9);
  }
}
