/**
 The trie of module 43393 as it is in memory: nodes are objects with an ownerID, and an
 update that carries the token of a withMutations session edits the nodes of that session
 in place. Each node has a ghost tree, its value in HashTrie; an update is proved to do to
 that value what HashTrie.Update does, and to touch nothing that existed before the session.
 */
module TransientTrie {
  import opened Wrappers
  import T = HashTrie
  import opened HashTrie

  class Owner {  // x: the token of one session
    constructor () {}
  }

  class Pair<V> {  // [key, value]
    const key: Key
    var value: V

    constructor (k: Key, v: V)
      ensures key == k && value == v
    {
      key, value := k, v;
    }
  }

  datatype Body<V> =
    | ArrayBody(entries: seq<Pair<V>>)
    | BitmapBody(bitmap: set<Slot>, nodes: seq<Cell<V>>)
    | HashArrayBody(count: nat, slots: seq<Cell?<V>>)
    | CollisionBody(keyHash: Hash, entries: seq<Pair<V>>)
    | LeafBody(keyHash: Hash, entry: Pair<V>)

  /**
   The nodes and pairs that existed before a session. When a session is followed, tok is its token,
   kept are the keys whose pair is still one that existed before, and loose are those of them whose
   pair has come into a leaf of the session, where a set would write to it.
   */
  datatype World<V> = World(cells: set<Cell<V>>, pairs: set<Pair<V>>, ghost tok: Owner?, ghost kept: set<Key>,
                            ghost loose: set<Key>) {
    // None of them carries the session's token.
    ghost predicate Foreign(t: Owner?) {
      && (tok == null || tok == t)
      && (t == null || forall c | c in cells :: c.owner != t)
    }

    // Whatever existed before is consistent and leads only to what existed before.
    ghost predicate Ok()
      reads cells, pairs
    {
      forall c | c in cells :: c.Frozen(cells, pairs)
    }

    // What is known of the pair of a key in a node of the session.
    ghost predicate Marks(p: Pair<V>, leaf: bool) {
      tok == null || ((p.key in kept <==> p in pairs) && (p.key in loose <==> leaf && p in pairs))
    }

    // What is known of the keys in a node that existed before.
    ghost predicate Settled(t: T.Node<V>)
      decreases t
    {
      tok == null ||
      match t
      case Leaf(_, e) => e.key in kept && e.key !in loose
      case Collision(_, es) => forall i | 0 <= i < |es| :: es[i].key in kept && es[i].key !in loose
      case ArrayMap(_) => Blank()
      case Bitmap(_, ns) => forall i | 0 <= i < |ns| :: Settled(ns[i])
      case HashArray(_, slots) => forall i | 0 <= i < |slots| :: SettledSlot(slots[i])
    }

    ghost predicate SettledSlot(slot: Option<T.Node<V>>)
      decreases slot
    {
      slot.Some? ==> Settled(slot.value)
    }

    ghost predicate Blank() {
      tok == null || (kept == {} && loose == {})
    }

    // The pair of k is one the session made.
    ghost predicate Made(k: Key) {
      tok == null || (k !in kept && k !in loose)
    }

    // The same but for what is known of keys with hash h, or without what is known.
    ghost predicate Like(a: World<V>, h: Hash) {
      && a.cells == cells && a.pairs == pairs && (a.tok == tok || a.tok == null)
      && (a.tok != null ==> forall x: Key | x.hash != h ::
          (x in a.kept <==> x in kept) && (x in a.loose <==> x in loose))
    }

    // After the pair of k is gone or replaced. A removal lets go of a sole mate, a set binds all mates.
    ghost function Turn(k: Key, mates: set<Key>): World<V> {
      if tok == null then this
      else
        this.(kept := kept - {k},
              loose := (set x | x in loose && x.hash != k.hash) + (if |mates| == 1 then mates * kept else {}))
    }

    ghost function After(t: T.Node<V>, d: nat, k: Key, v: Option<V>): World<V>
      requires Shaped(t, Path(k.hash, d))
    {
      if Get(t, d, k) == v then this else Turn(k, if v == None then Mates(t, d, k) else {})
    }

    lemma TurnLike(k: Key, mates: set<Key>)
      requires forall x | x in mates :: x.hash == k.hash
      ensures Like(Turn(k, mates), k.hash)
      ensures |mates| != 1 ==> Turn(k, mates).Made(k)
    {
    }

    lemma AfterLike(t: T.Node<V>, d: nat, k: Key, v: Option<V>)
      requires Shaped(t, Path(k.hash, d))
      ensures Like(After(t, d, k, v), k.hash)
    {
      MatesHash(t, d, k);
    }

    lemma BlankTurns(k: Key, mates: set<Key>)
      requires Blank()
      ensures Turn(k, mates) == this
    {
      if tok != null {
        assert kept - {k} == kept;
        assert (set x | x in loose && x.hash != k.hash) == loose;
        assert mates * kept == {};
      }
    }
  }

  class Cell<V(==)> {
    const owner: Owner?
    var body: Body<V>
    ghost var tree: T.Node<V>
    ghost var own: set<object>  // what the session may edit below this node

    constructor (o: Owner?, b: Body<V>, ghost t: T.Node<V>, ghost parts: set<object>)
      ensures owner == o && body == b && tree == t && own == parts + {this}
    {
      owner, body, tree, own := o, b, t, parts + {this};
    }

    ghost predicate Frozen(cells: set<Cell<V>>, pairs: set<Pair<V>>)
      requires this in cells
      reads cells, pairs
    {
      match body
         case LeafBody(h, p) => p in pairs && tree == Leaf(h, Entry(p.key, p.value))
         case CollisionBody(h, es) =>
           && (forall p | p in es :: p in pairs)
           && tree == Collision(h, EntriesOf(es, pairs))
         case ArrayBody(es) =>
           && (forall p | p in es :: p in pairs)
           && tree == ArrayMap(EntriesOf(es, pairs))
         case BitmapBody(b, ns) =>
           && tree.Bitmap? && tree.bitmap == b && |tree.nodes| == |ns|
           && forall i | 0 <= i < |ns| :: ns[i] in cells && tree.nodes[i] == ns[i].tree
         case HashArrayBody(count, slots) =>
           && tree.HashArray? && tree.count == count && |tree.slots| == |slots|
           && forall i | 0 <= i < |slots| ::
                if slots[i] == null then tree.slots[i] == None
                else slots[i] in cells && tree.slots[i] == Some(slots[i].tree)
    }

    static ghost function EntriesOf(es: seq<Pair<V>>, ps: set<Pair<V>>): seq<Entry<V>>
      requires forall p | p in es :: p in ps
      reads ps
    {
      seq(|es|, (i: int) requires 0 <= i < |es| reads ps => Entry(es[i].key, es[i].value))
    }

    ghost function OwnOf(w: World<V>): set<object>
      reads this
    {
      if this in w.cells then {} else own
    }

    ghost predicate Valid(w: World<V>)
      reads this, OwnOf(w), w.cells, w.pairs
      decreases tree
    {
      Apart(w) && if this in w.cells then w.Settled(tree) else
        (match body
           case LeafBody(h, p) =>
             && (p in w.pairs || p in own) && w.Marks(p, true)
             && tree == Leaf(h, Entry(p.key, p.value))
           case CollisionBody(h, es) =>
             && tree.Collision? && tree.keyHash == h && EntriesMatch(w, own, es, tree.entries)
             && MarksAll(w, es)
           case ArrayBody(es) =>
             tree.ArrayMap? && EntriesMatch(w, own, es, tree.entries) && w.Blank()
           case BitmapBody(b, ns) =>
             tree.Bitmap? && tree.bitmap == b && KidsMatch(w, own - {this}, ns, tree.nodes)
           case HashArrayBody(count, slots) =>
             tree.HashArray? && tree.count == count && SlotsMatch(w, own - {this}, slots, tree.slots))
    }

    // es are pairs that may be used in this session, with the contents ts.
    static ghost predicate EntriesMatch(w: World<V>, area: set<object>, es: seq<Pair<V>>, ts: seq<Entry<V>>)
      reads w.pairs, area
    {
      |es| == |ts| &&
      forall i | 0 <= i < |es| :: (es[i] in w.pairs || es[i] in area) && ts[i] == Entry(es[i].key, es[i].value)
    }

    static ghost predicate MarksAll(w: World<V>, es: seq<Pair<V>>) {
      forall i | 0 <= i < |es| :: w.Marks(es[i], false)
    }

    // ns are valid nodes with the values ts; what the session may edit below them lies in area,
    // separately for each.
    static ghost predicate KidsMatch(w: World<V>, area: set<object>, ns: seq<Cell<V>>, ts: seq<T.Node<V>>)
      reads w.cells, w.pairs, area
      decreases ts
    {
      && |ns| == |ts|
      && (forall i | 0 <= i < |ns| :: Inside(w, area, ns[i]) && ns[i].tree == ts[i] && ns[i].Valid(w))
      && (forall i, j | 0 <= i < j < |ns| :: ns[i].OwnOf(w) !! ns[j].OwnOf(w))
    }

    static ghost predicate SlotsMatch(w: World<V>, area: set<object>, ns: seq<Cell?<V>>, ts: seq<Option<T.Node<V>>>)
      reads w.cells, w.pairs, area
      decreases ts
    {
      && |ns| == |ts|
      && (forall i | 0 <= i < |ns| :: SlotMatches(w, area, ns[i], ts[i]))
      && (forall i, j | 0 <= i < j < |ns| && ns[i] != null && ns[j] != null :: ns[i].OwnOf(w) !! ns[j].OwnOf(w))
    }

    static ghost predicate SlotMatches(w: World<V>, area: set<object>, n: Cell?<V>, t: Option<T.Node<V>>)
      reads w.cells, w.pairs, area
      decreases t
    {
      if n == null then t == None
      else Inside(w, area, n) && t.Some? && n.tree == t.value && n.Valid(w)
    }

    static ghost predicate Inside(w: World<V>, area: set<object>, c: Cell<V>)
      reads w.cells, area
    {
      c in w.cells || (c in area && c.own <= area)
    }

    // The pair outside the session that an update of k to v would overwrite in place, if any:
    // the leaf it reaches belongs to the session but its pair does not.
    function LeakSet(w: World<V>, tok: Owner?, d: nat, k: Key, v: Option<V>): (leak: set<Pair<V>>)
      requires w.Ok() && Valid(w) && Shaped(tree, Path(k.hash, d))
      ensures tok == null || v == None ==> leak == {}
      ensures leak <= w.pairs
      reads this, OwnOf(w), w.cells, w.pairs
      decreases tree
    {
      if this in w.cells then {} else
        match body
        case LeafBody(h, p) =>
          if tok != null && tok == owner && p.key == k && v.Some? && v.value != p.value && p in w.pairs then {p} else {}
        case BitmapBody(b, ns) =>
          var s := SlotAt(k.hash, d);
          if s !in b then {} else
            RankMonotone(b, s, 32);
            assert KidsMatch(w, own - {this}, ns, tree.nodes);
            ns[Rank(b, s)].LeakSet(w, tok, d + 1, k, v)
        case HashArrayBody(_, slots) =>
          var s := SlotAt(k.hash, d);
          assert SlotsMatch(w, own - {this}, slots, tree.slots);
          if slots[s] == null then {} else slots[s].LeakSet(w, tok, d + 1, k, v)
        case CollisionBody(_, _) => {}
    }

    // Whether setting or removing k leaks, for a value x that k has now.
    static ghost predicate LeaksAt(w: World<V>, k: Key, x: Option<V>, v: Option<V>) {
      v.Some? && x.Some? && x != v && k in w.loose
    }

    // An update leaks only where it overwrites. In a session it leaks if and only if the key is loose.
    lemma {:induction false} LeakFound(w: World<V>, tok: Owner?, d: nat, k: Key, v: Option<V>)
      requires w.Foreign(tok) && w.Ok() && Valid(w) && Shaped(tree, Path(k.hash, d))
      ensures LeakSet(w, tok, d, k, v) != {} ==> Get(tree, d, k).Some?
      ensures w.tok != null ==> (LeakSet(w, tok, d, k, v) != {} <==> LeaksAt(w, k, Get(tree, d, k), v))
      decreases tree, 1
    {
      var s := SlotAt(k.hash, d);
      if this in w.cells {
        if w.tok != null { SettledGet(w, tree, d, k); }
      } else if body.LeafBody? {
      } else if body.CollisionBody? {
        EntriesValid(w);
        if w.tok != null { CollisionBound(w, body.entries, tree.entries, k); }
      } else if body.BitmapBody? {
        BitmapValid(w);
        GetBitmapStep(body.bitmap, tree.nodes, d, k);
        if s in body.bitmap { LeakFoundInBitmap(w, tok, d, k, v, Rank(body.bitmap, s)); }
      } else if body.HashArrayBody? {
        HashArrayValid(w);
        GetHashArrayStep(tree.count, tree.slots, d, k);
        assert SlotMatches(w, OwnOf(w) - {this}, body.slots[s], tree.slots[s]);
        if body.slots[s] != null { LeakFoundInSlot(w, tok, d, k, v, s); }
      }
    }

    static lemma CollisionBound(w: World<V>, es: seq<Pair<V>>, ts: seq<Entry<V>>, k: Key)
      requires w.tok != null && MarksAll(w, es) && |es| == |ts| && forall i | 0 <= i < |es| :: ts[i].key == es[i].key
      ensures GetIn(ts, k).Some? ==> k !in w.loose
    {
      if GetIn(ts, k).Some? {
        var i := FindEntry(ts, k);
        assert w.Marks(es[i], false) && ts[i].key == es[i].key == k;
      }
    }

    static lemma {:induction false} SettledGet(w: World<V>, t: T.Node<V>, d: nat, k: Key)
      requires w.tok != null && w.Settled(t) && Shaped(t, Path(k.hash, d))
      ensures Get(t, d, k).Some? ==> k in w.kept && k !in w.loose
      decreases t
    {
      hide T.Path, T.SlotAt, T.Drop, T.Rank;
      var s := SlotAt(k.hash, d);
      match t
      case Leaf(_, _) =>
      case Collision(_, _) =>
      case Bitmap(b, ns) =>
        GetBitmapStep(b, ns, d, k);
        if s in b { SettledGet(w, ns[Rank(b, s)], d + 1, k); }
      case HashArray(count, slots) =>
        GetHashArrayStep(count, slots, d, k);
        assert w.SettledSlot(slots[s]);
        if slots[s].Some? { SettledGet(w, slots[s].value, d + 1, k); }
    }

    lemma {:induction false} LeakFoundInBitmap(w: World<V>, tok: Owner?, d: nat, k: Key, v: Option<V>, i: nat)
      requires w.Foreign(tok) && w.Ok() && Valid(w) && Shaped(tree, Path(k.hash, d)) && this !in w.cells
        && body.BitmapBody?
      requires tree.Bitmap? && tree.bitmap == body.bitmap && KidsMatch(w, OwnOf(w) - {this}, body.nodes, tree.nodes)
      requires SlotAt(k.hash, d) in body.bitmap && i == Rank(body.bitmap, SlotAt(k.hash, d)) < |body.nodes|
      requires Shaped(tree.nodes[i], Path(k.hash, d + 1))
      ensures LeakSet(w, tok, d, k, v) != {} ==> Get(tree.nodes[i], d + 1, k).Some?
      ensures w.tok != null ==> (LeakSet(w, tok, d, k, v) != {} <==> LeaksAt(w, k, Get(tree.nodes[i], d + 1, k), v))
      decreases tree, 0
    {
      LeakOfBitmap(w, tok, d, k, v, i);
      body.nodes[i].LeakFound(w, tok, d + 1, k, v);
    }

    lemma {:induction false} LeakFoundInSlot(w: World<V>, tok: Owner?, d: nat, k: Key, v: Option<V>, s: Slot)
      requires w.Foreign(tok) && w.Ok() && Valid(w) && Shaped(tree, Path(k.hash, d)) && this !in w.cells
        && body.HashArrayBody?
      requires tree.HashArray? && SlotsMatch(w, OwnOf(w) - {this}, body.slots, tree.slots)
      requires s == SlotAt(k.hash, d) && |body.slots| == 32 && body.slots[s] != null
      requires SlotMatches(w, OwnOf(w) - {this}, body.slots[s], tree.slots[s])
      requires Shaped(tree.slots[s].value, Path(k.hash, d + 1))
      ensures LeakSet(w, tok, d, k, v) != {} ==> Get(tree.slots[s].value, d + 1, k).Some?
      ensures w.tok != null ==> (LeakSet(w, tok, d, k, v) != {} <==>
        LeaksAt(w, k, Get(tree.slots[s].value, d + 1, k), v))
      decreases tree, 0
    {
      LeakOfHashArray(w, tok, d, k, v, s);
      body.slots[s].LeakFound(w, tok, d + 1, k, v);
    }

    /** get */
    method Lookup(ghost w: World<V>, d: nat, k: Key) returns (x: Option<V>)
      requires w.Ok() && Valid(w) && Shaped(tree, Path(k.hash, d))
      ensures x == Get(tree, d, k)
      decreases tree, 1
    {
      match body
      case LeafBody(_, p) => x := if p.key == k then Some(p.value) else None;
      case CollisionBody(_, es) =>
        EntriesValid(w);
        FindPairIsFindEntry(es, tree.entries, k);
        x := ReadPairs(es, k);
      case BitmapBody(_, _) => x := LookupBitmap(w, d, k);
      case HashArrayBody(_, _) => x := LookupHashArray(w, d, k);
    }

    method LookupBitmap(ghost w: World<V>, d: nat, k: Key) returns (x: Option<V>)
      requires w.Ok() && Valid(w) && Shaped(tree, Path(k.hash, d)) && body.BitmapBody?
      ensures x == Get(tree, d, k)
      decreases tree, 0
    {
      BitmapValid(w);
      var s := SlotAt(k.hash, d);
      if s in body.bitmap {
        GetBitmapStep(body.bitmap, tree.nodes, d, k);
        x := body.nodes[Rank(body.bitmap, s)].Lookup(w, d + 1, k);
      } else {
        x := None;
      }
    }

    method LookupHashArray(ghost w: World<V>, d: nat, k: Key) returns (x: Option<V>)
      requires w.Ok() && Valid(w) && Shaped(tree, Path(k.hash, d)) && body.HashArrayBody?
      ensures x == Get(tree, d, k)
      decreases tree, 0
    {
      HashArrayValid(w);
      GetHashArrayStep(body.count, tree.slots, d, k);
      var n := body.slots[SlotAt(k.hash, d)];
      assert SlotMatches(w, OwnOf(w) - {this}, n, tree.slots[SlotAt(k.hash, d)]);
      if n != null { x := n.Lookup(w, d + 1, k); } else { x := None; }
    }

    // $t.get and Xt.get
    static function ReadPairs(es: seq<Pair<V>>, k: Key): Option<V>
      reads es
    {
      var i := FindPair(es, k);
      if i < |es| then Some(es[i].value) else None
    }

    // -------------------------------------------------------------------
    // When a session is over, its nodes join those that existed before
    // -------------------------------------------------------------------

    ghost function CellsBelow(w: World<V>): set<Cell<V>>
      requires Valid(w)
      reads this, OwnOf(w), w.cells, w.pairs
      decreases tree
    {
      if this in w.cells then {} else
        {this} + match body
          case BitmapBody(_, ns) =>
            assert KidsMatch(w, own - {this}, ns, tree.nodes);
            set i, c | 0 <= i < |ns| && c in ns[i].CellsBelow(w) :: c
          case HashArrayBody(_, slots) =>
            assert SlotsMatch(w, own - {this}, slots, tree.slots);
            set i, c | 0 <= i < |slots| && c in SlotCells(w, own - {this}, slots[i], tree.slots[i]) :: c
          case _ => {}
    }

    ghost function PairsBelow(w: World<V>): set<Pair<V>>
      requires Valid(w)
      reads this, OwnOf(w), w.cells, w.pairs
      decreases tree
    {
      if this in w.cells then {} else
        match body
        case LeafBody(_, p) => {p}
        case CollisionBody(_, es) => set p | p in es
        case ArrayBody(es) => set p | p in es
        case BitmapBody(_, ns) =>
          assert KidsMatch(w, own - {this}, ns, tree.nodes);
          set i, p | 0 <= i < |ns| && p in ns[i].PairsBelow(w) :: p
        case HashArrayBody(_, slots) =>
          assert SlotsMatch(w, own - {this}, slots, tree.slots);
          set i, p | 0 <= i < |slots| && p in SlotPairs(w, own - {this}, slots[i], tree.slots[i]) :: p
    }

    static ghost function SlotCells(w: World<V>, area: set<object>, n: Cell?<V>, t: Option<T.Node<V>>): set<Cell<V>>
      requires SlotMatches(w, area, n, t)
      reads n, w.cells, w.pairs, area
      decreases t
    {
      if n == null then {} else n.CellsBelow(w)
    }

    static ghost function SlotPairs(w: World<V>, area: set<object>, n: Cell?<V>, t: Option<T.Node<V>>): set<Pair<V>>
      requires SlotMatches(w, area, n, t)
      reads n, w.cells, w.pairs, area
      decreases t
    {
      if n == null then {} else n.PairsBelow(w)
    }

    /** The nodes a session made are consistent in every world that includes them. */
    lemma {:induction false} Freezes(w: World<V>, w': World<V>)
      requires w.Ok() && Valid(w)
      requires w.cells + CellsBelow(w) <= w'.cells && w.pairs + PairsBelow(w) <= w'.pairs
      ensures this in w'.cells
      ensures forall c | c in CellsBelow(w) :: c.Frozen(w'.cells, w'.pairs)
      decreases tree
    {
      if this !in w.cells {
        match body
        case LeafBody(_, _) =>
        case CollisionBody(_, es) =>
          assert tree.entries == EntriesOf(es, w'.pairs);
        case ArrayBody(es) =>
          assert tree.entries == EntriesOf(es, w'.pairs);
        case BitmapBody(_, ns) =>
          assert KidsMatch(w, own - {this}, ns, tree.nodes);
          forall i | 0 <= i < |ns|
            ensures ns[i] in w'.cells && forall c | c in ns[i].CellsBelow(w) ::
              c in w'.cells && c.Frozen(w'.cells, w'.pairs)
          {
            ns[i].Freezes(w, w');
          }
        case HashArrayBody(_, slots) =>
          assert SlotsMatch(w, own - {this}, slots, tree.slots);
          forall i | 0 <= i < |slots| && slots[i] != null
            ensures SlotMatches(w, own - {this}, slots[i], tree.slots[i])
            ensures slots[i] in w'.cells && forall c | c in slots[i].CellsBelow(w) ::
              c in w'.cells && c.Frozen(w'.cells, w'.pairs)
          {
            assert SlotMatches(w, own - {this}, slots[i], tree.slots[i]);
            assert SlotCells(w, own - {this}, slots[i], tree.slots[i]) == slots[i].CellsBelow(w);
            assert SlotPairs(w, own - {this}, slots[i], tree.slots[i]) == slots[i].PairsBelow(w);
            slots[i].Freezes(w, w');
          }
      }
    }

    static lemma StaysFrozen(w: World<V>, w': World<V>)
      requires w.Ok() && w.cells <= w'.cells && w.pairs <= w'.pairs
      ensures forall c | c in w.cells :: c.Frozen(w'.cells, w'.pairs)
    {
      forall c | c in w.cells
        ensures c.Frozen(w'.cells, w'.pairs)
      {
        assert c.Frozen(w.cells, w.pairs);
        if c.body.CollisionBody? || c.body.ArrayBody? {
          assert EntriesOf(c.body.entries, w.pairs) == EntriesOf(c.body.entries, w'.pairs);
        }
      }
    }

    // -------------------------------------------------------------------
    // What is learnt about the keys of one hash says nothing about nodes without it
    // -------------------------------------------------------------------

    static lemma {:induction false} SettledElsewhere(w: World<V>, a: World<V>, t: T.Node<V>, h: Hash)
      requires w.Like(a, h) && (a.tok != null ==> NoHash(t, h)) && w.Settled(t)
      ensures a.Settled(t)
      decreases t
    {
      if a.tok != null {
        match t
        case Leaf(_, _) =>
        case Collision(_, _) =>
        case Bitmap(_, ns) =>
          forall i | 0 <= i < |ns| ensures a.Settled(ns[i]) { SettledElsewhere(w, a, ns[i], h); }
        case HashArray(_, slots) =>
          forall i | 0 <= i < |slots|
            ensures a.SettledSlot(slots[i])
          {
            assert w.SettledSlot(slots[i]) && NoHashSlot(slots[i], h);
            if slots[i].Some? { SettledElsewhere(w, a, slots[i].value, h); }
          }
      }
    }

    lemma {:induction false} Elsewhere(w: World<V>, a: World<V>, h: Hash)
      requires w.Like(a, h) && (a.tok != null ==> NoHash(tree, h)) && Valid(w)
      ensures Valid(a)
      decreases tree, 1
    {
      if this in w.cells {
        SettledElsewhere(w, a, tree, h);
      } else {
        match body
        case LeafBody(_, _) =>
        case CollisionBody(_, es) => assert MarksAll(w, es);
        case ArrayBody(_) =>
        case BitmapBody(_, ns) => KidsElsewhere(w, a, own - {this}, ns, tree.nodes, h, |ns|);
        case HashArrayBody(_, slots) => SlotsElsewhere(w, a, own - {this}, slots, tree.slots, h, |slots|);
      }
    }

    lemma SettledHere(w: World<V>)
      requires this in w.cells && Valid(w)
      ensures w.Settled(tree)
    {
    }

    // All children but the i-th are as they were.
    static lemma {:induction false} KidsElsewhere(w: World<V>, a: World<V>, area: set<object>, ns: seq<Cell<V>>,
                                                  ts: seq<T.Node<V>>,
                                                  h: Hash, i: nat)
      requires w.Like(a, h) && KidsMatch(w, area, ns, ts)
      requires forall j | 0 <= j < |ts| && j != i :: a.tok != null ==> NoHash(ts[j], h)
      ensures KidsBut(a, area, ns, ts, i)
      ensures i >= |ns| ==> KidsMatch(a, area, ns, ts)
      decreases ts, 0
    {
      forall j | 0 <= j < |ns| && j != i
        ensures ns[j].Valid(a)
      {
        ns[j].Elsewhere(w, a, h);
      }
    }

    static lemma {:induction false} SlotsElsewhere(w: World<V>, a: World<V>, area: set<object>, ns: seq<Cell?<V>>,
                                                   ts: seq<Option<T.Node<V>>>, h: Hash, i: nat)
      requires w.Like(a, h) && SlotsMatch(w, area, ns, ts)
      requires forall j | 0 <= j < |ts| && j != i :: a.tok != null ==> NoHashSlot(ts[j], h)
      ensures SlotsBut(a, area, ns, ts, i)
      ensures i >= |ns| ==> SlotsMatch(a, area, ns, ts)
      decreases ts, 0
    {
      forall j | 0 <= j < |ns| && j != i
        ensures SlotMatches(a, area, ns[j], ts[j])
      {
        assert SlotMatches(w, area, ns[j], ts[j]) && (a.tok != null ==> NoHashSlot(ts[j], h));
        SlotElsewhere(w, a, area, ns[j], ts[j], h);
      }
    }

    static lemma {:induction false} SlotElsewhere(w: World<V>, a: World<V>, area: set<object>, n: Cell?<V>,
                                                  t: Option<T.Node<V>>, h: Hash)
      requires w.Like(a, h) && SlotMatches(w, area, n, t) && (a.tok != null ==> NoHashSlot(t, h))
      ensures SlotMatches(a, area, n, t)
      decreases t, 0
    {
      if n != null { n.Elsewhere(w, a, h); }
    }

    // ue
    predicate LeafLike()
      reads this
    {
      body.LeafBody? || body.CollisionBody?
    }

    // ae: this leaf or collision, and a new entry p with another hash, or with a leaf's hash
    method Split(ghost w: World<V>, ghost a: World<V>, tok: Owner?, d: nat, p: Pair<V>) returns (r: Cell<V>)
      requires w.Foreign(tok) && w.Ok() && Valid(w) && a == w.Turn(p.key, {})
      requires d <= 7 && IsLeafLike(tree) && Shaped(tree, Path(p.key.hash, d))
      requires tree.keyHash == p.key.hash ==> tree.Leaf? && tree.entry.key != p.key
      requires p !in w.pairs && p !in OwnOf(w)
      ensures fresh(r) && r.Valid(a) && r.tree == T.Split(tree, d, Entry(p.key, p.value))
      ensures forall o | o in r.own :: o == p || o in OwnOf(w) || fresh(o)
      decreases 7 - d, 1
    {
      var h := p.key.hash;
      LeafTree(w);
      if body.keyHash != h {
        w.TurnLike(p.key, {});
        LeafNoHash(tree, Path(h, d), h);
        Elsewhere(w, a, h);
      }
      if body.keyHash == h {
        r := Collide(w, a, tok, p);
      } else if d == 7 {
        SamePathSameHash(tree.keyHash, h, 0);
        assert false;
      } else if SlotAt(body.keyHash, d) == SlotAt(h, d) {
        r := SplitSame(w, a, tok, d, p);
      } else {
        r := SplitApart(a, tok, d, p);
      }
    }

    method SplitSame(ghost w: World<V>, ghost a: World<V>, tok: Owner?, d: nat, p: Pair<V>) returns (r: Cell<V>)
      requires w.Foreign(tok) && w.Ok() && Valid(w) && a == w.Turn(p.key, {})
      requires d <= 6 && IsLeafLike(tree) && Shaped(tree, Path(p.key.hash, d))
      requires tree.keyHash != p.key.hash && SlotAt(tree.keyHash, d) == SlotAt(p.key.hash, d)
      requires p !in w.pairs && p !in OwnOf(w)
      ensures fresh(r) && r.Valid(a)
      ensures Shaped(tree, Path(p.key.hash, d + 1))
      ensures r.tree == Bitmap({SlotAt(p.key.hash, d)}, [T.Split(tree, d + 1, Entry(p.key, p.value))])
      ensures forall o | o in r.own :: o == p || o in OwnOf(w) || fresh(o)
      decreases 7 - d, 0
    {
      LeafMovesDown(tree, Path(p.key.hash, d));
      var c := Split(w, a, tok, d + 1, p);
      r := Join1(a, tok, SlotAt(p.key.hash, d), c);
    }

    lemma LeafTree(w: World<V>)
      requires w.Ok() && Valid(w) && IsLeafLike(tree)
      ensures if tree.Leaf? then body.LeafBody? else body.CollisionBody?
      ensures body.keyHash == tree.keyHash
    {
    }

    method Collide(ghost w: World<V>, ghost a: World<V>, tok: Owner?, p: Pair<V>) returns (r: Cell<V>)
      requires w.Foreign(tok) && w.Ok() && Valid(w) && a == w.Turn(p.key, {}) && body.LeafBody? && tree.Leaf?
      requires tree.entry.key != p.key && tree.entry.key.hash == p.key.hash
      requires p !in w.pairs && p !in OwnOf(w)
      ensures fresh(r) && r.Valid(a) && r.tree == Collision(p.key.hash, [tree.entry, Entry(p.key, p.value)])
      ensures r.own == OwnOf(w) + {p, r}
    {
      r := new Cell(tok, CollisionBody(p.key.hash, [body.entry, p]),
                    Collision(p.key.hash, [tree.entry, Entry(p.key, p.value)]), OwnOf(w) + {p});
    }

    method SplitApart(ghost w: World<V>, tok: Owner?, d: nat, p: Pair<V>) returns (r: Cell<V>)
      requires w.Foreign(tok) && w.Ok() && Valid(w)
      requires d <= 6 && IsLeafLike(tree) && Shaped(tree, Path(p.key.hash, d))
      requires body.LeafBody? || body.CollisionBody?
      requires body.keyHash == tree.keyHash && SlotAt(body.keyHash, d) != SlotAt(p.key.hash, d)
      requires p !in w.pairs && p !in OwnOf(w) && w.Made(p.key)
      ensures fresh(r) && r.Valid(w) && r.tree == T.Split(tree, d, Entry(p.key, p.value))
      ensures forall o | o in r.own :: o == p || o in OwnOf(w) || fresh(o)
    {
      var h := p.key.hash;
      var s, u := SlotAt(body.keyHash, d), SlotAt(h, d);
      var o := new Cell(tok, LeafBody(h, p), Leaf(h, Entry(p.key, p.value)), {p});
      if s < u {
        r := Join(w, tok, s, u, this, o);
      } else {
        assert {s, u} == {u, s};
        r := Join(w, tok, u, s, o, this);
      }
    }

    // A bitmap node with one child.
    static method Join1(ghost w: World<V>, tok: Owner?, s: Slot, c: Cell<V>) returns (r: Cell<V>)
      requires w.Foreign(tok) && w.Ok() && c.Valid(w)
      ensures fresh(r) && r.Valid(w) && r.tree == Bitmap({s}, [c.tree])
      ensures r.own == c.OwnOf(w) + {r}
    {
      r := new Cell(tok, BitmapBody({s}, [c]), Bitmap({s}, [c.tree]), c.OwnOf(w));
    }

    // A bitmap node with two children.
    static method Join(ghost w: World<V>, tok: Owner?, s: Slot, u: Slot, x: Cell<V>, y: Cell<V>) returns (r: Cell<V>)
      requires w.Foreign(tok) && w.Ok() && x.Valid(w) && y.Valid(w)
      requires x.OwnOf(w) !! y.OwnOf(w)
      ensures fresh(r) && r.Valid(w) && r.tree == Bitmap({s, u}, [x.tree, y.tree])
      ensures r.own == x.OwnOf(w) + y.OwnOf(w) + {r}
    {
      r := new Cell(tok, BitmapBody({s, u}, [x, y]), Bitmap({s, u}, [x.tree, y.tree]), x.OwnOf(w) + y.OwnOf(w));
    }

    // Kt.update
    method UpdateLeaf(ghost w: World<V>, tok: Owner?, d: nat, k: Key, v: Option<V>)
      returns (r: Cell?<V>, altered: bool, resized: bool)
      requires w.Foreign(tok) && w.Ok() && Valid(w)
      requires body.LeafBody? && d <= 7 && Shaped(tree, Path(k.hash, d))
      modifies OwnOf(w), LeakSet(w, tok, d, k, v)
      ensures old(LeakSet(w, tok, d, k, v)) == {} ==>
        Does(w, d, k, v, r, altered, resized)
      ensures Leaked(w, old(LeakSet(w, tok, d, k, v)), k, v, r == this)
    {
      hide World.Ok, World.After, World.Turn, World.Settled, Valid, Frozen, Shaped;
      LeafValid(w, tok, d, k, v);
      var p := body.entry;
      var same := k == p.key;
      if if same then v == Some(p.value) else v == None {
        return this, false, false;
      }
      if v == None {
        return null, true, true;
      }
      if same {
        r := SetLeaf(w, tok, k, v.value);
        return r, true, false;
      }
      var q := new Pair(k, v.value);
      r := Split(w, w.Turn(k, {}), tok, d, q);
      return r, true, true;
    }

    // What a leaf holds, and what setting or removing k there means.
    lemma LeafValid(w: World<V>, tok: Owner?, d: nat, k: Key, v: Option<V>)
      requires w.Foreign(tok) && w.Ok() && Valid(w) && body.LeafBody? && d <= 7 && Shaped(tree, Path(k.hash, d))
      ensures tree == Leaf(body.keyHash, Entry(body.entry.key, body.entry.value)) && body.entry.key.hash == body.keyHash
      ensures body.entry in w.pairs || body.entry in OwnOf(w)
      ensures LeakSet(w, tok, d, k, v) ==
        if this !in w.cells && Overwrites(tok) && body.entry.key == k && v.Some? && v.value != body.entry.value
          && body.entry in w.pairs
        then {body.entry} else {}
      ensures w.After(tree, d, k, v) ==
        if (if body.entry.key == k then v == Some(body.entry.value) else v == None) then w else w.Turn(k, {})
    {
    }

    // The session owns this node.
    predicate Overwrites(tok: Owner?) {
      tok != null && tok == owner
    }

    method SetLeaf(ghost w: World<V>, tok: Owner?, k: Key, v: V) returns (r: Cell<V>)
      requires w.Foreign(tok) && w.Ok() && Valid(w)
      requires body.LeafBody? && tree.Leaf? && body.entry.key == k && body.entry.value != v
      requires body.entry in w.pairs || body.entry in OwnOf(w)
      modifies OwnOf(w), if this !in w.cells && Overwrites(tok) then {body.entry} else {}
      ensures if this !in w.cells && Overwrites(tok) && old(body.entry) in w.pairs
        then r == this && old(body.entry).value == v
        else
          && r.Valid(w.Turn(k, {})) && r.tree == Leaf(old(body.keyHash), Entry(k, v))
          && forall o | o in r.OwnOf(w) :: o in old(OwnOf(w)) || fresh(o)
    {
      var h, p := body.keyHash, body.entry;
      if tok != null && tok == owner {
        p.value := v;
        tree := Leaf(h, Entry(k, v));
        r := this;
      } else {
        var q := new Pair(k, v);
        r := new Cell(tok, LeafBody(h, q), Leaf(h, Entry(k, v)), {q});
      }
    }

    // Xt.update
    method UpdateCollision(ghost w: World<V>, tok: Owner?, d: nat, k: Key, v: Option<V>)
      returns (r: Cell<V>, altered: bool, resized: bool)
      requires w.Foreign(tok) && w.Ok() && Valid(w)
      requires body.CollisionBody? && d <= 7 && Shaped(tree, Path(k.hash, d))
      modifies OwnOf(w)
      ensures Does(w, d, k, v, r, altered, resized)
    {
      hide World.Ok, World.After, World.Turn, World.Settled, Frozen;
      EntriesValid(w);
      if k.hash == body.keyHash {
        r, altered, resized := UpdateEntries(w, tok, d, k, v);
      } else {
        CollisionElsewhere(w, tree, d, k, v);
        if v == None { return this, false, false; }
        var q := new Pair(k, v.value);
        r := Split(w, w.Turn(k, {}), tok, d, q);
        altered, resized := true, true;
      }
    }

    // A collision node of another hash does not hold k.
    static lemma CollisionElsewhere(w: World<V>, t: T.Node<V>, d: nat, k: Key, v: Option<V>)
      requires t.Collision? && Shaped(t, Path(k.hash, d)) && t.keyHash != k.hash
      ensures Get(t, d, k) == None && w.After(t, d, k, v) == if v == None then w else w.Turn(k, {})
    {
    }

    // Xt.update on a key of the node's own hash.
    method UpdateEntries(ghost w: World<V>, tok: Owner?, d: nat, k: Key, v: Option<V>)
      returns (r: Cell<V>, altered: bool, resized: bool)
      requires w.Foreign(tok) && w.Ok() && Valid(w)
      requires body.CollisionBody? && d <= 7 && Shaped(tree, Path(k.hash, d)) && k.hash == body.keyHash
      requires tree.Collision? && tree.keyHash == body.keyHash && EntriesMatch(w, OwnOf(w), body.entries, tree.entries)
      modifies OwnOf(w)
      ensures Does(w, d, k, v, r, altered, resized)
    {
      hide World.Ok, World.After, World.Turn, World.Settled, Frozen;
      FindPairIsFindEntry(body.entries, tree.entries, k);
      var i := FindPair(body.entries, k);
      CollisionHere(w, tree, d, k, v);
      if if i < |body.entries| then v == Some(body.entries[i].value) else v == None {
        return this, false, false;
      }
      if v == None {
        r := RemoveEntry(w, w.After(tree, d, k, v), tok, d, k, i);
        return r, true, true;
      }
      altered, resized := true, i == |body.entries|;
      var q := new Pair(k, v.value);
      r := SetEntry(w, w.After(tree, d, k, v), tok, i, q);
    }

    static lemma CollisionHere(w: World<V>, t: T.Node<V>, d: nat, k: Key, v: Option<V>)
      requires t.Collision? && Shaped(t, Path(k.hash, d)) && t.keyHash == k.hash
      ensures 2 <= |t.entries| && forall j | 0 <= j < |t.entries| ::
        t.entries[j].key.hash == k.hash && (j != FindEntry(t.entries, k) ==> t.entries[j].key != k)
      ensures GetIn(t.entries, k) == v ==> w.After(t, d, k, v) == w
      ensures GetIn(t.entries, k) != v && v.Some? ==> w.After(t, d, k, v) == w.Turn(k, {})
    {
    }

    // The last entry but one leaves a collision: the other moves into a leaf as the object it is.
    method RemoveEntry(ghost w: World<V>, ghost a: World<V>, tok: Owner?, ghost d: nat, ghost k: Key, i: nat)
      returns (r: Cell<V>)
      requires w.Foreign(tok) && w.Ok() && Valid(w)
      requires body.CollisionBody? && tree.Collision? && tree.keyHash == body.keyHash == k.hash
      requires EntriesMatch(w, OwnOf(w), body.entries, tree.entries)
      requires Shaped(tree, Path(k.hash, d)) && i < |body.entries| && i == FindEntry(tree.entries, k)
        && a == w.After(tree, d, k, None)
      modifies OwnOf(w)
      ensures r.Valid(a) && forall o | o in r.OwnOf(w) :: o in old(OwnOf(w)) || fresh(o)
      ensures r.tree == old(if |body.entries| == 2 then Leaf(tree.keyHash, tree.entries[1 - i])
                            else Collision(tree.keyHash, RemoveAt(tree.entries, i)))
      ensures r == this ==> r.tree.Collision?
    {
      hide Shaped, T.FindEntry, World.After;
      var h, es := body.keyHash, body.entries;
      EntriesValid(w);
      MarksWithout(w, a, es, tree, d, k, i);
      if |es| == 2 {
        r := new Cell(tok, LeafBody(h, es[1 - i]), Leaf(h, tree.entries[1 - i]), OwnOf(w));
      } else {
        r := PutEntries(a, tok, CollisionBody(h, RemoveAt(es, i)), Collision(h, RemoveAt(tree.entries, i)), {});
      }
    }

    // What is known of the pairs left when the i-th, that of k, leaves a collision.
    static lemma MarksWithout(w: World<V>, a: World<V>, es: seq<Pair<V>>, t: T.Node<V>, d: nat, k: Key, i: nat)
      requires t.Collision? && t.keyHash == k.hash && Shaped(t, Path(k.hash, d)) && MarksAll(w, es)
      requires |es| == |t.entries| && forall j | 0 <= j < |es| :: t.entries[j].key == es[j].key
      requires i < |es| && i == FindEntry(t.entries, k) && a == w.After(t, d, k, None)
      ensures a.cells == w.cells && a.pairs == w.pairs && a.tok == w.tok
      ensures if |es| == 2 then a.Marks(es[1 - i], true) else MarksAll(a, RemoveAt(es, i))
    {
      AfterRemoval(w, a, t, d, k, i);
      hide World.After, Shaped, FindEntry;
      forall j | 0 <= j < |es| && j != i
        ensures a.Marks(es[j], |es| == 2)
      {
        assert w.Marks(es[j], false) && t.entries[j].key == es[j].key;
      }
      if |es| != 2 {
        var rest := RemoveAt(es, i);
        forall j | 0 <= j < |rest|
          ensures a.Marks(rest[j], false)
        {
          var l := if j == i then |es| - 1 else j;
          assert rest[j] == es[l] && l != i;
        }
      }
    }

    // The world after a key leaves a collision, seen from the keys that stay.
    static lemma AfterRemoval(w: World<V>, a: World<V>, t: T.Node<V>, d: nat, k: Key, i: nat)
      requires t.Collision? && t.keyHash == k.hash && Shaped(t, Path(k.hash, d))
      requires i == FindEntry(t.entries, k) < |t.entries| && a == w.After(t, d, k, None)
      ensures a.cells == w.cells && a.pairs == w.pairs && a.tok == w.tok
      ensures w.tok != null ==> forall j | 0 <= j < |t.entries| && j != i :: var x := t.entries[j].key;
        && (x in a.kept <==> x in w.kept)
        && (x in a.loose <==> |t.entries| == 2 && x in w.kept)
    {
      KeysButCount(t.entries, k);
      forall j | 0 <= j < |t.entries| && j != i
        ensures t.entries[j].key != k && t.entries[j].key.hash == k.hash && t.entries[j].key in KeysBut(t.entries, k)
      {
        assert t.entries[j] in t.entries;
      }
    }

    method SetEntry(ghost w: World<V>, ghost a: World<V>, tok: Owner?, i: nat, q: Pair<V>) returns (r: Cell<V>)
      requires w.Foreign(tok) && w.Ok() && Valid(w) && a == w.Turn(q.key, {})
      requires body.CollisionBody? && tree.Collision? && tree.keyHash == body.keyHash
      requires EntriesMatch(w, OwnOf(w), body.entries, tree.entries)
      requires forall j | 0 <= j < |tree.entries| ::
        tree.entries[j].key.hash == q.key.hash && (j != i ==> tree.entries[j].key != q.key)
      requires i <= |body.entries| && q !in w.pairs && q !in OwnOf(w)
      modifies OwnOf(w)
      ensures r.Valid(a) && forall o | o in r.OwnOf(w) :: o in old(OwnOf(w)) || o == q || fresh(o)
      ensures r.tree == old(Collision(tree.keyHash, EntrySet(tree.entries, i, Entry(q.key, q.value))))
    {
      var h, es := body.keyHash, body.entries;
      EntriesValid(w);
      MarksWith(w, a, es, i, q);
      r := PutEntries(a, tok, CollisionBody(h, EntrySet(es, i, q)),
                      Collision(h, EntrySet(tree.entries, i, Entry(q.key, q.value))), {q});
    }

    static lemma MarksWith(w: World<V>, a: World<V>, es: seq<Pair<V>>, i: nat, q: Pair<V>)
      requires a == w.Turn(q.key, {}) && MarksAll(w, es)
      requires forall j | 0 <= j < |es| :: es[j].key.hash == q.key.hash && (j != i ==> es[j].key != q.key)
      requires i <= |es| && q !in w.pairs
      ensures a.cells == w.cells && a.pairs == w.pairs && a.tok == w.tok
      ensures MarksAll(a, EntrySet(es, i, q))
    {
      var all := EntrySet(es, i, q);
      forall j | 0 <= j < |all|
        ensures a.Marks(all[j], false)
      {
        if j != i { assert all[j] == es[j] && w.Marks(es[j], false); }
      }
    }

    static function EntrySet<X>(es: seq<X>, i: nat, e: X): seq<X>
      requires i <= |es|
    {
      if i < |es| then es[i := e] else es + [e]
    }

    lemma EntriesValid(w: World<V>)
      requires w.Ok() && Valid(w) && (body.CollisionBody? || body.ArrayBody?)
      ensures if body.CollisionBody? then tree.Collision? && tree.keyHash == body.keyHash else tree.ArrayMap?
      ensures EntriesMatch(w, OwnOf(w), body.entries, tree.entries)
      ensures if body.CollisionBody? then MarksAll(w, body.entries) else w.Blank()
    {
    }

    static function FindPair(es: seq<Pair<V>>, k: Key): (i: nat)
      ensures i <= |es|
      ensures i < |es| ==> es[i].key == k
    {
      if |es| == 0 || es[0].key == k then 0 else 1 + FindPair(es[1..], k)
    }

    static lemma {:induction false} FindPairIsFindEntry(es: seq<Pair<V>>, es': seq<Entry<V>>, k: Key)
      requires |es| == |es'| && forall i | 0 <= i < |es| :: es[i].key == es'[i].key
      ensures FindPair(es, k) == FindEntry(es', k)
      decreases |es|
    {
      if |es| > 0 && es[0].key != k { FindPairIsFindEntry(es[1..], es'[1..], k); }
    }

    // The end of $t.update and Xt.update: new entries, in place when the session owns the node.
    method PutEntries(ghost w: World<V>, tok: Owner?, b: Body<V>, ghost t: T.Node<V>, ghost added: set<object>)
      returns (r: Cell<V>)
      requires w.Foreign(tok) && w.Ok() && Apart(w)
      requires (b.CollisionBody? && t.Collision? && t.keyHash == b.keyHash && MarksAll(w, b.entries))
        || (b.ArrayBody? && t.ArrayMap? && w.Blank())
      requires body.CollisionBody? == b.CollisionBody? && body.ArrayBody? == b.ArrayBody?
      requires EntriesMatch(w, OwnOf(w) + added, b.entries, t.entries)
      requires this !in added && Clear(w, added)
      modifies OwnOf(w)
      ensures r.Valid(w) && r.tree == t && r.body == b
      ensures r == this || fresh(r)
      ensures forall o | o in r.OwnOf(w) :: o in old(OwnOf(w)) || o in added || fresh(o)
    {
      if tok != null && tok == owner {
        body := b;
        tree := t;
        own := own + added;
        r := this;
      } else {
        r := new Cell(tok, b, t, OwnOf(w) + added);
      }
    }

    // Zt.update
    method UpdateBitmap(ghost w: World<V>, tok: Owner?, d: nat, k: Key, v: Option<V>)
      returns (r: Cell?<V>, altered: bool, resized: bool)
      requires w.Foreign(tok) && w.Ok() && Valid(w)
      requires body.BitmapBody? && d <= 7 && Shaped(tree, Path(k.hash, d))
      modifies OwnOf(w), LeakSet(w, tok, d, k, v)
      ensures old(LeakSet(w, tok, d, k, v)) == {} ==> Does(w, d, k, v, r, altered, resized)
      ensures Leaked(w, old(LeakSet(w, tok, d, k, v)), k, v, r == this)
      decreases tree, 1
    {
      hide World.Ok, World.After, World.Settled, World.Made, Frozen, T.Update, T.BitmapWith, T.Shaped, T.Path, T.SlotAt,
        T.Get;
      BitmapValid(w);
      UpdateBitmapStep(body.bitmap, tree.nodes, d, k, v);
      var s := SlotAt(k.hash, d);
      if s in body.bitmap {
        r, altered, resized := UpdateInBitmap(w, tok, d, k, v);
      } else if v == None {
        AfterBitmap(w, w.After(tree, d, k, v), d, k, v);
        r, altered, resized := this, false, false;
      } else {
        ghost var a := w.After(tree, d, k, v);
        AfterBitmap(w, a, d, k, v);
        var c := MakeLeaf(a, tok, k, v.value);
        r := AddToBitmap(a, tok, s, c);
        altered, resized := true, true;
      }
    }

    // The same when there is a child for the hash of k.
    method UpdateInBitmap(ghost w: World<V>, tok: Owner?, d: nat, k: Key, v: Option<V>)
      returns (r: Cell<V>, altered: bool, resized: bool)
      requires w.Foreign(tok) && w.Ok() && Valid(w)
      requires body.BitmapBody? && d <= 7 && Shaped(tree, Path(k.hash, d)) && SlotAt(k.hash, d) in body.bitmap
      modifies OwnOf(w), LeakSet(w, tok, d, k, v)
      ensures old(LeakSet(w, tok, d, k, v)) == {} ==> Does(w, d, k, v, r, altered, resized)
      ensures Leaked(w, old(LeakSet(w, tok, d, k, v)), k, v, r == this)
      decreases tree, 0
    {
      hide World.Ok, World.After, World.Settled, World.Made, Frozen, T.Update, T.BitmapWith, T.Shaped, T.Path, T.SlotAt,
        T.Get;
      BitmapValid(w);
      UpdateBitmapStep(body.bitmap, tree.nodes, d, k, v);
      var s := SlotAt(k.hash, d);
      ghost var area, leak, a := OwnOf(w) - {this}, LeakSet(w, tok, d, k, v), w.After(tree, d, k, v);
      AfterBitmap(w, a, d, k, v);
      LeakOfBitmap(w, tok, d, k, v, Rank(body.bitmap, s));
      var c;
      c, altered, resized := UpdateChild(w, a, tok, d, k, v, Rank(body.bitmap, s), area);
      r := SettleBitmap(a, tok, s, Rank(body.bitmap, s), c, area, leak == {});
    }

    // What an update of k below a bitmap node teaches is nothing about the children it does not reach.
    lemma AfterBitmap(w: World<V>, a: World<V>, d: nat, k: Key, v: Option<V>)
      requires w.Ok() && body.BitmapBody? && tree.Bitmap? && tree.bitmap == body.bitmap
      requires d <= 7 && Shaped(tree, Path(k.hash, d)) && a == w.After(tree, d, k, v)
      requires KidsMatch(w, OwnOf(w) - {this}, body.nodes, tree.nodes)
      ensures a.Ok() && a.cells == w.cells && a.pairs == w.pairs && a.tok == w.tok
      ensures var s, i := SlotAt(k.hash, d), Rank(body.bitmap, SlotAt(k.hash, d));
        if s in body.bitmap then
          && i < |tree.nodes| && Shaped(tree.nodes[i], Path(k.hash, d + 1)) && a == w.After(tree.nodes[i], d + 1, k, v)
          && KidsBut(a, OwnOf(w) - {this}, body.nodes, tree.nodes, i)
        else
          KidsMatch(a, OwnOf(w) - {this}, body.nodes, tree.nodes) && (if v == None then a == w else a.Made(k))
    {
      w.AfterLike(tree, d, k, v);
      GetBitmapStep(body.bitmap, tree.nodes, d, k);
      OtherChildren(body.bitmap, tree.nodes, d, k);
      var s := SlotAt(k.hash, d);
      var i := if s in body.bitmap then Rank(body.bitmap, s) else |tree.nodes|;
      KidsElsewhere(w, a, OwnOf(w) - {this}, body.nodes, tree.nodes, k.hash, i);
      if s !in body.bitmap { w.TurnLike(k, {}); }
    }

    // The recursive call of Zt.update.
    method UpdateChild(ghost w: World<V>, ghost a: World<V>, tok: Owner?, d: nat, k: Key, v: Option<V>, i: nat,
                       ghost area: set<object>)
      returns (c: Cell?<V>, altered: bool, resized: bool)
      requires w.Foreign(tok) && w.Ok() && Apart(w) && area == OwnOf(w) - {this}
      requires body.BitmapBody? && tree.Bitmap? && i < |body.nodes| && d <= 6
      requires KidsMatch(w, area, body.nodes, tree.nodes) && KidsBut(a, area, body.nodes, tree.nodes, i)
      requires Shaped(tree.nodes[i], Path(k.hash, d + 1)) && a == w.After(tree.nodes[i], d + 1, k, v)
      requires a.cells == w.cells && a.pairs == w.pairs && a.tok == w.tok
      modifies body.nodes[i].OwnOf(w), body.nodes[i].LeakSet(w, tok, d + 1, k, v)
      ensures unchanged(this)
      ensures old(body.nodes[i].LeakSet(w, tok, d + 1, k, v)) == {} ==>
        var u := T.Update(old(tree.nodes[i]), d + 1, k, v);
        && a.Ok() && Ready(a, area, i, c)
        && altered == u.altered && resized == u.resized
        && (if c == null then u.node == None else u.node == Some(c.tree))
        && (!altered ==> c == body.nodes[i])
        && (c == body.nodes[i] ==> IsLeafLike(c.tree) == IsLeafLike(tree.nodes[i]))
        && (c != null && c == body.nodes[i] && this in w.cells ==> c.tree == tree.nodes[i])
        && (c != null ==> forall o | o in c.OwnOf(w) :: o in area || fresh(o))
      ensures Leaked(w, old(body.nodes[i].LeakSet(w, tok, d + 1, k, v)), k, v, c == body.nodes[i])
      decreases tree.nodes[i], 3
    {
      hide World.After, World.Settled, Frozen, T.Update, T.Get, T.Shaped;
      ghost var leak := body.nodes[i].LeakSet(w, tok, d + 1, k, v);
      c, altered, resized := body.nodes[i].Update(w, tok, d + 1, k, v);
      if leak == {} {
        ChildDone(a, i, c);
      }
    }

    // The child is c now; ok says that no pair leaked below.
    method SettleBitmap(ghost w: World<V>, tok: Owner?, s: Slot, i: nat, c: Cell?<V>, ghost area: set<object>,
                        ghost ok: bool)
      returns (r: Cell<V>)
      requires w.Foreign(tok) && body.BitmapBody? && tree.Bitmap? && tree.bitmap == body.bitmap
      requires s in body.bitmap && i == Rank(body.bitmap, s) < |body.nodes| == |tree.nodes| == Rank(body.bitmap, 32)
      requires ok ==> w.Ok() && Ready(w, area, i, c)
      requires ok && c == body.nodes[i] ==>
        (this in w.cells ==> c.tree == tree.nodes[i]) && (|tree.nodes| == 1 ==> !IsLeafLike(c.tree))
      requires !ok ==> c == body.nodes[i]
      modifies if this in w.cells then {} else {this}
      ensures ok ==>
        && r.Valid(w)
        && r.tree == old(BitmapWith(tree.bitmap, tree.nodes, s, if c == null then None else Some(c.tree)))
        && (forall o | o in r.OwnOf(w) ::
              o in old(OwnOf(w)) || o in area || (c != null && o in old(c.OwnOf(w))) || fresh(o))
        && (r == this ==> r.tree.Bitmap?)
      ensures c == old(body.nodes[i]) ==> r == this
    {
      if c == body.nodes[i] {
        if ok { ChildEdited(w, i, area); }
        r := this;
      } else {
        r := ReplaceInBitmap(w, tok, s, i, c, area);
      }
    }

    // The children other than the i-th are valid in area, and c is separate from all of them.
    ghost predicate Ready(w: World<V>, area: set<object>, i: nat, c: Cell?<V>)
      requires body.BitmapBody? && tree.Bitmap?
      reads this, w.cells, w.pairs, area, if c == null then {} else {c} + c.OwnOf(w)
    {
      && i < |body.nodes|
      && KidsBut(w, area, body.nodes, tree.nodes, i)
      && Clear(w, area)
      && (this !in w.cells ==>
          && this in own && this !in area && Clear(w, own) && (w.tok != null ==> owner == w.tok))
      && (c != null ==>
          && c.Valid(w) && this !in c.OwnOf(w) && (c in w.cells || c in c.own)
          && forall j | 0 <= j < |body.nodes| && j != i :: body.nodes[j].OwnOf(w) !! c.OwnOf(w))
    }

    // The update of the i-th child touches none of the others.
    twostate lemma ChildDone(new w: World<V>, i: nat, new c: Cell?<V>)
      requires old(allocated(w))
      requires body == old(body) && tree == old(tree) && own == old(own)
      requires Apart(w) && body.BitmapBody? && tree.Bitmap? && i < |body.nodes|
      requires old(KidsBut(w, OwnOf(w) - {this}, body.nodes, tree.nodes, i))
      requires old(forall j | 0 <= j < |body.nodes| && j != i :: body.nodes[j].OwnOf(w) !! body.nodes[i].OwnOf(w))
      requires old(forall o | o in body.nodes[i].OwnOf(w) :: o in OwnOf(w) - {this})
      requires forall o | o in OwnOf(w) - {this} && o !in old(body.nodes[i].OwnOf(w)) :: unchanged(o)
      requires unchanged(w.cells) && unchanged(w.pairs)
      requires c != null ==> c.Valid(w) && forall o | o in c.OwnOf(w) :: o in old(body.nodes[i].OwnOf(w)) || fresh(o)
      ensures Ready(w, OwnOf(w) - {this}, i, c)
    {
      ghost var area := OwnOf(w) - {this};
      assert KidsBut(w, area, body.nodes, tree.nodes, i);
      assert forall j | 0 <= j < |body.nodes| && j != i :: body.nodes[j].OwnOf(w) == old(body.nodes[j].OwnOf(w));
    }

    // Child i was edited in place, or not at all.
    ghost method ChildEdited(w: World<V>, i: nat, area: set<object>)
      requires w.Ok() && body.BitmapBody? && tree.Bitmap? && tree.bitmap == body.bitmap && i < |body.nodes|
      requires Ready(w, area, i, body.nodes[i])
      requires this in w.cells ==> body.nodes[i].tree == tree.nodes[i]
      modifies if this in w.cells then {} else {this}
      ensures body == old(body) && Valid(w)
      ensures tree == Bitmap(body.bitmap, old(tree.nodes[i := body.nodes[i].tree]))
      ensures forall o | o in OwnOf(w) :: o in old(OwnOf(w)) || o in area || o in old(body.nodes[i].OwnOf(w))
    {
      var c := body.nodes[i];
      if this in w.cells {
        assert tree.nodes[i := c.tree] == tree.nodes;
      } else {
        KidsSet(w, area, body.nodes, tree.nodes, i, c);
        assert body.nodes[i := c] == body.nodes;
        NoteBitmap(w, tree.nodes[i := c.tree], area + c.OwnOf(w));
      }
    }

    lemma LeakOfBitmap(w: World<V>, tok: Owner?, d: nat, k: Key, v: Option<V>, i: nat)
      requires w.Ok() && Valid(w) && Shaped(tree, Path(k.hash, d)) && body.BitmapBody?
      requires tree.Bitmap? && tree.bitmap == body.bitmap && KidsMatch(w, OwnOf(w) - {this}, body.nodes, tree.nodes)
      requires SlotAt(k.hash, d) in body.bitmap && i == Rank(body.bitmap, SlotAt(k.hash, d)) < |body.nodes|
      requires Shaped(tree.nodes[i], Path(k.hash, d + 1))
      ensures LeakSet(w, tok, d, k, v) == body.nodes[i].LeakSet(w, tok, d + 1, k, v)
    {
    }

    // A child was edited in place: this node stays as it is, but its value changed.
    ghost method NoteBitmap(w: World<V>, ts: seq<T.Node<V>>, area: set<object>)
      requires w.Ok() && this !in w.cells && body.BitmapBody?
      requires KidsMatch(w, area, body.nodes, ts) && this in own && this !in area
      requires Clear(w, area) && Clear(w, own) && (w.tok != null ==> owner == w.tok)
      modifies this`tree, this`own
      ensures Valid(w) && tree == Bitmap(body.bitmap, ts) && own == old(own) + area
    {
      tree := Bitmap(body.bitmap, ts);
      own := own + area;
    }

    ghost method NoteHashArray(w: World<V>, ts: seq<Option<T.Node<V>>>, area: set<object>)
      requires w.Ok() && this !in w.cells && body.HashArrayBody?
      requires SlotsMatch(w, area, body.slots, ts) && this in own && this !in area
      requires Clear(w, area) && Clear(w, own) && (w.tok != null ==> owner == w.tok)
      modifies this`tree, this`own
      ensures Valid(w) && tree == HashArray(body.count, ts) && own == old(own) + area
    {
      tree := HashArray(body.count, ts);
      own := own + area;
    }

    method AddToBitmap(ghost w: World<V>, tok: Owner?, s: Slot, c: Cell<V>) returns (r: Cell<V>)
      requires w.Foreign(tok) && w.Ok() && Apart(w) && body.BitmapBody? && tree.Bitmap? && tree.bitmap == body.bitmap
      requires KidsMatch(w, OwnOf(w) - {this}, body.nodes, tree.nodes)
      requires |tree.nodes| == Rank(tree.bitmap, 32) && s !in tree.bitmap
      requires c.Valid(w) && c in c.own && c.own !! OwnOf(w) && c !in w.cells && this !in c.own
      modifies if this in w.cells then {} else {this}
      ensures r.Valid(w) && r.tree == old(BitmapWith(tree.bitmap, tree.nodes, s, Some(c.tree)))
      ensures forall o | o in r.OwnOf(w) :: o in old(OwnOf(w)) || o in old(c.own) || fresh(o)
      ensures r == this ==> r.tree.Bitmap?
    {
      var b, ns := body.bitmap, body.nodes;
      RankMonotone(b, s, 32);
      var i := Rank(b, s);
      ghost var area, ts := OwnOf(w) - {this}, tree.nodes;
      if |ns| >= BITMAP_MAX {
        r := ExpandBitmap(w, tok, b, ns, ts, area, s, c);
      } else {
        KidsAdd(w, area, ns, ts, i, c);
        r := PutBitmap(w, tok, b + {s}, ns[..i] + [c] + ns[i..], ts[..i] + [c.tree] + ts[i..], area + c.own);
      }
    }

    // The child at slot s gives way to c, which is not the node that was there.
    method ReplaceInBitmap(ghost w: World<V>, tok: Owner?, s: Slot, i: nat, c: Cell?<V>, ghost area: set<object>)
      returns (r: Cell<V>)
      requires w.Foreign(tok) && w.Ok() && body.BitmapBody? && tree.Bitmap? && tree.bitmap == body.bitmap
      requires s in body.bitmap && Rank(body.bitmap, s) < |body.nodes| == Rank(body.bitmap, 32)
      requires i == Rank(body.bitmap, s) && Ready(w, area, i, c)
      modifies if this in w.cells then {} else {this}
      ensures r.Valid(w)
      ensures r.tree == old(BitmapWith(tree.bitmap, tree.nodes, s, if c == null then None else Some(c.tree)))
      ensures forall o | o in r.OwnOf(w) ::
        o in old(OwnOf(w)) || o in area || (c != null && o in old(c.OwnOf(w))) || fresh(o)
      ensures r == this ==> r.tree.Bitmap?
    {
      var b, ns := body.bitmap, body.nodes;
      ghost var ts := tree.nodes;
      if c == null {
        if |ns| == 2 && ns[1 - i].LeafLike() {
          LeafLikeTree(w, ns[1 - i]);
          return ns[1 - i];
        }
        if |ns| == 2 { LeafLikeTree(w, ns[1 - i]); }
        KidsCut(w, area, ns, ts, i);
        r := PutBitmap(w, tok, b - {s}, ns[..i] + ns[i + 1..], ts[..i] + ts[i + 1..], area);
      } else {
        LeafLikeTree(w, c);
        if |ns| == 1 && c.LeafLike() {
          return c;
        }
        KidsSet(w, area, ns, ts, i, c);
        r := PutBitmap(w, tok, b, ns[i := c], ts[i := c.tree], area + c.OwnOf(w));
      }
    }

    lemma ArrayTree(w: World<V>)
      requires w.Ok() && Valid(w)
      ensures body.ArrayBody? <==> tree.ArrayMap?
    {
    }

    static lemma LeafLikeTree(w: World<V>, c: Cell<V>)
      requires w.Ok() && c.Valid(w)
      ensures c.LeafLike() == IsLeafLike(c.tree)
    {
    }

    static method MakeLeaf(ghost w: World<V>, tok: Owner?, k: Key, v: V) returns (r: Cell<V>)
      requires w.Foreign(tok) && w.Ok() && w.Made(k)
      ensures fresh(r) && fresh(r.own) && r.Valid(w) && r.tree == Leaf(k.hash, Entry(k, v))
    {
      var q := new Pair(k, v);
      r := new Cell(tok, LeafBody(k.hash, q), Leaf(k.hash, Entry(k, v)), {q});
    }

    // All children but the i-th are as they were.
    static ghost predicate KidsBut(w: World<V>, area: set<object>, ns: seq<Cell<V>>, ts: seq<T.Node<V>>, i: nat)
      reads w.cells, w.pairs, area
    {
      && |ns| == |ts|
      && (forall j | 0 <= j < |ns| && j != i :: Inside(w, area, ns[j]) && ns[j].tree == ts[j] && ns[j].Valid(w))
      && (forall j, l | 0 <= j < l < |ns| && j != i && l != i :: ns[j].OwnOf(w) !! ns[l].OwnOf(w))
    }

    static lemma KidsSet(w: World<V>, area: set<object>, ns: seq<Cell<V>>, ts: seq<T.Node<V>>, i: nat, c: Cell<V>)
      requires i < |ns| && KidsBut(w, area, ns, ts, i) && c.Valid(w)
      requires c in w.cells || c in c.own
      requires forall j | 0 <= j < |ns| && j != i :: ns[j].OwnOf(w) !! c.OwnOf(w)
      ensures KidsMatch(w, area + c.OwnOf(w), ns[i := c], ts[i := c.tree])
    {
    }

    static lemma KidsCut(w: World<V>, area: set<object>, ns: seq<Cell<V>>, ts: seq<T.Node<V>>, i: nat)
      requires i < |ns| && KidsBut(w, area, ns, ts, i)
      ensures KidsMatch(w, area, ns[..i] + ns[i + 1..], ts[..i] + ts[i + 1..])
    {
    }

    static lemma KidsAdd(w: World<V>, area: set<object>, ns: seq<Cell<V>>, ts: seq<T.Node<V>>, i: nat, c: Cell<V>)
      requires i <= |ns| && KidsMatch(w, area, ns, ts) && c.Valid(w)
      requires c in c.own && c.own !! area
      ensures KidsMatch(w, area + c.own, ns[..i] + [c] + ns[i..], ts[..i] + [c.tree] + ts[i..])
    {
      var ns', ts' := ns[..i] + [c] + ns[i..], ts[..i] + [c.tree] + ts[i..];
      forall j | 0 <= j < |ns'|
        ensures Inside(w, area + c.own, ns'[j]) && ns'[j].tree == ts'[j] && ns'[j].Valid(w)
        ensures j < i ==> ns'[j] == ns[j]
        ensures j > i ==> ns'[j] == ns[j - 1]
      {
        if j < i { assert ns'[j] == ns[j] && ts'[j] == ts[j]; }
        if j > i { assert ns'[j] == ns[j - 1] && ts'[j] == ts[j - 1]; }
      }
      forall j, l | 0 <= j < l < |ns'|
        ensures ns'[j].OwnOf(w) !! ns'[l].OwnOf(w)
      {
        if j == i { assert ns'[l] == ns[l - 1] && Inside(w, area, ns[l - 1]); }
        if l == i { assert ns'[j] == ns[j] && Inside(w, area, ns[j]); }
      }
    }

    // The end of Zt.update: a new bitmap and new children, in place when the session owns the node.
    method PutBitmap(ghost w: World<V>, tok: Owner?, b: set<Slot>, ns: seq<Cell<V>>, ghost ts: seq<T.Node<V>>,
                     ghost area: set<object>)
      returns (r: Cell<V>)
      requires w.Foreign(tok) && w.Ok() && body.BitmapBody?
      requires KidsMatch(w, area, ns, ts)
      requires this !in w.cells ==> this in own && this !in area
      requires Clear(w, area) && Clear(w, OwnOf(w))
      modifies if this in w.cells then {} else {this}
      ensures r.Valid(w) && r.tree == Bitmap(b, ts)
      ensures r == this || fresh(r)
      ensures forall o | o in r.OwnOf(w) :: o in old(OwnOf(w)) || o in area || fresh(o)
    {
      if tok != null && tok == owner {
        body := BitmapBody(b, ns);
        tree := Bitmap(b, ts);
        own := own + area;
        r := this;
      } else {
        r := new Cell(tok, BitmapBody(b, ns), Bitmap(b, ts), area);
      }
    }

    // Nothing in the area existed before the session.
    static ghost predicate Clear(w: World<V>, area: set<object>) {
      (forall c | c in w.cells :: c !in area) && (forall p | p in w.pairs :: p !in area)
    }

    // What this node may edit is apart from what existed before.
    ghost predicate Apart(w: World<V>)
      reads this
    {
      this !in w.cells ==>
        && this in own && Clear(w, own) && (w.tok != null ==> owner == w.tok)
    }

    lemma BitmapValid(w: World<V>)
      requires w.Ok() && Valid(w) && body.BitmapBody?
      ensures Apart(w)
      ensures tree.Bitmap? && tree.bitmap == body.bitmap
      ensures KidsMatch(w, OwnOf(w) - {this}, body.nodes, tree.nodes)
    {
    }

    // le
    static method ExpandBitmap(ghost w: World<V>, tok: Owner?, b: set<Slot>, ns: seq<Cell<V>>, ghost ts: seq<T.Node<V>>,
                               ghost area: set<object>, s: Slot, c: Cell<V>)
      returns (r: Cell<V>)
      requires w.Foreign(tok) && w.Ok() && KidsMatch(w, area, ns, ts) && |ns| == Rank(b, 32) && s !in b
      requires c.Valid(w) && c in c.own && c.own !! area && c !in w.cells
      requires Clear(w, area)
      ensures fresh(r) && r.Valid(w) && r.tree == T.Expand(b, ts, s, c.tree)
      ensures r.own == area + c.own + {r}
    {
      hide T.Rank;
      var slots: seq<Cell?<V>> := seq(32, (j: int) requires 0 <= j < 32 =>
        if j == s then c else if j in b then (RankMonotone(b, j, 32); ns[Rank(b, j)]) else null);
      ghost var t := T.Expand(b, ts, s, c.tree);
      forall j: Slot | j in b
        ensures Rank(b, j) < |ns| && slots[j] == ns[Rank(b, j)] && t.slots[j] == Some(ts[Rank(b, j)])
      {
        RankMonotone(b, j, 32);
      }
      ExpandMatches(w, area, b, ns, ts, s, c, slots, t.slots);
      r := new Cell(tok, HashArrayBody(|ns| + 1, slots), t, area + c.own);
      assert forall j | 0 <= j < 32 && slots[j] != null :: slots[j] != r;
    }

    static lemma ExpandMatches(w: World<V>, area: set<object>, b: set<Slot>, ns: seq<Cell<V>>, ts: seq<T.Node<V>>,
                               s: Slot, c: Cell<V>,
                               slots: seq<Cell?<V>>, tslots: seq<Option<T.Node<V>>>)
      requires KidsMatch(w, area, ns, ts) && |ns| == Rank(b, 32) && s !in b
      requires c.Valid(w) && c in c.own && c.own !! area && c !in w.cells
      requires |slots| == |tslots| == 32
      requires forall j: Slot ::
        if j in b then Rank(b, j) < |ns| && slots[j] == ns[Rank(b, j)] && tslots[j] == Some(ts[Rank(b, j)])
        else if j == s then slots[j] == c && tslots[j] == Some(c.tree)
        else slots[j] == null && tslots[j] == None
      ensures SlotsMatch(w, area + c.own, slots, tslots)
    {
      forall i, j | 0 <= i < j < 32 && slots[i] != null && slots[j] != null
        ensures slots[i].OwnOf(w) !! slots[j].OwnOf(w)
      {
        if i in b && j in b {
          RankMonotone(b, i, j);
        }
      }
      forall j: Slot
        ensures SlotMatches(w, area + c.own, slots[j], tslots[j])
      {
      }
    }

    // Vt.update
    method UpdateHashArray(ghost w: World<V>, tok: Owner?, d: nat, k: Key, v: Option<V>)
      returns (r: Cell?<V>, altered: bool, resized: bool)
      requires w.Foreign(tok) && w.Ok() && Valid(w)
      requires body.HashArrayBody? && d <= 7 && Shaped(tree, Path(k.hash, d))
      modifies OwnOf(w), LeakSet(w, tok, d, k, v)
      ensures old(LeakSet(w, tok, d, k, v)) == {} ==> Does(w, d, k, v, r, altered, resized)
      ensures Leaked(w, old(LeakSet(w, tok, d, k, v)), k, v, r == this)
      decreases tree, 1
    {
      hide World.Ok, World.After, World.Settled, World.Made, Frozen, T.Update, T.HashArrayWith, T.Shaped, T.Path,
        T.SlotAt, T.Get;
      HashArrayValid(w);
      UpdateHashArrayStep(body.count, tree.slots, d, k, v);
      var s := SlotAt(k.hash, d);
      ghost var area, a := OwnOf(w) - {this}, w.After(tree, d, k, v);
      assert SlotMatches(w, area, body.slots[s], tree.slots[s]);
      AfterHashArray(w, a, d, k, v);
      if body.slots[s] != null {
        r, altered, resized := UpdateInHashArray(w, tok, d, k, v, s);
      } else if v == None {
        r, altered, resized := this, false, false;
      } else {
        var c := MakeLeaf(a, tok, k, v.value);
        r := ReplaceInHashArray(a, tok, s, c, area);
        altered, resized := true, true;
      }
    }

    // The same when there is a child in the slot of k.
    method UpdateInHashArray(ghost w: World<V>, tok: Owner?, d: nat, k: Key, v: Option<V>, s: Slot)
      returns (r: Cell<V>, altered: bool, resized: bool)
      requires w.Foreign(tok) && w.Ok() && Valid(w)
      requires body.HashArrayBody? && d <= 7 && Shaped(tree, Path(k.hash, d))
      requires s == SlotAt(k.hash, d) && |body.slots| == 32 && body.slots[s] != null
      modifies OwnOf(w), LeakSet(w, tok, d, k, v)
      ensures old(LeakSet(w, tok, d, k, v)) == {} ==> Does(w, d, k, v, r, altered, resized)
      ensures Leaked(w, old(LeakSet(w, tok, d, k, v)), k, v, r == this)
      decreases tree, 0
    {
      hide World.Ok, World.After, World.Settled, World.Made, Frozen, T.Update, T.HashArrayWith, T.Shaped, T.Path,
        T.SlotAt, T.Get;
      HashArrayValid(w);
      UpdateHashArrayStep(body.count, tree.slots, d, k, v);
      ghost var area, leak, a := OwnOf(w) - {this}, LeakSet(w, tok, d, k, v), w.After(tree, d, k, v);
      assert SlotMatches(w, area, body.slots[s], tree.slots[s]);
      AfterHashArray(w, a, d, k, v);
      LeakOfHashArray(w, tok, d, k, v, s);
      var c;
      c, altered, resized := UpdateSlot(w, a, tok, d, k, v, s, area);
      r := SettleHashArray(a, tok, s, c, area, leak == {});
    }

    lemma AfterHashArray(w: World<V>, a: World<V>, d: nat, k: Key, v: Option<V>)
      requires w.Ok() && body.HashArrayBody? && tree.HashArray?
      requires d <= 7 && Shaped(tree, Path(k.hash, d)) && a == w.After(tree, d, k, v)
      requires SlotsMatch(w, OwnOf(w) - {this}, body.slots, tree.slots)
      ensures a.Ok() && a.cells == w.cells && a.pairs == w.pairs && a.tok == w.tok
      ensures var s := SlotAt(k.hash, d);
        && SlotsBut(a, OwnOf(w) - {this}, body.slots, tree.slots, s)
        && if body.slots[s] != null then
             tree.slots[s].Some? && Shaped(tree.slots[s].value, Path(k.hash, d + 1))
               && a == w.After(tree.slots[s].value, d + 1, k, v)
           else if v == None then a == w else a.Made(k)
    {
      var s := SlotAt(k.hash, d);
      assert SlotMatches(w, OwnOf(w) - {this}, body.slots[s], tree.slots[s]);
      w.AfterLike(tree, d, k, v);
      GetHashArrayStep(tree.count, tree.slots, d, k);
      OtherSlots(tree.count, tree.slots, d, k);
      SlotsElsewhere(w, a, OwnOf(w) - {this}, body.slots, tree.slots, k.hash, s);
      if body.slots[s] == null { w.TurnLike(k, {}); }
    }

    lemma LeakOfHashArray(w: World<V>, tok: Owner?, d: nat, k: Key, v: Option<V>, s: Slot)
      requires w.Ok() && Valid(w) && Shaped(tree, Path(k.hash, d)) && body.HashArrayBody?
      requires tree.HashArray? && SlotsMatch(w, OwnOf(w) - {this}, body.slots, tree.slots)
      requires s == SlotAt(k.hash, d) && |body.slots| == 32 && body.slots[s] != null
      requires SlotMatches(w, OwnOf(w) - {this}, body.slots[s], tree.slots[s])
      requires Shaped(tree.slots[s].value, Path(k.hash, d + 1))
      ensures LeakSet(w, tok, d, k, v) == body.slots[s].LeakSet(w, tok, d + 1, k, v)
    {
    }

    // The recursive call of Vt.update.
    method UpdateSlot(ghost w: World<V>, ghost a: World<V>, tok: Owner?, d: nat, k: Key, v: Option<V>, s: Slot,
                      ghost area: set<object>)
      returns (c: Cell?<V>, altered: bool, resized: bool)
      requires w.Foreign(tok) && w.Ok() && Apart(w) && area == OwnOf(w) - {this}
      requires body.HashArrayBody? && tree.HashArray? && |body.slots| == |tree.slots| == 32 && d <= 6
      requires SlotsMatch(w, area, body.slots, tree.slots) && SlotsBut(a, area, body.slots, tree.slots, s)
      requires body.slots[s] != null && SlotMatches(w, area, body.slots[s], tree.slots[s])
      requires Shaped(tree.slots[s].value, Path(k.hash, d + 1)) && a == w.After(tree.slots[s].value, d + 1, k, v)
      requires a.cells == w.cells && a.pairs == w.pairs && a.tok == w.tok
      modifies body.slots[s].OwnOf(w), body.slots[s].LeakSet(w, tok, d + 1, k, v)
      ensures unchanged(this)
      ensures old(body.slots[s].LeakSet(w, tok, d + 1, k, v)) == {} ==>
        var u := T.Update(old(tree.slots[s].value), d + 1, k, v);
        && a.Ok() && ReadySlot(a, area, s, c)
        && altered == u.altered && resized == u.resized
        && (if c == null then u.node == None else u.node == Some(c.tree))
        && (!altered ==> c == body.slots[s])
        && (c != null && c == body.slots[s] && this in w.cells ==> c.tree == tree.slots[s].value)
        && (c != null ==> forall o | o in c.OwnOf(w) :: o in area || fresh(o))
      ensures Leaked(w, old(body.slots[s].LeakSet(w, tok, d + 1, k, v)), k, v, c == body.slots[s])
      decreases tree.slots[s].value, 3
    {
      hide World.After, World.Settled, Frozen, T.Update, T.Get, T.Shaped;
      ghost var leak := body.slots[s].LeakSet(w, tok, d + 1, k, v);
      c, altered, resized := body.slots[s].Update(w, tok, d + 1, k, v);
      if leak == {} {
        SlotDone(a, s, c);
      }
    }

    // The child in slot s is c now; ok says that no pair leaked below.
    method SettleHashArray(ghost w: World<V>, tok: Owner?, s: Slot, c: Cell?<V>, ghost area: set<object>,
                           ghost ok: bool)
      returns (r: Cell<V>)
      requires w.Foreign(tok) && body.HashArrayBody? && tree.HashArray? && tree.count == body.count && body.count >= 1
      requires |body.slots| == |tree.slots| == 32 && body.slots[s] != null && tree.slots[s].Some?
      requires ok ==> w.Ok() && ReadySlot(w, area, s, c)
      requires ok && c == body.slots[s] ==> (this in w.cells ==> c.tree == tree.slots[s].value)
      requires !ok ==> c == body.slots[s]
      modifies if this in w.cells then {} else {this}
      ensures ok ==>
        && r.Valid(w)
        && r.tree == old(HashArrayWith(tree.count, tree.slots, s, if c == null then None else Some(c.tree)))
        && (forall o | o in r.OwnOf(w) ::
              o in old(OwnOf(w)) || o in area || (c != null && o in old(c.OwnOf(w))) || fresh(o))
        && (r == this ==> r.tree.HashArray?)
      ensures c == old(body.slots[s]) ==> r == this
    {
      if c == body.slots[s] {
        if ok { SlotEdited(w, s, area); }
        r := this;
      } else {
        r := ReplaceInHashArray(w, tok, s, c, area);
      }
    }

    // The children in other slots are valid in area, and c is separate from all of them.
    ghost predicate ReadySlot(w: World<V>, area: set<object>, s: nat, c: Cell?<V>)
      requires body.HashArrayBody? && tree.HashArray?
      reads this, w.cells, w.pairs, area, if c == null then {} else {c} + c.OwnOf(w)
    {
      && s < |body.slots|
      && SlotsBut(w, area, body.slots, tree.slots, s)
      && Clear(w, area)
      && (this !in w.cells ==>
          && this in own && this !in area && Clear(w, own) && (w.tok != null ==> owner == w.tok))
      && (c != null ==>
          && c.Valid(w) && this !in c.OwnOf(w) && (c in w.cells || c in c.own)
          && forall j | 0 <= j < |body.slots| && j != s && body.slots[j] != null ::
              body.slots[j].OwnOf(w) !! c.OwnOf(w))
    }

    // The update of the child in slot s touches none of the others.
    twostate lemma SlotDone(new w: World<V>, s: Slot, new c: Cell?<V>)
      requires old(allocated(w))
      requires body == old(body) && tree == old(tree) && own == old(own)
      requires Apart(w) && body.HashArrayBody? && tree.HashArray? && |body.slots| == 32 && body.slots[s] != null
      requires old(SlotsBut(w, OwnOf(w) - {this}, body.slots, tree.slots, s))
      requires old(forall j | 0 <= j < |body.slots| && j != s && body.slots[j] != null ::
        body.slots[j].OwnOf(w) !! body.slots[s].OwnOf(w))
      requires old(forall o | o in body.slots[s].OwnOf(w) :: o in OwnOf(w) - {this})
      requires forall o | o in OwnOf(w) - {this} && o !in old(body.slots[s].OwnOf(w)) :: unchanged(o)
      requires unchanged(w.cells) && unchanged(w.pairs)
      requires c != null ==> c.Valid(w) && forall o | o in c.OwnOf(w) :: o in old(body.slots[s].OwnOf(w)) || fresh(o)
      ensures ReadySlot(w, OwnOf(w) - {this}, s, c)
    {
      ghost var area, ns, ts := OwnOf(w) - {this}, body.slots, tree.slots;
      assert forall o | o in old(ns[s].OwnOf(w)) :: o in area;
      forall j | 0 <= j < |ns| && j != s
        ensures SlotMatches(w, area, ns[j], ts[j])
        ensures ns[j] != null ==> ns[j].OwnOf(w) == old(ns[j].OwnOf(w))
      {
        assert old(SlotMatches(w, area, ns[j], ts[j]));
        if ns[j] != null {
          assert old(ns[j].Valid(w)) && old(Inside(w, area, ns[j]));
          assert old(ns[j].OwnOf(w)) !! old(ns[s].OwnOf(w));
          assert forall o | o in old(ns[j].OwnOf(w)) :: unchanged(o);
        }
      }
    }

    ghost method SlotEdited(w: World<V>, s: nat, area: set<object>)
      requires w.Ok() && body.HashArrayBody? && tree.HashArray? && tree.count == body.count
      requires s < |body.slots| && body.slots[s] != null && |tree.slots| == |body.slots| && tree.slots[s].Some?
      requires ReadySlot(w, area, s, body.slots[s])
      requires this in w.cells ==> body.slots[s].tree == tree.slots[s].value
      modifies if this in w.cells then {} else {this}
      ensures body == old(body) && Valid(w)
      ensures tree == HashArray(body.count, old(tree.slots[s := Some(body.slots[s].tree)]))
      ensures forall o | o in OwnOf(w) :: o in old(OwnOf(w)) || o in area || o in old(body.slots[s].OwnOf(w))
    {
      var c := body.slots[s];
      if this in w.cells {
        assert tree.slots[s := Some(c.tree)] == tree.slots;
        assert Frozen(w.cells, w.pairs);
        forall j | 0 <= j < |tree.slots|
          ensures w.SettledSlot(tree.slots[j])
        {
          if j != s { assert SlotMatches(w, area, body.slots[j], tree.slots[j]); }
          if body.slots[j] != null { body.slots[j].SettledHere(w); }
        }
      } else {
        SlotsSet(w, area, body.slots, tree.slots, s, c);
        assert body.slots[s := c] == body.slots;
        NoteHashArray(w, tree.slots[s := Some(c.tree)], area + c.OwnOf(w));
      }
    }

    // Slot s gets c, which is not the node that was there, or becomes empty.
    method ReplaceInHashArray(ghost w: World<V>, tok: Owner?, s: Slot, c: Cell?<V>, ghost area: set<object>)
      returns (r: Cell<V>)
      requires w.Foreign(tok) && w.Ok() && body.HashArrayBody? && tree.HashArray? && tree.count == body.count
      requires |body.slots| == |tree.slots| == 32 && (body.slots[s] == null <==> tree.slots[s] == None)
      requires body.slots[s] != null ==> body.count >= 1
      requires body.slots[s] == null ==> c != null
      requires ReadySlot(w, area, s, c)
      modifies if this in w.cells then {} else {this}
      ensures r.Valid(w)
      ensures r.tree == old(HashArrayWith(tree.count, tree.slots, s, if c == null then None else Some(c.tree)))
      ensures forall o | o in r.OwnOf(w) ::
        o in old(OwnOf(w)) || o in area || (c != null && o in old(c.OwnOf(w))) || fresh(o)
      ensures r == this ==> r.tree.HashArray?
    {
      var count, slots := body.count, body.slots;
      ghost var ts := tree.slots;
      if c == null {
        SlotsClear(w, area, slots, ts, s);
        if count - 1 < HASH_ARRAY_MIN {
          ghost var rest := ts[s := None];
          r := PackSlots(w, tok, slots[s := null], rest, area);
          assert (set i: Slot | rest[i].Some?) == (set i: Slot | ts[i].Some? && i != s);
        } else {
          r := PutHashArray(w, tok, count - 1, slots[s := null], ts[s := None], area);
        }
      } else {
        SlotsSet(w, area, slots, ts, s, c);
        var n := if slots[s] == null then count + 1 else count;
        r := PutHashArray(w, tok, n, slots[s := c], ts[s := Some(c.tree)], area + c.OwnOf(w));
      }
    }

    static ghost predicate SlotsBut(w: World<V>, area: set<object>, ns: seq<Cell?<V>>, ts: seq<Option<T.Node<V>>>,
                                    s: nat)
      reads w.cells, w.pairs, area
    {
      && |ns| == |ts|
      && (forall i | 0 <= i < |ns| && i != s :: SlotMatches(w, area, ns[i], ts[i]))
      && (forall i, j | 0 <= i < j < |ns| && i != s && j != s && ns[i] != null && ns[j] != null ::
          ns[i].OwnOf(w) !! ns[j].OwnOf(w))
    }

    static lemma SlotsSet(w: World<V>, area: set<object>, ns: seq<Cell?<V>>, ts: seq<Option<T.Node<V>>>, s: nat,
                          c: Cell<V>)
      requires s < |ns| && SlotsBut(w, area, ns, ts, s) && c.Valid(w)
      requires c in w.cells || c in c.own
      requires forall j | 0 <= j < |ns| && j != s && ns[j] != null :: ns[j].OwnOf(w) !! c.OwnOf(w)
      ensures SlotsMatch(w, area + c.OwnOf(w), ns[s := c], ts[s := Some(c.tree)])
    {
      var ns', ts' := ns[s := c], ts[s := Some(c.tree)];
      forall j | 0 <= j < |ns|
        ensures SlotMatches(w, area + c.OwnOf(w), ns'[j], ts'[j])
      {
        if j != s { assert SlotMatches(w, area, ns[j], ts[j]); }
      }
    }

    static lemma SlotsClear(w: World<V>, area: set<object>, ns: seq<Cell?<V>>, ts: seq<Option<T.Node<V>>>, s: nat)
      requires s < |ns| && SlotsBut(w, area, ns, ts, s)
      ensures SlotsMatch(w, area, ns[s := null], ts[s := None])
    {
      var ns', ts' := ns[s := null], ts[s := None];
      forall j | 0 <= j < |ns|
        ensures SlotMatches(w, area, ns'[j], ts'[j])
      {
        if j != s { assert SlotMatches(w, area, ns[j], ts[j]); }
      }
    }

    // The end of Vt.update.
    method PutHashArray(ghost w: World<V>, tok: Owner?, count: nat, ns: seq<Cell?<V>>, ghost ts: seq<Option<T.Node<V>>>,
                        ghost area: set<object>)
      returns (r: Cell<V>)
      requires w.Foreign(tok) && w.Ok() && body.HashArrayBody?
      requires SlotsMatch(w, area, ns, ts)
      requires this !in w.cells ==> this in own && this !in area
      requires Clear(w, area) && Clear(w, OwnOf(w))
      modifies if this in w.cells then {} else {this}
      ensures r.Valid(w) && r.tree == HashArray(count, ts)
      ensures r == this || fresh(r)
      ensures forall o | o in r.OwnOf(w) :: o in old(OwnOf(w)) || o in area || fresh(o)
    {
      if tok != null && tok == owner {
        body := HashArrayBody(count, ns);
        tree := HashArray(count, ts);
        own := own + area;
        r := this;
      } else {
        r := new Cell(tok, HashArrayBody(count, ns), HashArray(count, ts), area);
      }
    }

    // fe, with the excluded slot already cleared
    static method PackSlots(ghost w: World<V>, tok: Owner?, slots: seq<Cell?<V>>, ghost ts: seq<Option<T.Node<V>>>,
                            ghost area: set<object>)
      returns (r: Cell<V>)
      requires w.Foreign(tok) && w.Ok() && |slots| == 32 && SlotsMatch(w, area, slots, ts)
      requires Clear(w, area)
      ensures fresh(r) && r.Valid(w) && r.tree == Bitmap((set i: Slot | ts[i].Some?), Flat(ts))
      ensures r.own == area + {r}
    {
      var bitmap := set i: Slot | slots[i] != null;
      FlatMatches(w, area, slots, ts);
      r := new Cell(tok, BitmapBody(bitmap, FlatCells(slots)), Bitmap((set i: Slot | ts[i].Some?), Flat(ts)), area);
    }

    static function FlatCells(slots: seq<Cell?<V>>): (ns: seq<Cell<V>>)
      ensures forall n | n in ns :: n in slots
    {
      if |slots| == 0 then []
      else
        var last := slots[|slots| - 1];
        FlatCells(slots[..|slots| - 1]) + (if last != null then [last] else [])
    }

    static lemma {:induction false} FlatMatches(w: World<V>, area: set<object>, slots: seq<Cell?<V>>,
                                                ts: seq<Option<T.Node<V>>>)
      requires SlotsMatch(w, area, slots, ts)
      ensures KidsMatch(w, area, FlatCells(slots), Flat(ts))
      decreases |slots|
    {
      if |slots| > 0 {
        var n := |slots| - 1;
        FlatMatches(w, area, slots[..n], ts[..n]);
        var init := FlatCells(slots[..n]);
        if slots[n] != null {
          forall i | 0 <= i < |init|
            ensures init[i].OwnOf(w) !! slots[n].OwnOf(w)
          {
            assert init[i] in slots[..n];
          }
        }
      }
    }

    /** update, on whichever kind of node this is. */
    method Update(ghost w: World<V>, tok: Owner?, d: nat, k: Key, v: Option<V>)
      returns (r: Cell?<V>, altered: bool, resized: bool)
      requires w.Foreign(tok) && w.Ok() && Valid(w)
      requires d <= 7 && Shaped(tree, Path(k.hash, d))
      modifies OwnOf(w), LeakSet(w, tok, d, k, v)
      ensures old(LeakSet(w, tok, d, k, v)) == {} ==> Does(w, d, k, v, r, altered, resized)
      ensures Leaked(w, old(LeakSet(w, tok, d, k, v)), k, v, r == this)
      decreases tree, 2
    {
      match body
      case LeafBody(_, _) => r, altered, resized := UpdateLeaf(w, tok, d, k, v);
      case CollisionBody(_, _) => r, altered, resized := UpdateCollision(w, tok, d, k, v);
      case BitmapBody(_, _) => r, altered, resized := UpdateBitmap(w, tok, d, k, v);
      case HashArrayBody(_, _) => r, altered, resized := UpdateHashArray(w, tok, d, k, v);
    }

    lemma HashArrayValid(w: World<V>)
      requires w.Ok() && Valid(w) && body.HashArrayBody?
      ensures Apart(w)
      ensures tree.HashArray? && tree.count == body.count
      ensures SlotsMatch(w, OwnOf(w) - {this}, body.slots, tree.slots)
    {
      if this in w.cells {
        forall i | 0 <= i < |body.slots|
          ensures SlotMatches(w, {}, body.slots[i], tree.slots[i])
        {
          assert Frozen(w.cells, w.pairs);
          assert w.tok != null ==> w.SettledSlot(tree.slots[i]);
        }
      }
    }

    // What an update returns, against T.Update on the value.
    twostate predicate Does(w: World<V>, d: nat, k: Key, v: Option<V>, new r: Cell?<V>, altered: bool, resized: bool)
      requires d <= 7 && Shaped(old(tree), Path(k.hash, d))
      reads this, if r == null then {} else {r} + r.OwnOf(w), w.cells, w.pairs
    {
      var u := T.Update(old(tree), d, k, v);
      && altered == u.altered && resized == u.resized
      && (if r == null then u.node == None else u.node == Some(r.tree))
      && (r != null ==> r.Valid(w.After(old(tree), d, k, v)) && forall o | o in r.OwnOf(w) ::
          o in old(OwnOf(w)) || fresh(o))
      && (!altered ==> r == this)
      && (r == this ==> IsLeafLike(tree) == IsLeafLike(old(tree)))
    }

    // If pairs leak, the write reaches them, and the node stays where it is.
    static twostate predicate Leaked(w: World<V>, leak: set<Pair<V>>, k: Key, v: Option<V>, stays: bool)
      reads w.pairs
    {
      leak != {} ==>
        && stays && v.Some?
        && forall p | p in leak :: p in w.pairs && p.key == k && p.value == v.value && old(p.value) != v.value
    }
  }
}
