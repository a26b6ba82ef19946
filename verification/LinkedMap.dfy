/**
 The insertion-ordered hash map of module 85616 (core-js, the strong collection behind Map and
 Set): entries in a doubly linked list, an index from keys to entries, and removed flags that
 let an iteration survive any change made by its callback.
 */
module LinkedMap {
  import opened Wrappers

  // The text is what the value prints as; null, undefined and the booleans are Special.
  datatype Primitive = Str(text: string) | Sym(id: int) | Num(text: string) | Big(text: string) | Special(text: string)

  // A frozen object cannot carry the mark that fastKey puts on objects; it is looked up by a
  // scan that compares with ==, and loose says which primitives it is == to.
  datatype Key = Primitive(value: Primitive) | Plain(id: int) | Frozen(id: int, loose: Primitive -> bool)

  // A property of the index: a symbol itself, "S" or "P" before a text, or the mark of an object.
  datatype Index = Symbol(id: int) | StringText(text: string) | OtherText(text: string) | Mark(id: int)

  // fastKey; None is "F".
  function IndexOf(k: Key): Option<Index> {
    match k
    case Primitive(Sym(id)) => Some(Symbol(id))
    case Primitive(Str(t)) => Some(StringText(t))
    case Primitive(Num(t)) => Some(OtherText(t))
    case Primitive(Big(t)) => Some(OtherText(t))
    case Primitive(Special(t)) => Some(OtherText(t))
    case Plain(id) => Some(Mark(id))
    case Frozen(_, _) => None
  }

  predicate LooselyEqual(a: Key, b: Key) {
    || (a.Frozen? && b.Frozen? && a.id == b.id)
    || (a.Primitive? && b.Frozen? && b.loose(a.value))
    || (a.Frozen? && b.Primitive? && a.loose(b.value))
  }

  // Whether a lookup of k may end at an entry with this key.
  predicate Hits(key: Key, k: Key) {
    if k.Frozen? then LooselyEqual(key, k) else IndexOf(key) == IndexOf(k)
  }

  // ---------------------------------------------------------------------
  // The list as a value
  // ---------------------------------------------------------------------

  /**
   Entries are numbered in the order they were made, -1 standing for none: which of them are
   live, their links, and the two ends.
   */
  datatype Links = Links(live: seq<bool>, prev: seq<int>, next: seq<int>, head: int, tail: int) {

    // No live entry strictly between i and j.
    ghost predicate Gap(i: int, j: int) {
      forall m {:trigger live[m]} | i < m < j && 0 <= m < |live| :: !live[m]
    }

    ghost predicate Bounded(n: nat) {
      |live| == |prev| == |next| == n && forall i | 0 <= i < n :: -1 <= prev[i] < n && -1 <= next[i] < n
    }

    // Everyone's prev leads to an older entry and past no live one, the removed entries' too.
    ghost predicate Ok() {
      && |prev| == |next| == |live|
      && -1 <= head < |live| && (head == -1 || live[head]) && Gap(-1, if head == -1 then |live| else head)
      && -1 <= tail < |live| && (tail == -1 || live[tail]) && Gap(tail, |live|)
      && (forall i {:trigger prev[i]} | 0 <= i < |live| :: -1 <= prev[i] < i && Gap(prev[i], i))
      && (forall i {:trigger prev[i]} | 0 <= i < |live| :: live[i] ==> prev[i] == -1 || live[prev[i]])
      && (forall i {:trigger next[i]} | 0 <= i < |live| :: live[i] ==>
            if next[i] == -1 then Gap(i, |live|) else i < next[i] < |live| && live[next[i]] && Gap(i, next[i]))
    }

    ghost function SetNext(i: int, j: int): Links {
      if 0 <= i < |next| then this.(next := next[i := j]) else this
    }

    ghost function SetPrev(i: int, j: int): Links {
      if 0 <= i < |prev| then this.(prev := prev[i := j]) else this
    }

    ghost function Append(): Links {
      var n := |live|;
      var l := Links(live + [true], prev + [tail], next + [-1], if head == -1 then n else head, n);
      l.SetNext(tail, n)
    }

    ghost function Remove(n: int): Links
      requires 0 <= n < |live| == |prev| == |next|
    {
      var i, o := next[n], prev[n];
      var l := Links(live[n := false], prev, next, if head == n then i else head, if tail == n then o else tail);
      l.SetNext(o, i).SetPrev(i, o)
    }

    // Links of live entries come in pairs.
    lemma Pairs(a: int, b: int)
      requires Ok() && 0 <= a < |live| && 0 <= b < |live| && live[a] && live[b]
      ensures next[a] == b <==> prev[b] == a
      ensures next[a] == -1 <==> tail == a
      ensures prev[b] == -1 <==> head == b
    {
      var _, _ := next[a], prev[b];
    }

    // The writes of set, and of delete.
    lemma AppendSteps(l: Links)
      requires l == Links(live + [true], prev + [tail], next + [-1], if head == -1 then |live| else head, |live|)
      ensures l.SetNext(tail, |live|) == Append()
      ensures Append().live == l.live && Append().head == l.head && Append().tail == l.tail
    {
    }

    lemma RemoveSteps(n: int)
      requires 0 <= n < |live| == |prev| == |next|
      ensures var l := this.(live := live[n := false]).SetNext(prev[n], next[n]).SetPrev(next[n], prev[n]);
        l.(head := if head == n then next[n] else head, tail := if tail == n then prev[n] else tail) == Remove(n)
      ensures var l := this.(live := live[n := false]).SetNext(prev[n], next[n]).SetPrev(next[n], prev[n]);
        l.head == head && l.tail == tail && l.live == live[n := false]
    {
    }

    // Of the entries of l those older than p are removed, without a way back, and the others as in l.
    ghost predicate Cleared(l: Links, p: int)
      requires |live| == |prev| == |next| == |l.live| == |l.next|
    {
      && (forall i | 0 <= i < |live| :: live[i] == (l.live[i] && p != -1 && p <= i))
      && (forall i | 0 <= i < |live| && live[i] :: next[i] == l.next[i])
      && (forall i | 0 <= i < |live| :: -1 <= prev[i] < i)
      && forall i | 0 <= i < |live| && l.live[i] && !live[i] :: prev[i] == -1
    }

    lemma ClearedAt(a: Links, p: nat)
      requires Ok() && p < |live| && live[p]
      requires |a.live| == |a.prev| == |a.next| == |live| == |next| && a.Cleared(this, p)
      ensures a.live[p] && (forall i | 0 <= i < p :: !a.live[i]) && a.next[p] == next[p]
      ensures forall i | 0 <= i < |live| :: -1 <= a.prev[i] < i
      ensures next[p] == -1 || (p < next[p] < |live| && live[next[p]])
    {
    }

    // One more is removed.
    lemma ClearedMore(a: Links, b: Links, p: nat)
      requires Ok() && p < |live| && live[p]
      requires |a.live| == |a.prev| == |a.next| == |live| == |next| && a.Cleared(this, p)
      requires |b.live| == |b.prev| == |b.next| == |live| && b.live == a.live[p := false]
      requires forall i | 0 <= i < |live| && b.live[i] :: b.next[i] == a.next[i]
      requires forall i | 0 <= i < |live| :: b.prev[i] == if i == p then -1 else a.prev[i]
      ensures b.Cleared(this, next[p])
    {
      var q := next[p];
      assert if q == -1 then Gap(p, |live|) else p < q < |live| && live[q] && Gap(p, q);
    }

    lemma AppendLive()
      ensures Append().live == live + [true]
    {
    }

    lemma RemoveLive(n: int)
      requires 0 <= n < |live| == |prev| == |next|
      ensures Remove(n).live == live[n := false]
    {
    }

    lemma AppendOk()
      requires Ok()
      ensures Append().Ok()
    {
      var l, n := Append(), |live|;
      assert l.live == live + [true] && |l.prev| == |l.next| == n + 1;
      forall i {:trigger l.prev[i]} | 0 <= i <= n
        ensures -1 <= l.prev[i] < i && l.Gap(l.prev[i], i) && (l.live[i] ==> l.prev[i] == -1 || l.live[l.prev[i]])
      {
        if i < n { assert l.prev[i] == prev[i] < i; } else { assert l.prev[i] == tail; }
      }
      forall i {:trigger l.next[i]} | 0 <= i <= n && l.live[i]
        ensures if l.next[i] == -1 then l.Gap(i, n + 1)
          else i < l.next[i] < n + 1 && l.live[l.next[i]] && l.Gap(i, l.next[i])
      {
        if i < n {
          Pairs(i, i);
          if i == tail { assert l.next[i] == n; } else { assert l.next[i] == next[i]; }
        }
      }
    }

    lemma RemoveOk(n: int)
      requires Ok() && 0 <= n < |live| && live[n]
      ensures Remove(n).Ok()
    {
      var l := Remove(n);
      Pairs(n, n);
      RemoveBack(n);
      RemoveOn(n);
      hide Remove;
      assert l.live == live[n := false] && |l.prev| == |l.next| == |live|;
    }

    // The ends and the ways back.
    lemma RemoveBack(n: int)
      requires Ok() && 0 <= n < |live| && live[n]
      ensures var l := Remove(n);
        && l.live == live[n := false] && |l.prev| == |live| && |l.next| == |live|
        && -1 <= l.head < |live| && (l.head == -1 || l.live[l.head])
        && l.Gap(-1, if l.head == -1 then |live| else l.head)
        && -1 <= l.tail < |live| && (l.tail == -1 || l.live[l.tail]) && l.Gap(l.tail, |live|)
        && (forall j {:trigger l.prev[j]} | 0 <= j < |live| :: -1 <= l.prev[j] < j && l.Gap(l.prev[j], j))
        && (forall j {:trigger l.prev[j]} | 0 <= j < |live| :: l.live[j] ==> l.prev[j] == -1 || l.live[l.prev[j]])
    {
      var l := Remove(n);
      Pairs(n, n);
      forall j {:trigger l.prev[j]} | 0 <= j < |l.live|
        ensures -1 <= l.prev[j] < j && l.Gap(l.prev[j], j) && (l.live[j] ==> l.prev[j] == -1 || l.live[l.prev[j]])
      {
        assert -1 <= prev[j] < j;
        if live[j] { Pairs(n, j); }
      }
    }

    lemma RemoveOn(n: int)
      requires Ok() && 0 <= n < |live| && live[n]
      ensures var l := Remove(n);
        |l.live| == |l.next| == |live| && forall j {:trigger l.next[j]} | 0 <= j < |live| :: l.live[j] ==>
          if l.next[j] == -1 then l.Gap(j, |live|)
          else j < l.next[j] < |live| && l.live[l.next[j]] && l.Gap(j, l.next[j])
    {
      var l := Remove(n);
      forall j {:trigger l.next[j]} | 0 <= j < |l.live| && l.live[j]
        ensures if l.next[j] == -1 then l.Gap(j, |live|)
          else j < l.next[j] < |live| && l.live[l.next[j]] && l.Gap(j, l.next[j])
      {
        Pairs(n, n);
        Pairs(j, n);
      }
    }
  }

  ghost function Count(live: seq<bool>): nat {
    if |live| == 0 then 0 else Count(live[..|live| - 1]) + (if live[|live| - 1] then 1 else 0)
  }

  lemma {:induction false} CountSet(live: seq<bool>, n: nat)
    requires n < |live| && live[n]
    ensures Count(live) == Count(live[n := false]) + 1
    decreases |live|
  {
    var m := |live| - 1;
    if n < m {
      CountSet(live[..m], n);
      assert live[n := false][..m] == live[..m][n := false];
    } else {
      assert live[n := false][..m] == live[..m];
    }
  }

  lemma {:induction false} CountNone(live: seq<bool>)
    ensures Count(live) == 0 <==> forall i | 0 <= i < |live| :: !live[i]
    decreases |live|
  {
    if |live| > 0 { CountNone(live[..|live| - 1]); }
  }

  class Entry<V> {
    const key: Key
    ghost const stamp: nat
    var value: V
    var previous: Entry?<V>
    var next: Entry?<V>
    var removed: bool

    constructor (k: Key, v: V, p: Entry?<V>, ghost s: nat)
      ensures key == k && value == v && previous == p && next == null && !removed && stamp == s
    {
      key, value, previous, next, removed, stamp := k, v, p, null, false, s;
    }
  }

  datatype Op<V> = Set(key: Key, value: V) | Delete(key: Key) | Clear

  // ---------------------------------------------------------------------
  // The map as a value
  // ---------------------------------------------------------------------

  // An entry as a value.
  datatype Slot<V> = Slot(key: Key, value: V, live: bool)

  // The oldest live slot that a lookup of k may end at, -1 if there is none.
  ghost function Where<V>(s: seq<Slot<V>>, k: Key): (p: int)
    ensures -1 <= p < |s|
  {
    if |s| == 0 then -1
    else
      var p, x := Where(s[..|s| - 1], k), s[|s| - 1];
      if p == -1 && x.live && Hits(x.key, k) then |s| - 1 else p
  }

  lemma {:induction false} WhereIs<V>(s: seq<Slot<V>>, k: Key, p: int)
    requires -1 <= p < |s| && (p != -1 ==> s[p].live && Hits(s[p].key, k))
    requires forall i | 0 <= i < |s| && s[i].live && (p == -1 || i < p) :: !Hits(s[i].key, k)
    ensures Where(s, k) == p
    decreases |s|
  {
    if |s| > 0 { WhereIs(s[..|s| - 1], k, if p == |s| - 1 then -1 else p); }
  }

  // What set, delete and clear do to the entries, in the order they were made.
  ghost function Done<V>(s: seq<Slot<V>>, op: Op<V>): seq<Slot<V>> {
    match op
    case Set(k, v) =>
      var p := Where(s, k);
      if p == -1 then s + [Slot(k, v, true)] else s[p := s[p].(value := v)]
    case Delete(k) =>
      var p := Where(s, k);
      if p == -1 then s else s[p := s[p].(live := false)]
    case Clear => seq(|s|, i requires 0 <= i < |s| => s[i].(live := false))
  }

  ghost function DoneAll<V>(s: seq<Slot<V>>, ops: seq<Op<V>>): seq<Slot<V>> {
    if |ops| == 0 then s else Done(DoneAll(s, ops[..|ops| - 1]), ops[|ops| - 1])
  }

  // The operations of the n-th callback.
  function Nth<V>(script: seq<seq<Op<V>>>, n: nat): seq<Op<V>> {
    if n < |script| then script[n] else []
  }

  // The entries after the first n callbacks.
  ghost function After<V>(s: seq<Slot<V>>, script: seq<seq<Op<V>>>, n: nat): seq<Slot<V>> {
    if n == 0 then s else DoneAll(After(s, script, n - 1), Nth(script, n - 1))
  }

  // The oldest live slot behind c is q.
  ghost predicate IsNext<V>(s: seq<Slot<V>>, c: int, q: int) {
    -1 <= c < q < |s| && s[q].live && forall i | c < i < q :: !s[i].live
  }

  ghost predicate NoneAfter<V>(s: seq<Slot<V>>, c: int) {
    forall i | c < i < |s| && 0 <= i :: !s[i].live
  }

  // The n-th call is on the next entry as the map then is, and is told its key and its value of that moment.
  ghost predicate Called<V>(s: seq<Slot<V>>, script: seq<seq<Op<V>>>, calls: seq<(Key, V)>, visits: seq<int>, n: nat)
    requires n < |calls| == |visits|
  {
    var t, q := After(s, script, n), visits[n];
    IsNext(t, Latest(visits[..n]), q) && calls[n] == (t[q].key, t[q].value)
  }

  ghost predicate Runs<V>(s: seq<Slot<V>>, script: seq<seq<Op<V>>>, calls: seq<(Key, V)>, visits: seq<int>) {
    |calls| == |visits| && forall n | 0 <= n < |calls| :: Called(s, script, calls, visits, n)
  }

  lemma RunsMore<V>(s: seq<Slot<V>>, script: seq<seq<Op<V>>>, calls: seq<(Key, V)>, visits: seq<int>,
                    call: (Key, V), q: int)
    requires Runs(s, script, calls, visits)
    requires var t := After(s, script, |calls|);
      IsNext(t, Latest(visits), q) && call == (t[q].key, t[q].value)
    ensures Runs(s, script, calls + [call], visits + [q])
  {
    var cs, vs := calls + [call], visits + [q];
    forall n | 0 <= n < |cs|
      ensures Called(s, script, cs, vs, n)
    {
      if n < |calls| {
        assert Called(s, script, calls, visits, n);
        assert vs[..n] == visits[..n];
      } else {
        assert vs[..n] == visits;
      }
    }
  }

  lemma SetDone<V>(s: seq<Slot<V>>, t: seq<Slot<V>>, k: Key, v: V, p: nat)
    requires p <= |s| && Where(s, k) == if p < |s| then p else -1
    requires |t| == (if p < |s| then |s| else |s| + 1) && t[p].value == v && t[p].live
    requires t[p].key == if p < |s| then s[p].key else k
    requires p < |s| ==> s[p].live
    requires forall i | 0 <= i < |s| && i != p :: t[i] == s[i]
    ensures t == Done(s, Set(k, v))
  {
  }

  lemma DeleteDone<V>(s: seq<Slot<V>>, t: seq<Slot<V>>, k: Key)
    requires |t| == |s|
    requires var p := Where(s, k); forall i | 0 <= i < |s| :: t[i] == if i == p then s[i].(live := false) else s[i]
    ensures t == Done(s, Delete(k))
  {
  }

  lemma AfterNone<V>(s: seq<Slot<V>>, script: seq<seq<Op<V>>>)
    ensures After(s, script, 0) == s
  {
  }

  lemma AfterMore<V>(s: seq<Slot<V>>, script: seq<seq<Op<V>>>, n: nat)
    ensures After(s, script, n + 1) == DoneAll(After(s, script, n), Nth(script, n))
    ensures n >= |script| ==> Nth(script, n) == []
  {
  }

  lemma NothingDone<V>(s: seq<Slot<V>>, ops: seq<Op<V>>)
    requires ops == []
    ensures DoneAll(s, ops) == s
  {
  }

  // Entries keep their place and key, and never come back.
  ghost predicate Later<V>(s: seq<Slot<V>>, t: seq<Slot<V>>) {
    |s| <= |t| && forall i | 0 <= i < |s| :: t[i].key == s[i].key && (t[i].live ==> s[i].live)
  }

  ghost predicate SameValues<V>(s: seq<Slot<V>>, t: seq<Slot<V>>) {
    |s| == |t| && forall i | 0 <= i < |s| :: t[i].value == s[i].value
  }

  lemma {:induction false} DoneAllLater<V>(s: seq<Slot<V>>, ops: seq<Op<V>>)
    ensures Later(s, DoneAll(s, ops))
    ensures NoSet(ops) ==> SameValues(s, DoneAll(s, ops))
    decreases |ops|
  {
    if |ops| > 0 {
      DoneAllLater(s, ops[..|ops| - 1]);
      DoneLater(DoneAll(s, ops[..|ops| - 1]), ops[|ops| - 1]);
    }
  }

  lemma DoneLater<V>(s: seq<Slot<V>>, op: Op<V>)
    ensures Later(s, Done(s, op)) && (!op.Set? ==> SameValues(s, Done(s, op)))
  {
  }

  lemma {:induction false} AfterLater<V>(s: seq<Slot<V>>, script: seq<seq<Op<V>>>, m: nat, n: nat)
    requires m <= n
    ensures Later(After(s, script, m), After(s, script, n))
    ensures (forall ops | ops in script :: NoSet(ops)) ==> SameValues(After(s, script, m), After(s, script, n))
    decreases n
  {
    if m < n {
      AfterLater(s, script, m, n - 1);
      DoneAllLater(After(s, script, n - 1), Nth(script, n - 1));
    }
  }

  /** An entry deleted by the first m callbacks is not visited after them. */
  lemma DeletedUnvisited<V>(s: seq<Slot<V>>, script: seq<seq<Op<V>>>, calls: seq<(Key, V)>, visits: seq<int>,
                            m: nat, n: nat, i: nat)
    requires Runs(s, script, calls, visits) && m <= n < |visits|
    requires var t := After(s, script, m); i < |t| && !t[i].live
    ensures visits[n] != i
  {
    assert Called(s, script, calls, visits, n);
    AfterLater(s, script, m, n);
  }

  /** The start and the script leave no choice: two runs agree as far as both go, and end together. */
  lemma {:induction false} RunsAgree<V>(s: seq<Slot<V>>, script: seq<seq<Op<V>>>, calls: seq<(Key, V)>,
                                        visits: seq<int>, calls': seq<(Key, V)>, visits': seq<int>, n: nat)
    requires Runs(s, script, calls, visits) && Runs(s, script, calls', visits')
    requires n <= |calls| && n <= |calls'|
    ensures calls[..n] == calls'[..n] && visits[..n] == visits'[..n]
    ensures n == |calls| && NoneAfter(After(s, script, n), Latest(visits)) ==> |calls'| == n
  {
    if n > 0 {
      RunsAgree(s, script, calls, visits, calls', visits', n - 1);
      assert Called(s, script, calls, visits, n - 1) && Called(s, script, calls', visits', n - 1);
      assert visits[..n] == visits[..n - 1] + [visits[n - 1]] && visits'[..n] == visits'[..n - 1] + [visits'[n - 1]];
      assert calls[..n] == calls[..n - 1] + [calls[n - 1]] && calls'[..n] == calls'[..n - 1] + [calls'[n - 1]];
    }
    if n == |calls| < |calls'| {
      assert Called(s, script, calls', visits', n);
      assert visits[..n] == visits;
    }
  }

  // Where a lookup of k ends: at the entry under its index, but for a frozen object at the
  // oldest entry that is == to it; -1 if there is none.
  ghost predicate Finds<V>(made: seq<Entry<V>>, live: seq<bool>, k: Key, p: int)
    requires |made| == |live|
  {
    if p == -1 then forall i | 0 <= i < |made| && live[i] :: !Hits(made[i].key, k)
    else 0 <= p < |made| && live[p] && Hits(made[p].key, k) && forall i | 0 <= i < p && live[i] :: !Hits(made[i].key, k)
  }

  class LinkedMap<V> {
    var index: map<Index, Entry<V>>
    var first: Entry?<V>
    var last: Entry?<V>
    var size: nat
    ghost var made: seq<Entry<V>>  // every entry the map ever had, in the order they were made
    ghost var all: set<Entry<V>>   // the same, as the objects a change may touch
    ghost var links: Links
    ghost var keyed: map<Key, int>

    ghost predicate Valid()
      reads this, all
    {
      Listed() && Indexed(made, links.live, index, keyed) && links.Ok()
    }

    ghost predicate Listed()
      reads this, all
    {
      && Numbered(made, all) && links.Bounded(|made|) && size == Count(links.live)
      && -1 <= links.head < |made| && -1 <= links.tail < |made|
      && first == Ref(made, links.head) && last == Ref(made, links.tail)
      && Fields(made, all, links)
    }

    constructor ()
      ensures Valid() && made == [] && all == {} && links.live == []
    {
      index, first, last, size := map[], null, null, 0;
      made, all, links, keyed := [], {}, Links([], [], [], -1, -1), map[];
    }

    // Every entry, as a value.
    ghost function Slots(): (s: seq<Slot<V>>)
      reads this, all
      requires Numbered(made, all) && |made| == |links.live|
      ensures |s| == |made|
      ensures forall i | 0 <= i < |s| :: s[i] == Slot(made[i].key, made[i].value, links.live[i])
    {
      seq(|made|, i requires 0 <= i < |made| == |links.live| && Numbered(made, all) reads this, all =>
        Slot(made[i].key, made[i].value, links.live[i]))
    }

    // k has an entry of its own.
    ghost predicate Holds(k: Key)
      reads this, all
      requires Valid()
    {
      k in keyed && 0 <= keyed[k] < |made| && links.live[keyed[k]] && made[keyed[k]].key == k
    }

    // getEntry
    method Find(k: Key) returns (r: Entry?<V>, ghost p: int)
      requires Valid()
      ensures Finds(made, links.live, k, p) && r == Ref(made, p)
    {
      if !k.Frozen? {
        var i := IndexOf(k).value;
        if i in index {
          r, p := index[i], index[i].stamp;
        } else {
          r, p := null, -1;
        }
        return;
      }
      r, p := first, links.head;
      while r != null && !LooselyEqual(r.key, k)
        invariant -1 <= p < |made| && r == Ref(made, p) && (p != -1 ==> links.live[p])
        invariant forall i | 0 <= i < |made| && links.live[i] && (p == -1 || i < p) :: !LooselyEqual(made[i].key, k)
        decreases if p == -1 then 0 else 1 + |made| - p
      {
        r, p := r.next, links.next[p];
      }
    }

    // get
    method Get(k: Key) returns (r: Option<V>, ghost p: int)
      requires Valid()
      ensures Finds(made, links.live, k, p) && r == if p == -1 then None else Some(made[p].value)
    {
      var e;
      e, p := Find(k);
      r := if e == null then None else Some(e.value);
    }

    // set: the value of the entry found, or a new entry at the end
    method Put(k: Key, v: V) returns (ghost p: int)
      requires Valid()
      modifies this, all
      ensures Valid()
      ensures 0 <= p < |made| && links.live[p] && made[p].value == v
      ensures if p < |old(made)|
        then Finds(old(made), old(links.live), k, p) && made == old(made) && all == old(all) && links == old(links)
        else
          && Finds(old(made), old(links.live), k, -1) && p == |old(made)|
          && fresh(made[p]) && made[p].key == k && made == old(made) + [made[p]] && all == old(all) + {made[p]}
          && links == old(links).Append()
      ensures forall i | 0 <= i < |old(made)| && i != p :: made[i].value == old(made[i].value)
    {
      var s;
      s, p := Find(k);
      if s != null {
        WriteValue(s, p, v);
      } else {
        p := |made|;
        PutNew(k, v);
      }
    }

    method PutNew(k: Key, v: V)
      requires Valid() && Finds(made, links.live, k, -1)
      modifies this, all
      ensures Valid() && |made| == |old(made)| + 1 && links == old(links).Append()
      ensures var x := made[|old(made)|];
        fresh(x) && x.key == k && x.value == v && made == old(made) + [x] && all == old(all) + {x}
      ensures forall i | 0 <= i < |old(made)| :: made[i].value == old(made[i].value)
    {
      hide Hits, Fields, Numbered, LooselyEqual, IndexOf;
      links.AppendOk();
      ghost var p := |made|;
      var x := Append(k, v);
      WriteIndex(k, x, p);
    }

    method WriteValue(s: Entry<V>, ghost p: nat, v: V)
      requires Listed() && p < |made| && s == made[p]
      modifies all
      ensures Listed() && s.value == v
      ensures forall i | 0 <= i < |made| && i != p :: made[i].value == old(made[i].value)
    {
      s.value := v;
    }

    method WriteIndex(k: Key, x: Entry<V>, ghost p: nat)
      requires Listed() && p + 1 == |made| && x == made[p] && x.key == k && links.live[p]
      requires Finds(made[..p], links.live[..p], k, -1) && Indexed(made[..p], links.live[..p], index, keyed)
      modifies this`index, this`keyed
      ensures Listed() && Indexed(made, links.live, index, keyed)
    {
      if !k.Frozen? { index := index[IndexOf(k).value := x]; }
      keyed := keyed[k := p];
      assert forall i | 0 <= i < p :: made[..p][i] == made[i] && links.live[..p][i] == links.live[i];
      assert Hits(k, k);
    }

    // A new entry at the end of the list.
    method Append(k: Key, v: V) returns (x: Entry<V>)
      requires Listed()
      modifies this, all
      ensures Listed() && fresh(x) && x.key == k && x.value == v
      ensures made == old(made) + [x] && all == old(all) + {x} && links == old(links).Append()
      ensures index == old(index) && keyed == old(keyed)
      ensures forall i | 0 <= i < |old(made)| :: made[i].value == old(made[i].value)
    {
      hide Links.Append, Links.SetNext;
      var n := last;
      ghost var l, p := links, |made|;
      x := MakeEntry(k, v);
      assert made[..p] == old(made) && links.live[..p] == l.live;
      WriteLast(x, p);
      l.AppendSteps(links);
      WriteNext(n, x, l.tail, p);
    }

    method MakeEntry(k: Key, v: V) returns (x: Entry<V>)
      requires Numbered(made, all) && links.Bounded(|made|) && Fields(made, all, links)
      requires -1 <= links.tail < |made| && last == Ref(made, links.tail)
      modifies this`made, this`all, this`links
      ensures fresh(x) && x.key == k && x.value == v
      ensures made == old(made) + [x] && all == old(all) + {x}
      ensures links == old(Links(links.live + [true], links.prev + [links.tail], links.next + [-1],
                                 links.head, links.tail))
      ensures Numbered(made, all) && links.Bounded(|made|) && Fields(made, all, links)
    {
      x := new Entry(k, v, last, |made|);
      AddEntry(x);
    }

    method WriteLast(x: Entry<V>, ghost p: nat)
      requires Numbered(made, all) && links.Bounded(|made|) && Fields(made, all, links)
      requires p < |made| && x == made[p] && -1 <= links.head < |made| && first == Ref(made, links.head)
      requires size + 1 == Count(links.live)
      modifies this`first, this`last, this`size, this`links
      ensures links == old(Links(links.live, links.prev, links.next, if links.head == -1 then p else links.head, p))
      ensures Listed()
    {
      last := x;
      if first == null { first := x; }
      size := size + 1;
      links := links.(head := if links.head == -1 then p else links.head, tail := p);
    }

    ghost method AddEntry(x: Entry<V>)
      requires Numbered(made, all) && links.Bounded(|made|) && Fields(made, all, links)
      requires x !in all && x.stamp == |made| && !x.removed && x.next == null
      requires -1 <= links.tail < |made| && x.previous == Ref(made, links.tail)
      modifies this`made, this`all, this`links
      ensures made == old(made) + [x] && all == old(all) + {x}
      ensures links == old(Links(links.live + [true], links.prev + [links.tail], links.next + [-1],
                                 links.head, links.tail))
      ensures Numbered(made, all) && links.Bounded(|made|) && Fields(made, all, links)
    {
      links := Links(links.live + [true], links.prev + [links.tail], links.next + [-1], links.head, links.tail);
      made, all := made + [x], all + {x};
    }

    method WriteNext(o: Entry?<V>, i: Entry?<V>, ghost a: int, ghost b: int)
      requires Numbered(made, all) && links.Bounded(|made|) && Fields(made, all, links)
      requires -1 <= a < |made| && -1 <= b < |made| && o == Ref(made, a) && i == Ref(made, b)
      modifies this`links, all
      ensures links == old(links).SetNext(a, b) && links.Bounded(|made|) && Fields(made, all, links)
      ensures forall m | 0 <= m < |made| :: made[m].value == old(made[m].value)
      ensures forall m | 0 <= m < |made| && m != a :: made[m].next == old(made[m].next)
    {
      if o != null { o.next := i; }
      links := links.SetNext(a, b);
    }

    method WritePrevious(i: Entry?<V>, o: Entry?<V>, ghost a: int, ghost b: int)
      requires Numbered(made, all) && links.Bounded(|made|) && Fields(made, all, links)
      requires -1 <= a < |made| && -1 <= b < |made| && i == Ref(made, a) && o == Ref(made, b)
      modifies this`links, all
      ensures links == old(links).SetPrev(a, b) && links.Bounded(|made|) && Fields(made, all, links)
      ensures forall m | 0 <= m < |made| :: made[m].value == old(made[m].value) && made[m].next == old(made[m].next)
    {
      if i != null { i.previous := o; }
      links := links.SetPrev(a, b);
    }

    method MarkRemoved(n: Entry<V>, ghost p: nat)
      requires Numbered(made, all) && links.Bounded(|made|) && Fields(made, all, links)
      requires p < |made| && n == made[p]
      modifies this`links, all
      ensures links == old(links.(live := links.live[p := false])) && links.Bounded(|made|) && Fields(made, all, links)
      ensures forall m | 0 <= m < |made| :: made[m].value == old(made[m].value)
      ensures n.next == old(n.next) && n.previous == old(n.previous)
    {
      n.removed := true;
      links := links.(live := links.live[p := false]);
    }

    // delete
    method Remove(k: Key) returns (found: bool, ghost p: int)
      requires Valid()
      modifies this, all
      ensures Valid() && made == old(made) && all == old(all) && Finds(made, old(links.live), k, p)
      ensures found == (p != -1)
      ensures links == if p == -1 then old(links) else old(links).Remove(p)
      ensures forall i | 0 <= i < |made| :: made[i].value == old(made[i].value)
    {
      var n;
      n, p := Find(k);
      if n != null {
        Drop(n, p);
      }
      found := n != null;
    }

    method Drop(n: Entry<V>, ghost p: nat)
      requires Valid() && p < |made| && made[p] == n && links.live[p]
      modifies this, all
      ensures Valid() && made == old(made) && all == old(all) && links == old(links.Remove(p))
      ensures forall i | 0 <= i < |made| :: made[i].value == old(made[i].value)
    {
      links.RemoveOk(p);
      assert -1 <= links.prev[p] < p && -1 <= links.next[p] < |made|;
      ClearIndex(n, links.live, p);
      Unlink(n, p);
    }

    method ClearIndex(n: Entry<V>, ghost live: seq<bool>, ghost p: nat)
      requires |made| == |live| && Indexed(made, live, index, keyed) && p < |made| && n == made[p] && live[p]
        && n.stamp == p
      modifies this`index
      ensures Indexed(made, live[p := false], index, keyed)
    {
      if !n.key.Frozen? { index := index - {IndexOf(n.key).value}; }
    }

    method Unlink(n: Entry<V>, ghost p: nat)
      requires Listed() && p < |made| && made[p] == n && links.live[p]
      requires -1 <= links.next[p] < |made| && -1 <= links.prev[p] < |made|
      modifies this, all
      ensures made == old(made) && all == old(all) && index == old(index) && keyed == old(keyed)
      ensures links == old(links.Remove(p)) && Listed()
      ensures forall i | 0 <= i < |made| :: made[i].value == old(made[i].value)
    {
      hide Links.Remove, Links.SetNext, Links.SetPrev;
      CountSet(links.live, p);
      links.RemoveSteps(p);
      var i, o := n.next, n.previous;
      ghost var l := links;
      MarkRemoved(n, p);
      WriteNext(o, i, l.prev[p], l.next[p]);
      WritePrevious(i, o, l.next[p], l.prev[p]);
      WriteEnds(n, i, o, l.next[p], l.prev[p], p);
    }

    method WriteEnds(n: Entry<V>, i: Entry?<V>, o: Entry?<V>, ghost a: int, ghost b: int, ghost p: nat)
      requires Numbered(made, all) && links.Bounded(|made|) && Fields(made, all, links)
      requires p < |made| && n == made[p] && -1 <= a < |made| && -1 <= b < |made| && i == Ref(made, a)
        && o == Ref(made, b)
      requires -1 <= links.head < |made| && -1 <= links.tail < |made|
      requires first == Ref(made, links.head) && last == Ref(made, links.tail) && size == Count(links.live) + 1
      modifies this`first, this`last, this`size, this`links
      ensures links == old(Links(links.live, links.prev, links.next, if links.head == p then a else links.head,
                                 if links.tail == p then b else links.tail))
      ensures Listed()
    {
      if first == n { first := i; }
      if last == n { last := o; }
      size := size - 1;
      links := links.(head := if links.head == p then a else links.head,
                      tail := if links.tail == p then b else links.tail);
    }

    // One round of clear, on the oldest entry that is still live.
    method ClearOne(r: Entry<V>, ghost p: nat)
      requires Numbered(made, all) && links.Bounded(|made|) && Fields(made, all, links)
      requires p < |made| && r == made[p] && links.live[p] && forall i | 0 <= i < p :: !links.live[i]
      requires forall i | 0 <= i < |made| :: -1 <= links.prev[i] < i
      requires Indexed(made, links.live, index, keyed)
      modifies this`index, this`links, all
      ensures links.Bounded(|made|) && links.live == old(links.live)[p := false]
      ensures Fields(made, all, links) && Indexed(made, links.live, index, keyed)
      ensures forall i | 0 <= i < |made| && links.live[i] :: links.next[i] == old(links.next[i])
      ensures forall i | 0 <= i < |made| :: links.prev[i] == if i == p then -1 else old(links.prev[i])
      ensures r.next == old(r.next) && forall i | 0 <= i < |made| :: made[i].value == old(made[i].value)
    {
      ghost var live, o := links.live, links.prev[p];
      MarkRemoved(r, p);
      if r.previous != null {
        WriteNext(r.previous, null, o, -1);
        WritePrevious(r, null, p, -1);
      }
      ClearIndex(r, live, p);
    }

    // In the middle of clear: everything older than p is gone, p and everything newer as it was in l.
    ghost predicate Clearing(l: Links, p: int)
      reads this, all
    {
      && Numbered(made, all) && links.Bounded(|made|) && l.Bounded(|made|) && Fields(made, all, links)
      && Indexed(made, links.live, index, keyed)
      && -1 <= p < |made|
      && links.Cleared(l, p)
    }

    method ClearStep(r: Entry<V>, ghost l: Links, ghost p: nat) returns (s: Entry?<V>)
      requires Clearing(l, p) && l.Ok() && p < |made| && l.live[p] && r == Ref(made, p)
      modifies this`index, this`links, all
      ensures Clearing(l, l.next[p]) && s == Ref(made, l.next[p])
      ensures if l.next[p] == -1 then true else p < l.next[p] < |made| && l.live[l.next[p]]
      ensures Values() == old(Values())
    {
      hide Links.Cleared, Links.Gap, Links.Ok, Indexed;
      ghost var was := links;
      l.ClearedAt(was, p);
      ClearOne(r, p);
      l.ClearedMore(was, links, p);
      s := r.next;
    }

    method ClearEnds(ghost l: Links)
      requires Clearing(l, -1)
      modifies this`first, this`last, this`size, this`links
      ensures Valid() && links.live == old(links.live) && links.prev == old(links.prev)
    {
      CountNone(links.live);
      first, last, size := null, null, 0;
      links := links.(head := -1, tail := -1);
    }

    lemma ClearStarts()
      requires Valid()
      ensures Clearing(links, links.head) && (links.head != -1 ==> links.live[links.head])
      ensures first == Ref(made, links.head) && -1 <= links.head < |made| == |links.live| == |links.next|
    {
    }

    // clear
    method Clear()
      requires Valid()
      modifies this, all
      ensures Valid() && made == old(made) && all == old(all)
      ensures forall i | 0 <= i < |made| :: !links.live[i] && made[i].value == old(made[i].value)
      ensures forall i | 0 <= i < |made| && old(links.live)[i] :: links.prev[i] == -1
    {
      ClearStarts();
      hide Links.Ok, Indexed, Fields, Count;
      ghost var values := Values();
      ClearEach(links);
      ClearEnds(old(links));
      forall i | 0 <= i < |made|
        ensures made[i].value == old(made[i].value)
      {
        assert Values()[i] == values[i];
      }
    }

    // The loop of clear.
    method ClearEach(ghost l: Links)
      requires Clearing(l, l.head) && l.Ok() && first == Ref(made, l.head)
      modifies this`index, this`links, all
      ensures Clearing(l, -1) && Values() == old(Values())
    {
      hide Links.Ok, Indexed, Fields, Count, Numbered;
      var r := first;
      ghost var p := l.head;
      HeadLives(l);
      while r != null
        invariant Clearing(l, p) && -1 <= p < |made| && r == Ref(made, p) && (p != -1 ==> l.live[p])
        invariant Values() == old(Values())
        decreases if p == -1 then 0 else 1 + |made| - p
      {
        r := ClearStep(r, l, p);
        p := l.next[p];
      }
    }

    lemma HeadLives(l: Links)
      requires Clearing(l, l.head) && l.Ok()
      ensures -1 <= l.head < |made| == |l.live| && (l.head != -1 ==> l.live[l.head])
    {
    }

    // The operations of one callback, one after the other.
    method Perform(ops: seq<Op<V>>)
      requires Valid()
      modifies this, all
      ensures Valid() && forall o | o in all :: o in old(all) || fresh(o)
      ensures old(made) <= made && Shrinks(old(links.live), links.live)
      ensures Slots() == DoneAll(old(Slots()), ops)
    {
      hide Links.Ok, Indexed, Fields, Done;
      var n := 0;
      while n < |ops|
        invariant n <= |ops| && Valid() && forall o | o in all :: o in old(all) || fresh(o)
        invariant old(made) <= made && Shrinks(old(links.live), links.live)
        invariant Slots() == DoneAll(old(Slots()), ops[..n])
      {
        assert ops[..n + 1][..n] == ops[..n];
        PerformOne(ops[n]);
        n := n + 1;
      }
      assert ops[..n] == ops;
    }

    method PerformOne(op: Op<V>)
      requires Valid()
      modifies this, all
      ensures Valid() && forall o | o in all :: o in old(all) || fresh(o)
      ensures old(made) <= made && Shrinks(old(links.live), links.live)
      ensures Slots() == Done(old(Slots()), op)
    {
      match op
      case Set(k, v) => PerformSet(k, v);
      case Delete(k) => PerformDelete(k);
      case Clear => PerformClear();
    }

    method PerformSet(k: Key, v: V)
      requires Valid()
      modifies this, all
      ensures Valid() && forall o | o in all :: o in old(all) || fresh(o)
      ensures old(made) <= made && old(links.live) <= links.live
      ensures Slots() == Done(old(Slots()), Set(k, v))
    {
      hide Links.Ok, Links.Append, Indexed, Fields, Hits, Finds, Where, Done, Slots, Count;
      ghost var s, p, l := Slots(), -1, links;
      l.AppendLive();
      p := Put(k, v);
      FindsWhere(old(made), old(links.live), s, k, if p < |s| then p else -1);
      SetDone(s, Slots(), k, v, p);
    }

    method PerformDelete(k: Key)
      requires Valid()
      modifies this, all
      ensures Valid() && made == old(made) && all == old(all) && Shrinks(old(links.live), links.live)
      ensures Slots() == Done(old(Slots()), Delete(k))
    {
      hide Links.Ok, Indexed, Fields, Hits, Finds, Where, Done, Links.SetNext, Links.SetPrev;
      ghost var s, p := Slots(), -1;
      var found;
      found, p := Remove(k);
      FindsWhere(made, old(links.live), s, k, p);
      if p != -1 { old(links).RemoveLive(p); }
      DeleteDone(s, Slots(), k);
    }

    method PerformClear()
      requires Valid()
      modifies this, all
      ensures Valid() && made == old(made) && all == old(all) && Shrinks(old(links.live), links.live)
      ensures Slots() == Done(old(Slots()), Op.Clear)
    {
      hide Links.Ok, Indexed, Fields;
      ghost var s := Slots();
      Clear();
      assert Slots() == Done(s, Op.Clear);
    }

    // Back to an entry that is still in the list: for (; e && e.removed;) e = e.previous
    method Anchor(e: Entry?<V>, ghost c: int) returns (r: Entry?<V>, ghost p: int)
      requires Valid() && -1 <= c < |made| && e == Ref(made, c)
      ensures -1 <= p <= c && r == Ref(made, p) && (p == -1 || links.live[p]) && links.Gap(p, c + 1)
    {
      r, p := e, c;
      while r != null && r.removed
        invariant -1 <= p <= c && r == Ref(made, p) && links.Gap(p, c + 1)
        decreases p
      {
        r, p := r.previous, links.prev[p];
      }
    }

    // Back to an entry still in the list, and on to the one after it.
    method Advance(e: Entry?<V>, ghost visits: seq<int>) returns (r: Entry?<V>, ghost q: int)
      requires Valid() && Covers(visits, links.live) && e == Ref(made, Latest(visits))
      ensures -1 <= q < |made| && r == Ref(made, q)
      ensures if q == -1
        then forall i {:trigger i in visits} | 0 <= i < |made| && links.live[i] :: i in visits
        else Latest(visits) < q && links.live[q] && Covers(visits + [q], links.live)
    {
      ghost var p;
      r, p := Anchor(e, Latest(visits));
      r, q := Following(r, p, visits);
    }

    // The entry after an anchored one: e ? e.next : first
    method Following(e: Entry?<V>, ghost p: int, ghost visits: seq<int>) returns (r: Entry?<V>, ghost q: int)
      requires Valid() && Covers(visits, links.live)
      requires Anchored(e, p, visits)
      ensures -1 <= q < |made| && r == Ref(made, q)
      ensures links.Gap(Latest(visits), if q == -1 then |made| else q)
      ensures if q == -1
        then forall i {:trigger i in visits} | 0 <= i < |made| && links.live[i] :: i in visits
        else Latest(visits) < q && links.live[q] && Covers(visits + [q], links.live)
    {
      CoversNext(visits, links, p);
      if e != null {
        r, q := e.next, links.next[p];
      } else {
        r, q := first, links.head;
      }
    }

    // The callback runs on entry q, and the way back from there.
    method CallBack(e: Entry<V>, ghost q: nat, ghost visits: seq<int>, ops: seq<Op<V>>)
      returns (r: Entry?<V>, ghost p: int)
      requires Valid() && Covers(visits, links.live) && q == Latest(visits) && q < |made| && e == made[q]
      modifies this, all
      ensures Valid() && forall o | o in all :: o in old(all) || fresh(o)
      ensures old(made) <= made && Shrinks(old(links.live), links.live)
      ensures Slots() == DoneAll(old(Slots()), ops)
      ensures Covers(visits, links.live)
      ensures Anchored(r, p, visits)
    {
      hide DoneAll;
      Perform(ops);
      CoversKept(visits, old(links.live), links.live);
      r, p := Anchor(e, q);
    }

    /**
     forEach, whose n-th callback performs script[n] on this map. Each call is on the next entry that
     is live when it is made, with its value of that moment, and the map ends as all those operations
     leave it, with no entry left to visit. So the entries visited were made in the order of the
     visits and never repeat; each was live at the start or is new; and what is live at the end has
     been visited.
     */
    method ForEach(script: seq<seq<Op<V>>>) returns (calls: seq<(Key, V)>, ghost visits: seq<int>)
      requires Valid()
      modifies this, all
      ensures Valid() && old(made) <= made && |visits| == |calls|
      ensures Slots() == After(old(Slots()), script, |calls|)
      ensures Runs(old(Slots()), script, calls, visits) && NoneAfter(Slots(), Latest(visits))
      ensures forall m, n | 0 <= m < n < |visits| :: visits[m] < visits[n]
      ensures forall n | 0 <= n < |visits| :: 0 <= visits[n] < |made| && calls[n].0 == made[visits[n]].key
      ensures forall n | 0 <= n < |visits| && visits[n] < |old(made)| :: old(links.live)[visits[n]]
      ensures forall i {:trigger i in visits} | 0 <= i < |made| && links.live[i] :: i in visits
      ensures (forall ops | ops in script :: NoSet(ops)) ==>
        forall n | 0 <= n < |visits| :: calls[n].1 == made[visits[n]].value
    {
      hide Links.Ok, Indexed, Fields, Numbered, Ref, Count, Slots, Covers, Runs, Anchored, After, Nth, DoneAll,
        IsNext, NoneAfter;
      calls, visits := [], [];
      var e: Entry?<V>;
      ghost var p, s := -1, Slots();
      e := null;
      var going := true;
      Starting(script);
      AfterNone(s, script);
      while going
        invariant Valid() && old(made) <= made && forall o | o in all :: o in old(all) || fresh(o)
        invariant Covers(visits, links.live) && Runs(s, script, calls, visits)
        invariant |calls| == |visits| && Slots() == After(s, script, |calls|)
        invariant if going then Anchored(e, p, visits) else NoneAfter(Slots(), Latest(visits))
        decreases going, if |calls| < |script| then |script| - |calls| else 0, |made| - Latest(visits)
      {
        var call;
        ghost var q;
        AfterMore(s, script, |calls|);
        call, e, p, q := Round(e, p, visits, Nth(script, |calls|));
        going := call.Some?;
        if going {
          RunsMore(s, script, calls, visits, call.value, q);
          calls, visits := calls + [call.value], visits + [q];
        }
      }
      Ending(s, script, calls, visits);
    }

    lemma Starting(script: seq<seq<Op<V>>>)
      requires Valid()
      ensures Covers([], links.live) && Runs(Slots(), script, [], []) && Anchored(null, -1, [])
    {
    }

    lemma Ending(s: seq<Slot<V>>, script: seq<seq<Op<V>>>, calls: seq<(Key, V)>, visits: seq<int>)
      requires Valid() && Covers(visits, links.live) && Runs(s, script, calls, visits)
      requires Slots() == After(s, script, |calls|) && NoneAfter(Slots(), Latest(visits))
      ensures |visits| == |calls|
      ensures forall m, n | 0 <= m < n < |visits| :: visits[m] < visits[n]
      ensures forall n | 0 <= n < |visits| :: 0 <= visits[n] < |made| && calls[n].0 == made[visits[n]].key
      ensures forall n | 0 <= n < |visits| && visits[n] < |s| :: s[visits[n]].live
      ensures forall i {:trigger i in visits} | 0 <= i < |made| && links.live[i] :: i in visits
      ensures (forall ops | ops in script :: NoSet(ops)) ==>
        forall n | 0 <= n < |visits| :: calls[n].1 == made[visits[n]].value
    {
      hide After, Links.Ok, Indexed, Fields;
      var t := Slots();
      forall n | 0 <= n < |visits|
        ensures 0 <= visits[n] < |made| && calls[n].0 == made[visits[n]].key
        ensures visits[n] < |s| ==> s[visits[n]].live
        ensures (forall ops | ops in script :: NoSet(ops)) ==> calls[n].1 == made[visits[n]].value
      {
        CalledThen(s, script, calls, visits, n);
        assert t[visits[n]].key == made[visits[n]].key && t[visits[n]].value == made[visits[n]].value;
      }
      forall i {:trigger i in visits} | 0 <= i < |made| && links.live[i]
        ensures i in visits
      {
        assert t[i].live;
      }
    }

    // One round of forEach: the next entry, and the callback on it.
    method Round(e: Entry?<V>, ghost p: int, ghost visits: seq<int>, ops: seq<Op<V>>)
      returns (call: Option<(Key, V)>, r: Entry?<V>, ghost p': int, ghost q: int)
      requires Valid() && Covers(visits, links.live) && Anchored(e, p, visits)
      modifies this, all
      ensures Valid() && forall o | o in all :: o in old(all) || fresh(o)
      ensures old(made) <= made
      ensures if call == None then NoneAfter(old(Slots()), Latest(visits)) && unchanged(this) && Slots() == old(Slots())
        else
          && IsNext(old(Slots()), Latest(visits), q) && call == Some((old(Slots())[q].key, old(Slots())[q].value))
          && Slots() == DoneAll(old(Slots()), ops)
          && Covers(visits + [q], links.live) && Anchored(r, p', visits + [q])
          && Latest(visits) < q < |old(made)| && (ops == [] ==> |made| == |old(made)|)
    {
      hide DoneAll, Indexed, Links.Ok;
      ghost var s := Slots();
      r, q := Following(e, p, visits);
      if r == null {
        assert forall i | 0 <= i < |s| :: s[i].live == links.live[i];
        call, p' := None, -1;
      } else {
        assert forall i | 0 <= i < |s| :: s[i].live == links.live[i];
        assert s[q] == Slot(r.key, r.value, true);
        call := Some((r.key, r.value));
        r, p' := CallBack(r, q, visits + [q], ops);
        if ops == [] { NothingDone(s, ops); }
      }
    }

    // Where the next step of an iteration starts from: the newest live entry among those passed.
    ghost predicate Anchored(e: Entry?<V>, p: int, visits: seq<int>)
      requires |made| == |links.live|
      reads this
    {
      && -1 <= p <= Latest(visits) < |made| && e == Ref(made, p) && (p == -1 || links.live[p])
      && links.Gap(p, Latest(visits) + 1)
    }

    ghost function Values(): (vs: seq<V>)
      reads this, all
      requires Numbered(made, all)
      ensures |vs| == |made| && forall i | 0 <= i < |made| :: vs[i] == made[i].value
    {
      seq(|made|, i requires 0 <= i < |made| && Numbered(made, all) reads this, all => made[i].value)
    }
  }

  lemma CalledThen<V>(s: seq<Slot<V>>, script: seq<seq<Op<V>>>, calls: seq<(Key, V)>, visits: seq<int>, n: nat)
    requires Runs(s, script, calls, visits) && n < |calls|
    ensures var t, q := After(s, script, |calls|), visits[n];
      && 0 <= q < |t| && calls[n].0 == t[q].key && (q < |s| ==> s[q].live)
      && ((forall ops | ops in script :: NoSet(ops)) ==> calls[n].1 == t[q].value)
  {
    assert Called(s, script, calls, visits, n);
    AfterLater(s, script, 0, n);
    AfterLater(s, script, n, |calls|);
  }

  // Where a lookup ends is where it ends among the slots.
  lemma FindsWhere<V>(made: seq<Entry<V>>, live: seq<bool>, s: seq<Slot<V>>, k: Key, p: int)
    requires |made| == |live| == |s| && Finds(made, live, k, p)
    requires forall i | 0 <= i < |s| :: s[i].key == made[i].key && s[i].live == live[i]
    ensures -1 <= p < |s| && Where(s, k) == p
  {
    WhereIs(s, k, p);
  }

  /** An iterator over a map that may change between two calls of next. */
  class Cursor<V> {
    const state: LinkedMap<V>
    var target: bool
    var last: Entry?<V>
    ghost var visits: seq<int>

    ghost predicate Valid()
      reads this, state, state.all
    {
      && state.Valid() && Covers(visits, state.links.live)
      && last == if target then Ref(state.made, Latest(visits)) else null
    }

    constructor (m: LinkedMap<V>)
      requires m.Valid()
      ensures Valid() && state == m && target && visits == []
    {
      state, target, last, visits := m, true, null, [];
    }

    // next: an entry newer than those before and still in the map, or none when no other is left,
    // and then none for ever.
    method Next() returns (r: Option<(Key, V)>)
      requires Valid()
      modifies this
      ensures Valid()
      ensures r.Some? ==> var q := Latest(visits);
        && visits == old(visits) + [q] && Latest(old(visits)) < q && state.links.live[q]
        && r == Some((state.made[q].key, state.made[q].value)) && old(target) && target
      ensures r == None ==> visits == old(visits) && !target
      ensures r == None && old(target) ==>
        forall i {:trigger i in visits} | 0 <= i < |state.made| && state.links.live[i] :: i in visits
    {
      hide Indexed, Links.Ok, Count;
      if !target {
        return None;
      }
      ghost var q;
      last, q := state.Advance(last, visits);
      if last != null {
        visits := visits + [q];
        r := Some((last.key, last.value));
      } else {
        target, r := false, None;
      }
    }

    // Whatever is done to the map between two calls.
    method Change(op: Op<V>)
      requires Valid()
      modifies state, state.all
      ensures Valid() && visits == old(visits) && target == old(target)
      ensures state.Slots() == Done(old(state.Slots()), op)
    {
      state.PerformOne(op);
      CoversKept(visits, old(state.links.live), state.links.live);
    }
  }

  // ---------------------------------------------------------------------
  // Keys that are not told apart
  // ---------------------------------------------------------------------

  /**
   Two keys share a place in the index if and only if they are one, or are a number, a bigint or a
   special value with one text.
   */
  lemma IndexShared(a: Key, b: Key)
    requires !a.Frozen?
    ensures IndexOf(a) == IndexOf(b) <==>
      || a == b
      || (&& a.Primitive? && b.Primitive? && !a.value.Str? && !a.value.Sym? && !b.value.Str? && !b.value.Sym?
          && a.value.text == b.value.text)
  {
  }

  /**
   A lookup ends at the entry of just that key, or at none if it has none, if and only if: for a
   frozen object, no primitive it is == to has an entry older than its own; for any other key, no
   other key has an entry in its place of the index.
   */
  lemma LookupIsExact<V>(m: LinkedMap<V>, k: Key, p: int)
    requires m.Valid() && Finds(m.made, m.links.live, k, p)
    ensures (p == if k in m.keyed && m.Holds(k) then m.keyed[k] else -1) <==>
      if k.Frozen? then
        forall i | 0 <= i < |m.made| && m.links.live[i] && LooselyEqual(m.made[i].key, k) ::
          m.made[i].key == k || exists j :: 0 <= j < i && m.links.live[j] && m.made[j].key == k
      else
        forall i | 0 <= i < |m.made| && m.links.live[i] && IndexOf(m.made[i].key) == IndexOf(k) :: m.made[i].key == k
  {
    if k in m.keyed && m.Holds(k) { assert Hits(k, k); }
  }

  // A new map with one entry, under a, looked up for k.
  method SetOneGet(a: Key, v: int, k: Key) returns (r: Option<int>)
    requires Hits(a, k)
    ensures r == Some(v)
  {
    hide Hits, Links.Ok, Indexed, Fields, Numbered, LinkedMap.Listed;
    var m := new LinkedMap<int>();
    ghost var p, q;
    p := m.Put(a, v);
    assert p == 0 && m.made[0].key == a && m.links.live == [true];
    r, q := m.Get(k);
    assert q == 0;
  }

  /** The map never held the frozen object, and yet a lookup of it reads the value of 7. */
  method FrozenReadsPrimitive() returns (r: Option<int>)
    ensures r == Some(1)
  {
    r := SetOneGet(Primitive(Num("7")), 1, Frozen(0, (v: Primitive) => !v.Sym? && (v.text == "7" || v.text == "7.0")));
  }

  /** The map never held the bigint 1n, and yet a lookup of it reads the value of 1. */
  method BigIntReadsNumber() returns (r: Option<int>)
    ensures r == Some(1)
  {
    r := SetOneGet(Primitive(Num("1")), 1, Primitive(Big("1")));
  }

  ghost predicate NoSet<V>(ops: seq<Op<V>>) {
    forall op | op in ops :: !op.Set?
  }

  // Entries are never revived: what is live among the first |before| was live then.
  ghost predicate Shrinks(before: seq<bool>, after: seq<bool>) {
    |before| <= |after| && forall i | 0 <= i < |before| && after[i] :: before[i]
  }

  ghost function Latest(visits: seq<int>): int {
    if |visits| == 0 then -1 else visits[|visits| - 1]
  }

  // The visits so far: each newer than the one before, and none passed over that is live.
  ghost predicate Covers(visits: seq<int>, live: seq<bool>) {
    && (forall m, n | 0 <= m < n < |visits| :: visits[m] < visits[n])
    && (forall n | 0 <= n < |visits| :: 0 <= visits[n] < |live|)
    && (forall i {:trigger i in visits} | 0 <= i <= Latest(visits) && live[i] :: i in visits)
  }

  lemma CoversKept(visits: seq<int>, before: seq<bool>, after: seq<bool>)
    requires Covers(visits, before) && Shrinks(before, after)
    ensures Covers(visits, after)
  {
  }

  lemma CoversMore(visits: seq<int>, live: seq<bool>, q: int)
    requires Covers(visits, live) && Latest(visits) < q < |live|
    requires forall i | Latest(visits) < i < q && 0 <= i :: !live[i]
    ensures Covers(visits + [q], live)
  {
    var vs := visits + [q];
    forall m, n | 0 <= m < n < |vs|
      ensures vs[m] < vs[n]
    {
      if n == |visits| && m < |visits| - 1 { assert visits[m] < visits[|visits| - 1]; }
    }
    forall i {:trigger i in vs} | 0 <= i <= q && live[i]
      ensures i in vs
    {
      if i <= Latest(visits) { assert i in visits; } else { assert vs[|visits|] == i; }
    }
  }

  lemma CoversNext(visits: seq<int>, l: Links, p: int)
    requires l.Ok() && Covers(visits, l.live)
    requires -1 <= p <= Latest(visits) && (p == -1 || l.live[p]) && l.Gap(p, Latest(visits) + 1)
    ensures |l.next| == |l.live|
    ensures var q := if p == -1 then l.head else l.next[p];
      l.Gap(Latest(visits), if q == -1 then |l.live| else q)
    ensures var q := if p == -1 then l.head else l.next[p];
      if q == -1
        then forall i {:trigger i in visits} | 0 <= i < |l.live| && l.live[i] :: i in visits
        else Latest(visits) < q < |l.live| && l.live[q] && Covers(visits + [q], l.live)
  {
    var q, latest := if p == -1 then l.head else l.next[p], Latest(visits);
    NextIs(l, p);
    hide Links.Ok, Latest;
    if q == -1 {
      forall i {:trigger i in visits} | 0 <= i < |l.live| && l.live[i]
        ensures i in visits
      {
        assert i <= p <= latest;
      }
    } else {
      assert latest < q by { assert l.live[q]; }
      CoversMore(visits, l.live, q);
    }
  }

  // What comes after the live entry p, or first of all.
  lemma NextIs(l: Links, p: int)
    requires l.Ok() && -1 <= p < |l.live| && (p == -1 || l.live[p])
    ensures |l.next| == |l.live|
    ensures var q := if p == -1 then l.head else l.next[p];
      if q == -1 then l.Gap(p, |l.live|) else p < q < |l.live| && l.live[q] && l.Gap(p, q)
  {
  }

  ghost function Ref<V>(made: seq<Entry<V>>, i: int): Entry?<V> {
    if 0 <= i < |made| then made[i] else null
  }

  ghost predicate Numbered<V>(made: seq<Entry<V>>, all: set<Entry<V>>) {
    forall i {:trigger made[i]} | 0 <= i < |made| :: made[i] in all && made[i].stamp == i
  }

  // The fields of the entries hold what the value says.
  ghost predicate Fields<V>(made: seq<Entry<V>>, all: set<Entry<V>>, l: Links)
    requires Numbered(made, all) && l.Bounded(|made|)
    reads all
  {
    && (forall i {:trigger made[i].previous} | 0 <= i < |made| :: made[i].previous == Ref(made, l.prev[i]))
    && (forall i {:trigger made[i].next} | 0 <= i < |made| && l.live[i] :: made[i].next == Ref(made, l.next[i]))
    && (forall i {:trigger made[i].removed} | 0 <= i < |made| :: made[i].removed == !l.live[i])
  }

  // The index: every live entry but those of frozen objects, under the index of its key.
  ghost predicate Indexed<V>(made: seq<Entry<V>>, live: seq<bool>, index: map<Index, Entry<V>>, keyed: map<Key, int>)
    requires |made| == |live|
  {
    && (forall i | 0 <= i < |made| && live[i] ::
          && made[i].key in keyed && keyed[made[i].key] == i
          && (!made[i].key.Frozen? ==>
              IndexOf(made[i].key).value in index && index[IndexOf(made[i].key).value] == made[i]))
    && (forall x | x in index ::
          && IndexOf(index[x].key) == Some(x)
          && index[x].stamp < |made| && made[index[x].stamp] == index[x] && live[index[x].stamp])
  }
}
