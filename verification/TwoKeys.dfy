/**
 A map of two keys of one hash whose root is their collision node, its way there from the empty map,
 and a session that leaks from it.
 */
module TwoKeys {
  import opened Wrappers
  import opened HashTrie
  import P = PersistentMap
  import opened Sessions

  function TwoEntries(h: Hash, v: int): Node<int> {
    Collision(h, [Entry(Key(1, h), v), Entry(Key(2, h), 2)])
  }

  lemma TwoValid(h: Hash, v: int)
    ensures Shaped(TwoEntries(h, v), [])
    ensures var m := P.Map(2, Some(TwoEntries(h, v)));
      P.Valid(m) && P.Contents(m) == map[Key(1, h) := v, Key(2, h) := 2]
  {
    var m, c := P.Map(2, Some(TwoEntries(h, v))), map[Key(1, h) := v, Key(2, h) := 2];
    assert P.Valid(m);
    hide P.Contents, P.GetFrom;
    forall k
      ensures k in P.Contents(m) <==> k in c
      ensures k in c ==> P.Contents(m)[k] == c[k]
    {
      P.GetRefines(m, k);
      GetOfTwo(h, v, k);
    }
  }

  lemma GetOfTwo(h: Hash, v: int, k: Key)
    ensures var m := P.Map(2, Some(TwoEntries(h, v)));
      P.Valid(m) && P.GetFrom(m, k) == if k == Key(1, h) then Some(v) else if k == Key(2, h) then Some(2) else None
  {
    var es := TwoEntries(h, v).entries;
    assert es[1..] == [es[1]] && [es[1]][1..] == [];
  }

  // The keys 2, 1, 3, 4, and so on up to n, all of one hash, each with its number as value.
  function Row(h: Hash, n: nat): seq<Entry<int>> {
    seq(n, (i: int) => var id := if i == 0 then 2 else if i == 1 then 1 else i + 1; Entry(Key(id, h), id))
  }

  // Nine keys of one hash are set, and seven of them removed again, the last one first.
  function Sets(h: Hash, n: nat): seq<P.Op<int>> {
    if n == 0 then [] else Sets(h, n - 1) + [P.Set(Row(h, n)[n - 1].key, Row(h, n)[n - 1].value)]
  }

  function NineThenTwo(h: Hash, n: nat): seq<P.Op<int>>
    requires 2 <= n <= 9
    decreases 9 - n
  {
    if n == 9 then Sets(h, 9) else NineThenTwo(h, n + 1) + [P.Remove(Row(h, n + 1)[n].key)]
  }

  lemma RunMore(ops: seq<P.Op<int>>, op: P.Op<int>)
    ensures P.RunFrom(P.Map(0, None), ops + [op]) == P.Step(P.RunFrom(P.Map(0, None), ops), op)
  {
    assert (ops + [op])[..|ops + [op]| - 1] == ops;
  }

  lemma RowLast(h: Hash, n: nat)
    requires n > 0
    ensures Row(h, n) == Row(h, n - 1) + [Row(h, n)[n - 1]]
    ensures FindEntry(Row(h, n - 1), Row(h, n)[n - 1].key) == n - 1
  {
    var r, k := Row(h, n - 1), Row(h, n)[n - 1].key;
    assert forall i | 0 <= i < |r| :: r[i].key != k;
  }

  lemma {:induction false} ArrayReached(h: Hash, n: nat)
    requires 1 <= n <= 8
    ensures P.RunFrom(P.Map(0, None), Sets(h, n)) == P.Map(n, Some(ArrayMap(Row(h, n))))
    decreases n
  {
    hide P.RunFrom, P.UpdateMap;
    var e := Row(h, n)[n - 1];
    RunMore(Sets(h, n - 1), P.Set(e.key, e.value));
    if n == 1 {
      FirstEntry(h);
    } else {
      ArrayReached(h, n - 1);
      RowValid(h, n - 1);
      OneMoreEntry(h, n);
    }
  }

  lemma FirstEntry(h: Hash)
    ensures P.RunFrom<int>(P.Map(0, None), []) == P.Map(0, None)
    ensures var e := Row(h, 1)[0];
      P.UpdateMap(P.Map(0, None), e.key, Some(e.value)) == P.Map(1, Some(ArrayMap(Row(h, 1))))
  {
    assert Row(h, 1) == [Row(h, 1)[0]];
  }

  lemma RowValid(h: Hash, n: nat)
    requires 1 <= n <= 8
    ensures P.Valid(P.Map(n, Some(ArrayMap(Row(h, n)))))
  {
  }

  lemma OneMoreEntry(h: Hash, n: nat)
    requires 2 <= n <= 8 && P.Valid(P.Map(n - 1, Some(ArrayMap(Row(h, n - 1)))))
    ensures var e := Row(h, n)[n - 1];
      P.UpdateMap(P.Map(n - 1, Some(ArrayMap(Row(h, n - 1)))), e.key, Some(e.value)) ==
        P.Map(n, Some(ArrayMap(Row(h, n))))
  {
    hide P.Valid;
    RowLast(h, n);
  }

  // The node that ce has after the first j entries of one hash.
  function Moved(h: Hash, e: Entry<int>, es: seq<Entry<int>>, j: nat): Node<int>
    requires j <= |es|
  {
    if j == 0 then Leaf(h, e) else Collision(h, [e] + es[..j])
  }

  ghost predicate OfOneHash(h: Hash, e: Entry<int>, es: seq<Entry<int>>) {
    e.key.hash == h && (forall i | 0 <= i < |es| :: es[i].key.hash == h) && Distinct([e] + es)
  }

  lemma MovedShaped(h: Hash, e: Entry<int>, es: seq<Entry<int>>, j: nat)
    requires j <= |es| && OfOneHash(h, e, es)
    ensures Shaped(Moved(h, e, es, j), [])
  {
    var all := [e] + es;
    assert forall i | 0 <= i <= j :: ([e] + es[..j])[i] == all[i];
  }

  lemma OneMoved(h: Hash, e: Entry<int>, es: seq<Entry<int>>, j: nat)
    requires j < |es| && OfOneHash(h, e, es) && Shaped(Moved(h, e, es, j), [])
    ensures Update(Moved(h, e, es, j), 0, es[j].key, Some(es[j].value)).node == Some(Moved(h, e, es, j + 1))
  {
    hide Shaped, Pairs;
    var all, some, next := [e] + es, [e] + es[..j], es[j];
    assert next == all[j + 1] && forall i | 0 <= i <= j :: some[i] == all[i];
    NotAmong(some, next.key);
    assert [e] + es[..j + 1] == some + [next];
    assert j == 0 ==> [e] + es[..1] == [e, next];
  }

  // ce on entries of one hash: they all go into one collision node, behind the new one.
  lemma {:induction false} MoveCollides(h: Hash, e: Entry<int>, es: seq<Entry<int>>, j: nat)
    requires j <= |es| && OfOneHash(h, e, es)
    ensures Shaped(Moved(h, e, es, j), [])
      && P.Move(Moved(h, e, es, j), es[j..]) == Moved(h, e, es, |es|)
    decreases |es| - j
  {
    hide Shaped, Update, Moved, OfOneHash;
    MovedShaped(h, e, es, j);
    if j == |es| {
      assert es[j..] == [];
    } else {
      assert es[j..][0] == es[j] && es[j..][1..] == es[j + 1..];
      OneMoved(h, e, es, j);
      MoveCollides(h, e, es, j + 1);
    }
  }

  lemma NotAmong(es: seq<Entry<int>>, k: Key)
    requires forall i | 0 <= i < |es| :: es[i].key != k
    ensures FindEntry(es, k) == |es|
  {
  }

  // The map of the last two is a collision node and nothing else.
  lemma {:induction false} CollisionReached(h: Hash, n: nat)
    requires 2 <= n <= 9
    ensures P.RunFrom(P.Map(0, None), NineThenTwo(h, n)) ==
      P.Map(n, Some(Collision(h, [Row(h, n)[n - 1]] + Row(h, n - 1))))
    decreases 9 - n
  {
    if n == 9 {
      NinthReached(h);
    } else {
      var op := P.Remove(Row(h, n + 1)[n].key);
      RunMore(NineThenTwo(h, n + 1), op);
      CollisionReached(h, n + 1);
      FirstRemoved(h, n);
    }
  }

  lemma NinthReached(h: Hash)
    ensures P.RunFrom(P.Map(0, None), Sets(h, 9)) == P.Map(9, Some(Collision(h, [Row(h, 9)[8]] + Row(h, 8))))
  {
    var e, es := Row(h, 9)[8], Row(h, 8);
    RunMore(Sets(h, 8), P.Set(e.key, e.value));
    ArrayReached(h, 8);
    RowLast(h, 9);
    MoveCollides(h, e, es, 0);
    assert es[0..] == es && es[..8] == es;
    assert P.Create(es, e) == Collision(h, [e] + es);
  }

  // The entry in front goes, and the last one takes its place.
  lemma FirstRemoved(h: Hash, n: nat)
    requires 2 <= n <= 8
    ensures var m := P.Map(n + 1, Some(Collision(h, [Row(h, n + 1)[n]] + Row(h, n))));
      P.Valid(m) && P.UpdateMap(m, Row(h, n + 1)[n].key, None) ==
        P.Map(n, Some(Collision(h, [Row(h, n)[n - 1]] + Row(h, n - 1))))
  {
    var e, es := Row(h, n + 1)[n], [Row(h, n + 1)[n]] + Row(h, n);
    var t := Collision(h, es);
    assert P.Valid(P.Map(n + 1, Some(t)));
    FrontRemoved(h, es);
    LastInFront(h, n);
  }

  lemma LastInFront(h: Hash, n: nat)
    requires 2 <= n <= 8
    ensures RemoveAt([Row(h, n + 1)[n]] + Row(h, n), 0) == [Row(h, n)[n - 1]] + Row(h, n - 1)
  {
  }

  lemma FrontRemoved(h: Hash, es: seq<Entry<int>>)
    requires |es| > 2 && Shaped(Collision(h, es), [])
    ensures Update(Collision(h, es), 0, es[0].key, None).node == Some(Collision(h, RemoveAt(es, 0)))
  {
  }

  /** Setting nine keys and removing seven of them leads from the empty map to the map of the two entries. */
  lemma TwoReached(h: Hash)
    ensures P.RunFrom(P.Map(0, None), NineThenTwo(h, 2)) == P.Map(2, Some(TwoEntries(h, 1)))
  {
    CollisionReached(h, 2);
    assert [Row(h, 2)[1]] + Row(h, 1) == TwoEntries(h, 1).entries;
  }

  // With these entries remove(k2) and then set(k1, 9) is a leak, at the second update.
  lemma TwoLeak(h: Hash)
    ensures var m, ops := P.Map(2, Some(TwoEntries(h, 1))), [P.Remove(Key(2, h)), P.Set(Key(1, h), 9)];
      P.Valid(m) && Leaks(m, ops) && FirstLeak(P.Contents(m), Start(m), {}, ops) == 1
  {
    var m := P.Map(2, Some(TwoEntries(h, 1)));
    TwoValid(h, 1);
    assert MatesIn(P.Contents(m), Key(2, h)) == {Key(1, h)};
    RemoveThenSetLeaks(m, Key(2, h), Key(1, h), 9);
  }
}
