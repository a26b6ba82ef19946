/**
 The list of chunks of module 57327, from which a stream is read in pieces of any size.
 */
module BufferList {

  // A byte of a buffer or a unit of a string.
  type Unit = int

  function Flat(cs: seq<seq<Unit>>): seq<Unit> {
    if |cs| == 0 then [] else cs[0] + Flat(cs[1..])
  }

  // What consume takes of the chunks, and the chunks it leaves.
  function Consumed(cs: seq<seq<Unit>>, n: nat): (seq<Unit>, seq<seq<Unit>>) {
    if |cs| == 0 then ([], [])
    else if n < |cs[0]| then (cs[0][..n], [cs[0][n..]] + cs[1..])
    else if n == |cs[0]| then (cs[0], cs[1..])
    else
      var (r, rest) := Consumed(cs[1..], n - |cs[0]|);
      (cs[0] + r, rest)
  }

  /** What is taken is the first n units, and what is left is the rest. */
  lemma {:induction false} ConsumedConserves(cs: seq<seq<Unit>>, n: nat)
    requires n <= |Flat(cs)|
    ensures var (r, rest) := Consumed(cs, n); r == Flat(cs)[..n] && Flat(rest) == Flat(cs)[n..]
    decreases |cs|
  {
    if |cs| > 0 {
      if n < |cs[0]| {
        assert ([cs[0][n..]] + cs[1..])[1..] == cs[1..];
      } else if n > |cs[0]| {
        ConsumedConserves(cs[1..], n - |cs[0]|);
      }
    }
  }

  class Node {
    var data: seq<Unit>
    var next: Node?

    constructor (data: seq<Unit>, next: Node?)
      ensures this.data == data && this.next == next
    {
      this.data, this.next := data, next;
    }
  }

  class BufferList {
    var head: Node?
    var tail: Node?
    var length: int
    ghost var nodes: seq<Node>

    ghost predicate Valid()
      reads this, nodes
    {
      length == |nodes| && Linked()
    }

    ghost predicate Linked()
      reads `head, `tail, `nodes, nodes
    {
      && head == (if |nodes| == 0 then null else nodes[0])
      && tail == (if |nodes| == 0 then null else nodes[|nodes| - 1])
      && (forall i {:trigger nodes[i].next} | 0 <= i < |nodes| ::
            nodes[i].next == if i + 1 < |nodes| then nodes[i + 1] else null)
      && (forall i, j | 0 <= i < j < |nodes| :: nodes[i] != nodes[j])
    }

    ghost function Chunks(): (cs: seq<seq<Unit>>)
      reads this, nodes
      ensures |cs| == |nodes| && forall i | 0 <= i < |nodes| :: cs[i] == nodes[i].data
    {
      seq(|nodes|, i requires 0 <= i < |nodes| reads this, nodes => nodes[i].data)
    }

    constructor ()
      ensures Valid() && nodes == []
    {
      head, tail, length, nodes := null, null, 0, [];
    }

    method Push(data: seq<Unit>)
      requires Valid()
      modifies this, nodes
      ensures Valid() && Chunks() == old(Chunks()) + [data]
      ensures |nodes| == |old(nodes)| + 1 && fresh(nodes[|old(nodes)|]) && nodes[..|old(nodes)|] == old(nodes)
    {
      var e := new Node(data, null);
      if length > 0 { tail.next := e; } else { head := e; }
      tail := e;
      length := length + 1;
      nodes := nodes + [e];
    }

    method Unshift(data: seq<Unit>)
      requires Valid()
      modifies this
      ensures Valid() && Chunks() == [data] + old(Chunks())
      ensures |nodes| == |old(nodes)| + 1 && fresh(nodes[0]) && nodes[1..] == old(nodes)
    {
      var e := new Node(data, head);
      if length == 0 { tail := e; }
      head := e;
      length := length + 1;
      nodes := [e] + nodes;
    }

    // shift of a list that is not empty
    method Shift() returns (data: seq<Unit>)
      requires Valid() && |nodes| > 0
      modifies this
      ensures Valid() && nodes == old(nodes[1..]) && data == old(Chunks())[0] && Chunks() == old(Chunks())[1..]
    {
      data := head.data;
      if length == 1 { head, tail := null, null; } else { head := head.next; }
      length := length - 1;
      nodes := nodes[1..];
    }

    // After taking n units: either they were there, and are gone; or not, and the list is as it was
    // but for its length.
    twostate predicate Took(r: seq<Unit>, n: nat)
      reads this, nodes
    {
      if n <= |Flat(old(Chunks()))| then
        && Valid() && (r, Chunks()) == Consumed(old(Chunks()), n)
        && exists k :: 0 <= k <= |old(nodes)| && nodes == old(nodes)[k..]
      else
        Linked() && nodes == old(nodes) && Chunks() == old(Chunks()) && length == 0
    }

    /**
     consume: on a list that is not empty. head, tail and length fit what is left if and only if the
     list had n units.
     */
    method Consume(n: nat, hasStrings: bool) returns (r: seq<Unit>)
      requires Valid() && |nodes| > 0
      modifies this, nodes
      ensures Took(r, n)
      ensures n > |Flat(old(Chunks()))| ==>
        Flat(old(Chunks())) <= r && |r| == if hasStrings then |Flat(old(Chunks()))| else n
      ensures Valid() <==> n <= |Flat(old(Chunks()))|
    {
      FirstOfFlat(Chunks());
      if n < |head.data| {
        r := head.data[..n];
        head.data := head.data[n..];
        assert Chunks() == [old(Chunks())[0][n..]] + old(Chunks())[1..];
        assert nodes == old(nodes)[0..];
      } else if n == |head.data| {
        r := Shift();
      } else if hasStrings {
        r := GetString(n);
      } else {
        r := GetBuffer(n);
      }
    }

    lemma FirstOfFlat(cs: seq<seq<Unit>>)
      requires |cs| > 0
      ensures |cs[0]| <= |Flat(cs)|
    {
    }

    // In the loops of _getString and _getBuffer: j nodes are taken, p is the next one, and m units
    // are still to take.
    ghost predicate Taking(p: Node?, j: nat, m: int, n: nat, r: seq<Unit>, cs: seq<seq<Unit>>)
      reads this, nodes
    {
      && Linked() && length == |nodes| && Chunks() == cs && 0 < j <= |cs| && m > 0
      && p == (if j < |nodes| then nodes[j] else null)
      && n - m == |r| && r == Flat(cs[..j]) && Consumed(cs, n) == (r + Consumed(cs[j..], m).0, Consumed(cs[j..], m).1)
    }

    // The last node taken from is used up.
    method LeaveAfter(p: Node, ghost j: nat, ghost cs: seq<seq<Unit>>)
      requires Linked() && Chunks() == cs && j < |nodes| && p == nodes[j]
      modifies this`head, this`tail, this`nodes
      ensures Linked() && nodes == old(nodes)[j + 1..] && Chunks() == cs[j + 1..]
    {
      if p.next != null { head := p.next; } else { head, tail := null, null; }
      nodes := nodes[j + 1..];
    }

    // The last node taken from keeps what is after nb units.
    method LeaveAt(p: Node, nb: nat, ghost j: nat, ghost cs: seq<seq<Unit>>)
      requires Linked() && Chunks() == cs && j < |nodes| && p == nodes[j] && nb <= |p.data|
      modifies this`head, this`nodes, p`data
      ensures Linked() && nodes == old(nodes)[j..] && Chunks() == [cs[j][nb..]] + cs[j + 1..]
    {
      head := p;
      p.data := p.data[nb..];
      nodes := nodes[j..];
    }

    // One round of either loop, on the next node.
    method TakeFrom(p: Node, m: nat, ghost j: nat, ghost n: nat, ghost r: seq<Unit>, ghost cs: seq<seq<Unit>>)
      returns (piece: seq<Unit>, done: bool, whole: bool)
      requires Taking(p, j, m, n, r, cs)
      modifies this`head, this`tail, this`nodes, nodes
      ensures done == (m <= |cs[j]|) && whole == (m >= |cs[j]|) && piece == (if whole then cs[j] else cs[j][..m])
      ensures if done then
          && Linked() && (r + piece, Chunks()) == Consumed(cs, n) && n <= |Flat(cs)|
          && nodes == old(nodes)[if whole then j + 1 else j..]
        else
          nodes == old(nodes) && p.next == old(p.next) && Taking(p.next, j + 1, m - |cs[j]|, n, r + piece, cs)
    {
      Steps(cs, j, m, r);
      var nb := if m > |p.data| then |p.data| else m;
      whole := nb == |p.data|;
      piece := if whole then p.data else p.data[..m];
      done := m - nb == 0;
      if done {
        if whole { LeaveAfter(p, j, cs); } else { LeaveAt(p, nb, j, cs); }
      }
    }

    // Either loop after its break, with c nodes used up.
    ghost predicate Finished(c: int, n: nat, r: seq<Unit>, cs: seq<seq<Unit>>)
      reads this, nodes
    {
      Linked() && length - c == |nodes| && (r, Chunks()) == Consumed(cs, n) && n <= |Flat(cs)|
    }

    method Round(p: Node, m: nat, c: nat, ghost n: nat, ghost r: seq<Unit>, ghost cs: seq<seq<Unit>>)
      returns (piece: seq<Unit>, q: Node?, l: nat, d: nat, done: bool, ghost k: nat)
      requires Taking(p, c, m, n, r, cs)
      modifies this`head, this`tail, this`nodes, nodes
      ensures |piece| <= m && l == m - |piece| && k <= |old(nodes)| && nodes == old(nodes)[k..]
      ensures if done then l == 0 && Finished(d, n, r + piece, cs)
        else k == 0 && d == c + 1 <= |nodes| && Taking(q, d, l, n, r + piece, cs)
    {
      hide Flat, Consumed, Linked, Taking;
      Going(p, c, m, n, r, cs);
      var whole;
      piece, done, whole := TakeFrom(p, m, c, n, r, cs);
      l := m - |piece|;
      d, q, k := c, null, 0;
      if done {
        k := if whole then c + 1 else c;
        if whole { d := d + 1; }
      } else {
        d := d + 1;
        q := p.next;
      }
    }

    lemma Steps(cs: seq<seq<Unit>>, j: nat, m: nat, r: seq<Unit>)
      requires j < |cs| && m > 0 && r == Flat(cs[..j])
      ensures var (t, rest) := Consumed(cs[j..], m);
        if m < |cs[j]| then t == cs[j][..m] && rest == [cs[j][m..]] + cs[j + 1..]
        else if m == |cs[j]| then t == cs[j] && rest == cs[j + 1..]
        else
          && t == cs[j] + Consumed(cs[j + 1..], m - |cs[j]|).0 && rest == Consumed(cs[j + 1..], m - |cs[j]|).1
          && r + t == r + cs[j] + Consumed(cs[j + 1..], m - |cs[j]|).0
      ensures r + cs[j] == Flat(cs[..j + 1]) && |Flat(cs)| >= |r| + |cs[j]|
    {
      assert cs[j..][1..] == cs[j + 1..];
      FlatMore(cs[..j], cs[j]);
      assert cs[..j] + [cs[j]] == cs[..j + 1];
      FlatJoin(cs[..j + 1], cs[j + 1..]);
      assert cs[..j + 1] + cs[j + 1..] == cs;
    }

    // _getString
    method GetString(n: nat) returns (r: seq<Unit>)
      requires Valid() && |nodes| > 0 && |nodes[0].data| < n
      modifies this, nodes
      ensures Took(r, n) && (n > |Flat(old(Chunks()))| ==> r == Flat(old(Chunks())))
    {
      hide Flat, Consumed, Linked, Taking, Finished;
      Began(n);
      ghost var cs := Chunks();
      ghost var k: nat := 0;
      var p := head.next;
      var c: nat := 1;
      r := head.data;
      var m: nat := n - |r|;
      var done := false;
      assert nodes == old(nodes)[0..];
      while p != null && !done
        invariant length == |old(nodes)| && k <= |old(nodes)| && nodes == old(nodes)[k..]
        invariant if done then Finished(c, n, r, cs) else k == 0 && c <= |nodes| && Taking(p, c, m, n, r, cs)
        decreases !done, |old(nodes)| - c
      {
        var piece;
        piece, p, m, c, done, k := Round(p, m, c, n, r, cs);
        r := r + piece;
      }
      Close(p, c, m, n, r, cs, done);
    }

    // _getBuffer
    method GetBuffer(n: nat) returns (r: seq<Unit>)
      requires Valid() && |nodes| > 0 && |nodes[0].data| < n
      modifies this, nodes
      ensures Took(r, n) && |r| == n && (n > |Flat(old(Chunks()))| ==> Flat(old(Chunks())) <= r)
    {
      hide Flat, Consumed, Linked, Taking, Finished;
      ghost var cs := Chunks();
      var c, m, done;
      ghost var k, got;
      r, c, m, done, k, got := FillBuffer(n);
      assert r[..n - m] == got && (m == 0 ==> r == got);
      Close(null, c, m, n, got, cs, done);
    }

    // The loop of _getBuffer.
    method FillBuffer(n: nat) returns (r: seq<Unit>, c: nat, m: nat, done: bool, ghost k: nat, ghost got: seq<Unit>)
      requires Valid() && |nodes| > 0 && |nodes[0].data| < n
      modifies this`head, this`tail, this`nodes, nodes
      ensures m <= n == |r| && r[..n - m] == got && (done ==> m == 0)
      ensures k <= |old(nodes)| && nodes == old(nodes)[k..]
      ensures if done then Finished(c, n, got, old(Chunks())) else k == 0 && Taking(null, c, m, n, got, old(Chunks()))
    {
      hide Flat, Consumed, Linked, Taking, Finished;
      Began(n);
      ghost var cs := Chunks();
      k, c, m, done, got := 0, 1, n - |head.data|, false, head.data;
      var e := new Unit[n];
      var p := head.next;
      Copy(e, 0, head.data);
      assert nodes == old(nodes)[0..] && e[..n - m] == got;
      while p != null && !done
        invariant m <= n && fresh(e) && e.Length == n && e[..n - m] == got && (done ==> m == 0)
        invariant k <= |old(nodes)| && nodes == old(nodes)[k..]
        invariant if done then Finished(c, n, got, cs) else k == 0 && c <= |nodes| && Taking(p, c, m, n, got, cs)
        decreases !done, |old(nodes)| - c
      {
        p, m, c, done, k, got := FillRound(e, p, m, c, n, got, cs);
      }
      r := e[..];
    }

    // Its body.
    method FillRound(e: array<Unit>, p: Node, m: nat, c: nat, n: nat, ghost got: seq<Unit>, ghost cs: seq<seq<Unit>>)
      returns (q: Node?, l: nat, d: nat, done: bool, ghost k: nat, ghost more: seq<Unit>)
      requires Taking(p, c, m, n, got, cs) && m <= n == e.Length && e[..n - m] == got
      modifies this`head, this`tail, this`nodes, nodes, e
      ensures l <= n && e[..n - l] == more && k <= |old(nodes)| && nodes == old(nodes)[k..]
      ensures if done then l == 0 && Finished(d, n, more, cs)
        else k == 0 && d == c + 1 <= |nodes| && Taking(q, d, l, n, more, cs)
    {
      hide Flat, Consumed, Linked, Taking, Finished;
      var piece;
      piece, q, l, d, done, k := Round(p, m, c, n, got, cs);
      more := got + piece;
      Copy(e, n - m, piece);
    }

    // The end of either method.
    method Close(ghost p: Node?, c: nat, ghost m: nat, ghost n: nat, ghost r: seq<Unit>, ghost cs: seq<seq<Unit>>,
                 ghost done: bool)
      requires if done then Finished(c, n, r, cs) else p == null && Taking(p, c, m, n, r, cs)
      modifies this`length
      ensures if done then Valid() && (r, Chunks()) == Consumed(cs, n) && n <= |Flat(cs)|
        else Linked() && length == 0 && Chunks() == cs && n > |Flat(cs)| && r == Flat(cs)
    {
      hide Flat, Consumed;
      if !done { assert cs[..c] == cs && cs[c..] == []; }
      Exhausted(p, c, m, n, r, cs, done);
      ghost var left := Chunks();
      length := length - c;
      assert Chunks() == left;
    }

    lemma Exhausted(p: Node?, c: nat, m: nat, n: nat, r: seq<Unit>, cs: seq<seq<Unit>>, done: bool)
      requires if done then true else p == null && Taking(p, c, m, n, r, cs)
      ensures !done ==> n > |Flat(cs)| && r == Flat(cs) && c == length
    {
      if !done { assert cs[..c] == cs; }
    }

    lemma Going(p: Node, c: nat, m: int, n: nat, r: seq<Unit>, cs: seq<seq<Unit>>)
      requires Taking(p, c, m, n, r, cs)
      ensures length == |nodes| == |cs| && 0 < c < |nodes| && p == nodes[c] && 0 < m == n - |r|
    {
    }

    lemma Began(n: nat)
      requires Valid() && |nodes| > 0 && |nodes[0].data| < n
      ensures head != null && head == nodes[0] && Taking(head.next, 1, n - |head.data|, n, head.data, Chunks())
    {
      var cs := Chunks();
      assert cs[..1] == [cs[0]] && [cs[0]][1..] == [];
      assert Flat([]) == [] && Flat([cs[0]]) == cs[0];
    }
  }

  // data.copy(e, at)
  method Copy(e: array<Unit>, at: nat, data: seq<Unit>)
    requires at + |data| <= e.Length
    modifies e
    ensures e[..at + |data|] == old(e[..at]) + data
  {
    var n := 0;
    while n < |data|
      invariant n <= |data| && e[..at + n] == old(e[..at]) + data[..n]
    {
      e[at + n] := data[n];
      n := n + 1;
    }
    assert data[..n] == data;
  }

  /** Three units out of a list of two: consume returns both, and the list still holds both with a length of 0. */
  method ConsumeTooMuch() returns (r: seq<Unit>, length: int, left: seq<Unit>)
    ensures r == [7, 8] && length == 0 && left == [7, 8]
  {
    var list := new BufferList();
    list.Push([7, 8]);
    assert list.Chunks() == [] + [[7, 8]] == [[7, 8]] && |list.nodes| == 1;
    FlatMore([], [7, 8]);
    assert Flat([]) == [] && [] + [[7, 8]] == [[7, 8]];
    r := list.Consume(3, true);
    length, left := list.length, list.head.data;
    assert left == list.Chunks()[0];
  }

  lemma FlatMore(cs: seq<seq<Unit>>, c: seq<Unit>)
    ensures Flat(cs + [c]) == Flat(cs) + c
  {
    FlatJoin(cs, [c]);
    assert [c][1..] == [];
    assert Flat([]) == [];
  }

  lemma {:induction false} FlatJoin(a: seq<seq<Unit>>, b: seq<seq<Unit>>)
    ensures Flat(a + b) == Flat(a) + Flat(b)
    decreases |a|
  {
    if |a| == 0 {
      assert a + b == b;
    } else {
      FlatJoin(a[1..], b);
      assert (a + b)[1..] == a[1..] + b && (a + b)[0] == a[0];
    }
  }
}
