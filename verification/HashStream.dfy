/**
 The block hash of module 24189: bytes arrive in any pieces, _update sees them in whole blocks,
 and digest adds the padding of sections 5.1 and 5.2 of FIPS 180-4. _update itself stays abstract.
 */
module HashStream {
  import opened Wrappers

  function Flat(blocks: seq<seq<Byte>>): seq<Byte> {
    if |blocks| == 0 then [] else Flat(blocks[..|blocks| - 1]) + blocks[|blocks| - 1]
  }

  function Zeros(n: nat): seq<Byte> {
    seq(n, _ => 0)
  }

  // n in width bytes, the most significant first
  function BigEndian(n: nat, width: nat): (r: seq<Byte>)
    ensures |r| == width
  {
    if width == 0 then [] else BigEndian(n / 0x100, width - 1) + [n % 0x100]
  }

  function Power(width: nat): nat {
    if width == 0 then 1 else 0x100 * Power(width - 1)
  }

  function Value(b: seq<Byte>): nat {
    if |b| == 0 then 0 else Value(b[..|b| - 1]) * 0x100 + b[|b| - 1]
  }

  // The field holds the number.
  lemma {:induction false} BigEndianValue(n: nat, width: nat)
    requires n < Power(width)
    ensures Value(BigEndian(n, width)) == n
    decreases width
  {
    if width > 0 {
      var b := BigEndian(n, width);
      assert b[..width - 1] == BigEndian(n / 0x100, width - 1);
      BigEndianValue(n / 0x100, width - 1);
    }
  }

  // The message, a 1 bit, as few 0 bits as reach finalSize in a block, and its length in bits.
  function Padded(m: seq<Byte>, blockSize: nat, finalSize: nat): seq<Byte>
    requires 0 < finalSize < blockSize
  {
    m + [0x80] + Zeros(Gap(|m|, blockSize, finalSize)) + BigEndian(8 * |m|, blockSize - finalSize)
  }

  function Gap(n: nat, blockSize: nat, finalSize: nat): nat
    requires 0 < finalSize < blockSize
  {
    var e := n % blockSize;
    if e < finalSize then finalSize - 1 - e else blockSize + finalSize - 1 - e
  }

  /** The gap is the least that lets the padded message end with a block. */
  lemma GapIsLeast(n: nat, blockSize: nat, finalSize: nat, k: nat)
    requires 0 < finalSize < blockSize
    ensures (n + 1 + Gap(n, blockSize, finalSize)) % blockSize == finalSize
    ensures (n + 1 + k) % blockSize == finalSize ==> k >= Gap(n, blockSize, finalSize)
  {
    var e, g := n % blockSize, Gap(n, blockSize, finalSize);
    ModMore(n, 1 + g, blockSize);
    if k < g { ModMore(n, 1 + k, blockSize); }
  }

  /**
   The padded message of section 5.1 of FIPS 180-4, for a field of at least 64 bits and a message
   below 2^61 bytes: the message, the byte 10000000, zeros up to the field, and in the field, the most
   significant byte first, the length of the message in bits; all of it whole blocks.
   */
  lemma PaddedForm(m: seq<Byte>, blockSize: nat, finalSize: nat)
    requires 0 < finalSize && finalSize + 8 <= blockSize && |m| < 0x2000_0000_0000_0000
    ensures var (p, f) := (Padded(m, blockSize, finalSize), blockSize - finalSize);
      && |m| + 1 + f <= |p| < |m| + 1 + f + blockSize && |p| % blockSize == 0
      && p[..|m|] == m && p[|m|] == 128 && (forall i | |m| < i < |p| - f :: p[i] == 0)
      && Value(p[|p| - f..]) == 8 * |m|
  {
    hide BigEndian, Power, Value;
    var f, g := blockSize - finalSize, Gap(|m|, blockSize, finalSize);
    var field := BigEndian(8 * |m|, f);
    var p := m + [0x80] + Zeros(g) + field;
    assert p[|p| - f..] == field;
    GapIsLeast(|m|, blockSize, finalSize, 0);
    WholeBlocks(|m| + 1 + g, blockSize, finalSize);
    PowerGrows(f);
    BigEndianValue(8 * |m|, f);
  }

  lemma WholeBlocks(n: nat, blockSize: nat, finalSize: nat)
    requires 0 < finalSize < blockSize && n % blockSize == finalSize
    ensures (n + (blockSize - finalSize)) % blockSize == 0
  {
    ModMore(n, blockSize - finalSize, blockSize);
  }

  lemma {:induction false} PowerGrows(w: nat)
    requires w >= 8
    ensures Power(w) >= 0x1_0000_0000_0000_0000
    decreases w
  {
    if w > 8 {
      PowerGrows(w - 1);
    } else {
      PowerFour();
      assert Power(5) == 0x100 * Power(4) && Power(6) == 0x100 * Power(5);
      assert Power(7) == 0x100 * Power(6) && Power(8) == 0x100 * Power(7);
    }
  }

  lemma PowerFour()
    ensures Power(4) == 0x1_0000_0000
  {
    assert Power(1) == 0x100 * Power(0) && Power(2) == 0x100 * Power(1);
    assert Power(3) == 0x100 * Power(2) && Power(4) == 0x100 * Power(3);
  }

  lemma ModMore(n: nat, c: nat, m: nat)
    requires 0 < m && c <= 2 * m
    ensures var s := n % m + c;
      (n + c) % m == if s < m then s else if s < 2 * m then s - m else s - 2 * m
  {
    var q, e := n / m, n % m;
    var s := e + c;
    var t := if s < m then 0 else if s < 2 * m then 1 else 2;
    assert n + c == (q + t) * m + (s - t * m);
    ModIs(q + t, s - t * m, m);
  }

  lemma ModIs(q: nat, r: nat, m: nat)
    requires r < m
    ensures (q * m + r) % m == r && (q * m + r) / m == q
  {
    var n := q * m + r;
    var p, s := n / m, n % m;
    assert n == p * m + s;
    if p < q {
      Multiples(p, q, m);
    } else if q < p {
      Multiples(q, p, m);
    }
  }

  lemma {:induction false} Multiples(a: nat, b: nat, m: nat)
    requires a < b
    ensures a * m + m <= b * m
    decreases b
  {
    assert b * m == (b - 1) * m + m;
    if a < b - 1 { Multiples(a, b - 1, m); }
  }

  // ---------------------------------------------------------------------
  // The class
  // ---------------------------------------------------------------------

  class Hash {
    const block: array<Byte>
    const blockSize: nat
    const finalSize: nat
    var len: nat
    ghost var message: seq<Byte>
    ghost var blocks: seq<seq<Byte>>  // what _update was given

    // One of the family: a block ends in a field that takes a length of 64 bits.
    ghost predicate Sized() {
      block.Length == blockSize && 0 < finalSize && finalSize + 8 <= blockSize
    }

    // All but the last started block of the message went to _update.
    ghost predicate Valid()
      reads this, block
    {
      Sized() && len == |message| && Holds(message)
    }

    ghost predicate Holds(m: seq<Byte>)
      requires Sized()
      reads this, block
    {
      Whole(blocks, blockSize) && Flat(blocks) + block[..|m| % blockSize] == m
    }

    constructor (blockSize: nat, finalSize: nat)
      requires 0 < finalSize && finalSize + 8 <= blockSize
      ensures Valid() && this.blockSize == blockSize && this.finalSize == finalSize && message == []
      ensures fresh(block)
    {
      this.blockSize, this.finalSize, len := blockSize, finalSize, 0;
      block := new Byte[blockSize](_ => 0);
      message, blocks := [], [];
    }

    // _update
    ghost method Compress()
      requires Sized() && Whole(blocks, blockSize)
      modifies this`blocks
      ensures blocks == old(blocks) + [block[..]] && Whole(blocks, blockSize)
      ensures Flat(blocks) == old(Flat(blocks)) + block[..]
    {
      var more := blocks + [block[..]];
      assert more[..|blocks|] == blocks;
      blocks := more;
    }

    // The inner loop of update: t[from..from + c] goes into the block.
    method Copy(t: seq<Byte>, at: nat, from: nat, c: nat)
      requires from + c <= |t| && at + c <= block.Length
      modifies block
      ensures block[..at + c] == old(block[..at]) + t[from..from + c]
    {
      var f := 0;
      while f < c
        invariant f <= c
        invariant block[..at + f] == old(block[..at]) + t[from..from + f]
      {
        block[at + f] := t[from + f];
        f := f + 1;
      }
    }

    // One round of update: what fits into the block that s bytes have started.
    method Absorb(t: seq<Byte>, s: nat, u: nat, ghost m: seq<Byte>) returns (c: nat)
      requires Sized() && u < |t| && s == |m| + u && Holds(m + t[..u])
      modifies block, this`blocks
      ensures 0 < c <= |t| - u && Holds(m + t[..u + c])
    {
      hide Whole;
      hide Flat;
      var a := s % blockSize;
      c := if |t| - u < blockSize - a then |t| - u else blockSize - a;
      ModMore(s, c, blockSize);
      ghost var was := m + t[..u];
      Copy(t, a, u, c);
      assert Flat(blocks) + (old(block[..a]) + t[u..u + c]) == was + t[u..u + c];
      assert m + t[..u + c] == was + t[u..u + c];
      if (s + c) % blockSize == 0 {
        assert block[..a + c] == block[..];
        Compress();
        assert block[..0] == [];
      }
    }

    // update
    method Update(t: seq<Byte>)
      requires Valid()
      modifies this, block
      ensures Valid() && message == old(message) + t
    {
      hide Flat, Whole;
      var s, u := len, 0;
      assert message + t[..0] == message;
      while u < |t|
        invariant u <= |t| && s == len + u && message == old(message) && len == |message|
        invariant Holds(message + t[..u])
      {
        var c := Absorb(t, s, u, message);
        u := u + c;
        s := s + c;
      }
      len := len + |t|;
      message := message + t;
      assert t[..u] == t;
    }

    // block.fill(0, from)
    method Fill(from: nat)
      requires from <= block.Length
      modifies block
      ensures block[..] == old(block[..from]) + Zeros(block.Length - from)
    {
      var n := from;
      while n < block.Length
        invariant from <= n <= block.Length
        invariant block[..n] == old(block[..from]) + Zeros(n - from)
      {
        block[n] := 0;
        n := n + 1;
      }
      assert block[..n] == block[..];
    }

    // writeUInt32BE
    method WriteWord(n: nat, at: nat)
      requires n < 0x1_0000_0000 && at + 4 <= block.Length
      modifies block
      ensures block[..] == old(block[..at]) + BigEndian(n, 4) + old(block[at + 4..])
    {
      block[at], block[at + 1], block[at + 2], block[at + 3] :=
        n / 0x100_0000, n / 0x1_0000 % 0x100, n / 0x100 % 0x100, n % 0x100;
      WordBytes(n);
    }

    // The 1 bit and the zeros, up to the field of the length.
    method Pad()
      requires Valid()
      modifies this`blocks, block
      ensures Whole(blocks, blockSize) && block[finalSize..] == Zeros(blockSize - finalSize)
      ensures Flat(blocks) + block[..finalSize] == message + [0x80] + Zeros(Gap(|message|, blockSize, finalSize))
    {
      hide Flat;
      var e := len % blockSize;
      block[e] := 0x80;
      ghost var kept := block[..e];
      assert block[..e + 1] == kept + [0x80];
      Fill(e + 1);
      if e >= finalSize {
        Compress();
        assert Flat(blocks) == message + [0x80] + Zeros(blockSize - e - 1);
        Fill(0);
        assert Zeros(blockSize - e - 1) + Zeros(finalSize) == Zeros(Gap(|message|, blockSize, finalSize));
        assert block[..finalSize] == Zeros(finalSize);
      } else {
        assert block[..finalSize] == kept + [0x80] + Zeros(finalSize - e - 1);
      }
    }

    method WriteLength(r: nat)
      requires Sized() && r < 0x1_0000_0000 * 0x100_0000 && block[finalSize..] == Zeros(blockSize - finalSize)
      modifies block
      ensures block[..] == old(block[..finalSize]) + BigEndian(r, blockSize - finalSize)
    {
      hide BigEndian;
      ghost var w, kept := blockSize - finalSize, block[..finalSize];
      assert block[..] == kept + Zeros(w);
      if r <= 0xFFFF_FFFF {
        SplitWord(r, w - 4);
        BigEndianZero(w - 4);
        WriteWord(r, blockSize - 4);
        assert block[..] == kept + (Zeros(w - 4) + BigEndian(r, 4));
      } else {
        WriteLong(r, w, kept);
      }
    }

    // A length of more than 32 bits: the high word, and the low word after it.
    method WriteLong(r: nat, ghost w: nat, ghost kept: seq<Byte>)
      requires 8 <= w <= block.Length == blockSize && 0xFFFF_FFFF < r < 0x1_0000_0000 * 0x100_0000
      requires |kept| == blockSize - w && block[..] == kept + Zeros(w)
      modifies block
      ensures block[..] == kept + BigEndian(r, w)
    {
      hide BigEndian;
      var n := r % 0x1_0000_0000;
      var i := (r - n) / 0x1_0000_0000;
      assert i == r / 0x1_0000_0000 < 0x1_0000_0000;
      SplitWord(r, w - 4);
      SplitWord(i, w - 8);
      assert i % 0x1_0000_0000 == i && i / 0x1_0000_0000 == 0;
      BigEndianZero(w - 8);
      WriteWord(i, blockSize - 8);
      assert block[..blockSize - 4] == kept + Zeros(w - 8) + BigEndian(i, 4);
      WriteWord(n, blockSize - 4);
      assert block[..] == kept + (Zeros(w - 8) + BigEndian(i, 4) + BigEndian(n, 4));
    }

    /**
     digest: whatever pieces the message came in, _update has been given the blocks of the padded
     message, for messages below 2^53 bytes.
     */
    method Digest()
      requires Valid() && |message| < 0x20_0000_0000_0000
      modifies this`blocks, block
      ensures Whole(blocks, blockSize) && Flat(blocks) == Padded(message, blockSize, finalSize)
    {
      hide Flat, BigEndian;
      Pad();
      ghost var before, field := Flat(blocks), BigEndian(8 * len, blockSize - finalSize);
      ghost var kept := block[..finalSize];
      WriteLength(8 * len);
      Compress();
      assert before + (kept + field) == before + kept + field;
    }
  }

  lemma WordBytes(n: nat)
    requires n < 0x1_0000_0000
    ensures BigEndian(n, 4) == [n / 0x100_0000, n / 0x1_0000 % 0x100, n / 0x100 % 0x100, n % 0x100]
  {
    hide BigEndian;
    Quarters(n);
    BigEndianStep(n, 3);
    BigEndianStep(n / 0x100, 2);
    BigEndianStep(n / 0x1_0000, 1);
    LastByte(n / 0x100_0000);
  }

  lemma BigEndianStep(n: nat, w: nat)
    ensures BigEndian(n, w + 1) == BigEndian(n / 0x100, w) + [n % 0x100]
  {
  }

  lemma LastByte(n: Byte)
    ensures BigEndian(n, 1) == [n]
  {
    assert BigEndian(n / 0x100, 0) == [];
  }

  lemma Quarters(n: nat)
    ensures n / 0x100 / 0x100 == n / 0x1_0000 && n / 0x1_0000 / 0x100 == n / 0x100_0000
  {
  }

  // The last k bytes, and those before.
  lemma {:induction false} Split(q: nat, r: nat, w: nat, k: nat)
    requires r < Power(k)
    ensures BigEndian(q * Power(k) + r, w + k) == BigEndian(q, w) + BigEndian(r, k)
    decreases k
  {
    hide BigEndian;
    if k == 0 {
      NoBytes(r);
      assert q * Power(0) + r == q;
    } else {
      var p, s, b := Power(k - 1), r / 0x100, r % 0x100;
      Grouped(q, p, s, b);
      ModIs(q * p + s, b, 0x100);
      BigEndianStep(q * Power(k) + r, w + k - 1);
      BigEndianStep(r, k - 1);
      Split(q, s, w, k - 1);
      assert BigEndian(q, w) + BigEndian(s, k - 1) + [b] == BigEndian(q, w) + (BigEndian(s, k - 1) + [b]);
    }
  }

  lemma Grouped(q: nat, p: nat, s: nat, b: nat)
    ensures q * (0x100 * p) + (s * 0x100 + b) == (q * p + s) * 0x100 + b
  {
  }

  lemma NoBytes(n: nat)
    ensures BigEndian(n, 0) == []
  {
  }

  // The last four bytes, and those before.
  lemma SplitWord(n: nat, w: nat)
    ensures BigEndian(n, w + 4) == BigEndian(n / 0x1_0000_0000, w) + BigEndian(n % 0x1_0000_0000, 4)
  {
    hide BigEndian;
    Split(n / 0x1_0000_0000, n % 0x1_0000_0000, w, 4);
  }

  lemma {:induction false} BigEndianZero(w: nat)
    ensures BigEndian(0, w) == Zeros(w)
  {
    if w > 0 { BigEndianZero(w - 1); }
  }

  ghost predicate Whole(blocks: seq<seq<Byte>>, blockSize: nat) {
    forall b | b in blocks :: |b| == blockSize
  }

  /** A cut into blocks is determined by what it cuts. */
  lemma {:induction false} CutIsUnique(a: seq<seq<Byte>>, b: seq<seq<Byte>>, blockSize: nat)
    requires 0 < blockSize && Whole(a, blockSize) && Whole(b, blockSize) && Flat(a) == Flat(b)
    ensures a == b
    decreases |a|
  {
    NotEmpty(a, blockSize);
    NotEmpty(b, blockSize);
    if |a| > 0 {
      var x, y := a[|a| - 1], b[|b| - 1];
      assert x in a && y in b;
      var all := Flat(a);
      assert x == all[|all| - blockSize..] == y;
      assert Flat(a[..|a| - 1]) == all[..|all| - blockSize] == Flat(b[..|b| - 1]);
      CutIsUnique(a[..|a| - 1], b[..|b| - 1], blockSize);
      assert a == a[..|a| - 1] + [x] && b == b[..|b| - 1] + [y];
    }
  }

  lemma NotEmpty(a: seq<seq<Byte>>, blockSize: nat)
    requires 0 < blockSize && Whole(a, blockSize)
    ensures Flat(a) == [] <==> a == []
  {
    if |a| > 0 { assert a[|a| - 1] in a; }
  }

  /** Any two ways to hand over a message give _update the same blocks. */
  method HashPieces(pieces: seq<seq<Byte>>, blockSize: nat, finalSize: nat) returns (ghost blocks: seq<seq<Byte>>)
    requires 0 < finalSize && finalSize + 8 <= blockSize && |Flat(pieces)| < 0x20_0000_0000_0000
    ensures Whole(blocks, blockSize) && Flat(blocks) == Padded(Flat(pieces), blockSize, finalSize)
    ensures forall other :: Whole(other, blockSize) && Flat(other) == Padded(Flat(pieces), blockSize, finalSize) ==>
      other == blocks
  {
    var h := new Hash(blockSize, finalSize);
    var n := 0;
    while n < |pieces|
      invariant n <= |pieces| && h.Valid() && h.message == Flat(pieces[..n]) && fresh(h) && fresh(h.block)
      invariant h.blockSize == blockSize && h.finalSize == finalSize
    {
      assert pieces[..n + 1][..n] == pieces[..n];
      h.Update(pieces[n]);
      n := n + 1;
    }
    assert pieces[..n] == pieces;
    h.Digest();
    blocks := h.blocks;
    forall other | Whole(other, blockSize) && Flat(other) == Padded(Flat(pieces), blockSize, finalSize)
      ensures other == blocks
    {
      CutIsUnique(other, blocks, blockSize);
    }
  }
}
