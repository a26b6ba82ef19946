/**
 The base64 of module 79742 (section 4 of RFC 4648). Shifts and masks are written as division,
 multiplication and remainder.
 */
module Base64 {
  import opened Wrappers

  type Digit = d: int | 0 <= d < 64

  // The tables r and n; n also knows '-' and '_', and any other character reads as 0.
  function Letter(d: Digit): char {
    if d < 26 then ('A' as int + d) as char
    else if d < 52 then ('a' as int + d - 26) as char
    else if d < 62 then ('0' as int + d - 52) as char
    else if d == 62 then '+' else '/'
  }

  function Value(c: char): Digit {
    if 'A' <= c <= 'Z' then c as int - 'A' as int
    else if 'a' <= c <= 'z' then c as int - 'a' as int + 26
    else if '0' <= c <= '9' then c as int - '0' as int + 52
    else if c == '+' || c == '-' then 62
    else if c == '/' || c == '_' then 63
    else 0
  }

  lemma LetterValue(d: Digit)
    ensures Value(Letter(d)) == d && Letter(d) != '='
  {
  }

  const UPPER := "ABCDEFGHIJKLMNOPQRSTUVWXYZ"
  const LOWER := "abcdefghijklmnopqrstuvwxyz"
  const LETTERS := UPPER + LOWER + "0123456789+/"

  /** The tables: the alphabet of the standard, read with two more characters, all others counting 0. */
  lemma AlphabetIs(d: Digit, c: char)
    ensures |LETTERS| == 64 && Letter(d) == LETTERS[d] && Value(LETTERS[d]) == d
    ensures Value('-') == 62 && Value('_') == 63
    ensures c !in LETTERS && c != '-' && c != '_' ==> Value(c) == 0
  {
    LetterIs(d);
    LetterValue(d);
    if c != '-' && c != '_' && Value(c) != 0 {
      LetterIs(Value(c));
      assert LETTERS[Value(c)] == c;
    }
  }

  lemma LetterIs(d: Digit)
    ensures |LETTERS| == 64 && LETTERS[d] == Letter(d)
  {
    if d < 26 {
      assert LETTERS[d] == UPPER[d];
    } else if d < 52 {
      assert LETTERS[d] == LOWER[d - 26];
    } else {
      assert LETTERS[d] == "0123456789+/"[d - 52];
    }
  }

  // ---------------------------------------------------------------------
  // Encoding
  // ---------------------------------------------------------------------

  // Four letters for three bytes.
  function Four(a: Byte, b: Byte, c: Byte): (r: string)
    ensures |r| == 4
  {
    var v := a * 0x1_0000 + b * 0x100 + c;
    [Letter(v / 0x4_0000 % 64), Letter(v / 0x1000 % 64), Letter(v / 64 % 64), Letter(v % 64)]
  }

  function Fours(t: seq<Byte>): string
    requires |t| % 3 == 0
  {
    var n := |t|;
    if n == 0 then "" else Fours(t[..n - 3]) + Four(t[n - 3], t[n - 2], t[n - 1])
  }

  function Tail(t: seq<Byte>): string
    requires |t| < 3
  {
    if |t| == 0 then ""
    else if |t| == 1 then [Letter(t[0] / 4), Letter(t[0] as int * 16 % 64), '=', '=']
    else
      var v := t[0] as int * 0x100 + t[1];
      [Letter(v / 0x400), Letter(v / 16 % 64), Letter(v * 4 % 64), '=']
  }

  function Encoded(t: seq<Byte>): string {
    var a := |t| - |t| % 3;
    Fours(t[..a]) + Tail(t[a..])
  }

  // ---------------------------------------------------------------------
  // Decoding
  // ---------------------------------------------------------------------

  function IndexOf(t: string, c: char): nat {
    if |t| == 0 || t[0] == c then 0 else 1 + IndexOf(t[1..], c)
  }

  // The length without the padding, and of the padding; None is the error for a length not a multiple of 4.
  function Lens(t: string): Option<(nat, nat)> {
    if |t| % 4 > 0 then None
    else
      var r := IndexOf(t, '=');
      Some((r, if r == |t| then 0 else 4 - r % 4))
  }

  function Size(s: nat, u: nat): int {
    3 * (s + u) / 4 - u
  }

  function ByteLength(t: string): Option<int> {
    if Lens(t) == None then None else Some(Size(Lens(t).value.0, Lens(t).value.1))
  }

  function Three(a: char, b: char, c: char, d: char): (r: seq<Byte>)
    ensures |r| == 3
  {
    var v := Value(a) * 0x4_0000 + Value(b) * 0x1000 + Value(c) * 64 + Value(d);
    [v / 0x1_0000 % 0x100, v / 0x100 % 0x100, v % 0x100]
  }

  function Threes(t: string): (r: seq<Byte>)
    requires |t| % 4 == 0
  {
    var n := |t|;
    if n == 0 then [] else Threes(t[..n - 4]) + Three(t[n - 4], t[n - 3], t[n - 2], t[n - 1])
  }

  // Where the loop over whole groups ends.
  function End(s: nat, u: nat): nat {
    var l := if u > 0 then s - 4 else s;
    if l <= 0 then 0 else (l + 3) / 4 * 4
  }

  function Rest(t: string, r: nat, u: nat): seq<Byte>
    requires u == 2 ==> r + 1 < |t|
    requires u == 1 ==> r + 2 < |t|
  {
    if u == 2 then [(Value(t[r]) * 4 + Value(t[r + 1]) / 16) % 0x100]
    else if u == 1 then
      var v := Value(t[r]) * 0x400 + Value(t[r + 1]) * 16 + Value(t[r + 2]) / 4;
      [v / 0x100 % 0x100, v % 0x100]
    else []
  }

  lemma {:induction false} IndexOfIs(t: string, c: char)
    ensures IndexOf(t, c) <= |t| && (IndexOf(t, c) < |t| ==> t[IndexOf(t, c)] == c)
    ensures forall i | 0 <= i < IndexOf(t, c) :: t[i] != c
  {
    if |t| > 0 && t[0] != c { IndexOfIs(t[1..], c); }
  }

  lemma LensFit(t: string)
    requires Lens(t).Some?
    ensures var (s, u) := Lens(t).value;
      && s <= |t| && u <= 4 && End(s, u) <= |t| && End(s, u) % 4 == 0
      && (u == 0 ==> s == |t| == End(s, u)) && (u == 2 ==> End(s, u) == s - 2 && s >= 2)
      && (u == 1 ==> End(s, u) == s - 3 && s >= 3)
      && (u > 0 ==> s < |t|)
  {
    IndexOfIs(t, '=');
  }

  // An array of bytes drops what is written past its end and starts as zeros.
  function Stored(w: seq<Byte>, n: nat): seq<Byte> {
    seq(n, i requires 0 <= i < n => if i < |w| then w[i] else 0)
  }

  // None is one of the two errors: of the length, and of an array with a negative length.
  function Decoded(t: string): Option<seq<Byte>> {
    if Lens(t) == None then None
    else
      var (s, u) := Lens(t).value;
      LensFit(t);
      if Size(s, u) < 0 then None
      else Some(Stored(Threes(t[..End(s, u)]) + Rest(t, End(s, u), u), Size(s, u)))
  }

  // ---------------------------------------------------------------------
  // The round trip
  // ---------------------------------------------------------------------

  lemma Recompose(v: nat)
    requires v < 0x100_0000
    ensures v / 0x4_0000 < 64
    ensures v == v / 0x4_0000 * 0x4_0000 + v / 0x1000 % 64 * 0x1000 + v / 64 % 64 * 64 + v % 64
  {
    assert v / 64 == v / 0x1000 * 64 + v / 64 % 64;
    assert v / 0x1000 == v / 0x4_0000 * 64 + v / 0x1000 % 64;
  }

  lemma Bytes(a: Byte, b: Byte, c: Byte)
    ensures var v := a * 0x1_0000 + b * 0x100 + c;
      0 <= v < 0x100_0000 && v / 0x1_0000 % 0x100 == a && v / 0x100 % 0x100 == b && v % 0x100 == c
  {
  }

  lemma ThreeIs(p: char, q: char, r: char, s: char, v: nat)
    requires v < 0x100_0000
    requires Value(p) == v / 0x4_0000 && Value(q) == v / 0x1000 % 64 && Value(r) == v / 64 % 64 && Value(s) == v % 64
    ensures Three(p, q, r, s) == [v / 0x1_0000 % 0x100, v / 0x100 % 0x100, v % 0x100]
  {
    hide Value;
    Recompose(v);
  }

  lemma FourIs(a: Byte, b: Byte, c: Byte)
    ensures var v, r := a * 0x1_0000 + b * 0x100 + c, Four(a, b, c);
      && 0 <= v < 0x100_0000
      && Value(r[0]) == v / 0x4_0000 && Value(r[1]) == v / 0x1000 % 64 && Value(r[2]) == v / 64 % 64
      && Value(r[3]) == v % 64
      && r[0] != '=' && r[1] != '=' && r[2] != '=' && r[3] != '='
  {
    hide Letter, Value;
    var v := a * 0x1_0000 + b * 0x100 + c;
    LetterValue(v / 0x4_0000 % 64);
    LetterValue(v / 0x1000 % 64);
    LetterValue(v / 64 % 64);
    LetterValue(v % 64);
    assert v < 0x100_0000;
    assert v / 0x4_0000 < 64;
  }

  lemma FourThree(a: Byte, b: Byte, c: Byte)
    ensures var r := Four(a, b, c); Three(r[0], r[1], r[2], r[3]) == [a, b, c]
    ensures forall i | 0 <= i < 4 :: Four(a, b, c)[i] != '='
  {
    hide Four, Three, Value;
    var r := Four(a, b, c);
    FourIs(a, b, c);
    ThreeIs(r[0], r[1], r[2], r[3], a * 0x1_0000 + b * 0x100 + c);
    Bytes(a, b, c);
  }

  lemma {:induction false} FoursThrees(t: seq<Byte>)
    requires |t| % 3 == 0
    ensures |Fours(t)| == |t| / 3 * 4 && Threes(Fours(t)) == t
    ensures '=' !in Fours(t)
    decreases |t|
  {
    hide Four, Three;
    var n := |t|;
    if n > 0 {
      var p, f := t[..n - 3], Four(t[n - 3], t[n - 2], t[n - 1]);
      FoursThrees(p);
      FourThree(t[n - 3], t[n - 2], t[n - 1]);
      var all := Fours(t);
      assert all[..|all| - 4] == Fours(p) && all[|all| - 4..] == f;
      assert t == p + [t[n - 3], t[n - 2], t[n - 1]];
    }
  }

  lemma {:induction false} IndexOfIn(a: string, b: string, c: char)
    requires c !in a
    ensures IndexOf(a + b, c) == |a| + IndexOf(b, c)
    decreases |a|
  {
    if |a| > 0 {
      assert a[0] in a && (a + b)[1..] == a[1..] + b;
      IndexOfIn(a[1..], b, c);
    } else {
      assert a + b == b;
    }
  }

  lemma TailRest(t: seq<Byte>)
    requires 0 < |t| < 3
    ensures |Tail(t)| == 4 && IndexOf(Tail(t), '=') == |t| + 1
    ensures Rest(Tail(t), 0, 3 - |t|) == t
  {
    if |t| == 1 { TailRestOne(t); } else { TailRestTwo(t); }
  }

  lemma TailRestOne(t: seq<Byte>)
    requires |t| == 1
    ensures |Tail(t)| == 4 && IndexOf(Tail(t), '=') == 2 && Rest(Tail(t), 0, 2) == t
  {
    hide Letter, Value;
    var s := Tail(t);
    LetterValue(t[0] / 4);
    LetterValue(t[0] as int * 16 % 64);
    TwoLetters(s);
    OneBits(t[0]);
  }

  lemma TwoLetters(s: string)
    requires |s| == 4 && s[0] != '=' && s[1] != '=' && s[2] == '='
    ensures IndexOf(s, '=') == 2
  {
    IndexOfIn(s[..2], s[2..], '=');
    assert s == s[..2] + s[2..];
  }

  lemma OneBits(v: Byte)
    ensures (v / 4 * 4 + v * 16 % 64 / 16) % 0x100 == v
  {
    ShiftedBits(v / 4, v % 4);
    assert v * 16 == v / 4 * 64 + v % 4 * 16;
  }

  lemma ShiftedBits(a: nat, b: nat)
    requires b < 4
    ensures (a * 64 + b * 16) % 64 / 16 == b
  {
  }

  lemma TailRestTwo(t: seq<Byte>)
    requires |t| == 2
    ensures |Tail(t)| == 4 && IndexOf(Tail(t), '=') == 3 && Rest(Tail(t), 0, 1) == t
  {
    hide Letter, Value;
    var s := Tail(t);
    var v := t[0] as int * 0x100 + t[1];
    LetterValue(v / 0x400);
    LetterValue(v / 16 % 64);
    LetterValue(v * 4 % 64);
    IndexOfIn(s[..3], s[3..], '=');
    assert s == s[..3] + s[3..];
    TailBits(v, t[0], t[1]);
  }

  lemma TailBits(v: nat, a: Byte, b: Byte)
    requires v == a * 0x100 + b
    ensures var w := v / 0x400 * 0x400 + v / 16 % 64 * 16 + v * 4 % 64 / 4;
      w / 0x100 % 0x100 == a && w % 0x100 == b
  {
    var x, y := v / 16, v % 16;
    assert v == x * 16 + y;
    LowBits(x, y);
    Hundreds(x);
    assert v / 0x400 * 0x400 + x % 64 * 16 + y == v;
  }

  lemma LowBits(x: nat, y: nat)
    requires y < 16
    ensures (x * 16 + y) * 4 % 64 / 4 == y && (x * 16 + y) / 0x400 == x / 64
  {
    assert (x * 16 + y) * 4 == x * 64 + y * 4;
  }

  lemma Hundreds(x: nat)
    ensures x / 64 * 64 + x % 64 == x
  {
  }

  lemma RestShift(a: string, b: string, u: nat)
    requires 1 <= u <= 2 && |b| == 4
    ensures Rest(a + b, |a|, u) == Rest(b, 0, u)
  {
    assert forall i | 0 <= i < 4 :: (a + b)[|a| + i] == b[i];
  }

  lemma RoundTripWhole(t: seq<Byte>)
    requires |t| % 3 == 0
    ensures Decoded(Fours(t)) == Some(t) && ByteLength(Fours(t)) == Some(|t|)
  {
    hide Threes, Fours, Lens, Decoded;
    FoursThrees(t);
    NoPadding(Fours(t), |t| / 3);
    DecodedWhole(Fours(t), |t| / 3);
  }

  lemma NoPadding(x: string, k: nat)
    requires |x| == 4 * k && '=' !in x
    ensures Lens(x) == Some((|x|, 0))
  {
    hide IndexOf;
    IndexOfIn(x, "", '=');
    NoIndex();
    assert x + "" == x;
  }

  lemma DecodedWhole(x: string, k: nat)
    requires |x| == 4 * k && Lens(x) == Some((|x|, 0)) && |Threes(x)| == 3 * k
    ensures Decoded(x) == Some(Threes(x)) && ByteLength(x) == Some(3 * k)
  {
    hide Threes, Rest, Lens, End, Size;
    WholeLens(k);
    NoRest(x, |x|);
    assert x[..|x|] == x;
    var t := Threes(x);
    assert Stored(t + [], |t|) == t;
  }

  lemma RoundTripTail(head: seq<Byte>, tail: seq<Byte>)
    requires |head| % 3 == 0 && 0 < |tail| < 3
    ensures Decoded(Fours(head) + Tail(tail)) == Some(head + tail)
    ensures ByteLength(Fours(head) + Tail(tail)) == Some(|head + tail|)
  {
    hide Threes, Rest, Tail, Fours, IndexOf, Lens, Decoded, ByteLength;
    FoursThrees(head);
    TailRest(tail);
    Padding(Fours(head), Tail(tail), |head| / 3, |tail|);
    DecodedPadded(Fours(head), Tail(tail), |head| / 3, |tail|);
  }

  lemma Padding(x: string, y: string, k: nat, n: nat)
    requires 0 < n < 3 && |x| == 4 * k && '=' !in x && |y| == 4 && IndexOf(y, '=') == n + 1
    ensures Lens(x + y) == Some((4 * k + n + 1, 3 - n))
  {
    hide IndexOf;
    IndexOfIn(x, y, '=');
    GroupOf(k, n + 1);
    GroupOf(k + 1, 0);
  }

  lemma DecodedPadded(x: string, y: string, k: nat, n: nat)
    requires 0 < n < 3 && |x| == 4 * k && |y| == 4 && Lens(x + y) == Some((4 * k + n + 1, 3 - n))
    requires |Threes(x)| == 3 * k && |Rest(y, 0, 3 - n)| == n
    ensures Decoded(x + y) == Some(Threes(x) + Rest(y, 0, 3 - n)) && ByteLength(x + y) == Some(3 * k + n)
  {
    hide Threes, Rest, Lens, End, Size;
    TailLens(k, n);
    assert (x + y)[..|x|] == x;
    RestShift(x, y, 3 - n);
    var w := Threes(x) + Rest(y, 0, 3 - n);
    assert Stored(w, |w|) == w;
  }

  // k groups of four and r letters more.
  lemma GroupOf(k: nat, r: nat)
    requires r < 4
    ensures (4 * k + r) / 4 == k && (4 * k + r) % 4 == r
  {
  }

  lemma WholeLens(k: nat)
    ensures End(4 * k, 0) == 4 * k && Size(4 * k, 0) == 3 * k
  {
    GroupOf(k, 3);
    GroupOf(3 * k, 0);
    assert 3 * (4 * k + 0) == 4 * (3 * k) + 0;
  }

  // The lengths of k groups and a tail of n bytes.
  lemma TailLens(k: nat, n: nat)
    requires 0 < n < 3
    ensures var s, u := 4 * k + n + 1, 3 - n;
      End(s, u) == 4 * k && Size(s, u) == 3 * k + n
  {
    GroupOf(k, n);
    GroupOf(3 * k + 3, 0);
    assert 3 * (4 * k + n + 1 + (3 - n)) == 4 * (3 * k + 3) + 0;
  }

  /** Decoding what encodes an array of bytes returns it, and byteLength knows its length before. */
  lemma RoundTrip(t: seq<Byte>)
    ensures Decoded(Encoded(t)) == Some(t) && ByteLength(Encoded(t)) == Some(|t|)
  {
    hide Decoded, ByteLength, Fours, Tail;
    var a := |t| - |t| % 3;
    assert t == t[..a] + t[a..];
    if a == |t| {
      NoTail();
      assert t[..a] == t && t[a..] == [];
      assert Fours(t) + "" == Fours(t);
      RoundTripWhole(t);
    } else {
      RoundTripTail(t[..a], t[a..]);
    }
  }

  /** Vectors of section 10 of RFC 4648: f, fo, foo and foob. */
  lemma Vectors()
    ensures Encoded([102]) == "Zg==" && Encoded([102, 111]) == "Zm8="
    ensures Encoded([102, 111, 111]) == "Zm9v" && Encoded([102, 111, 111, 98]) == "Zm9vYg=="
  {
    hide Tail, Four;
    EncodedTail([102]);
    EncodedTail([102, 111]);
    EncodedGroup(102, 111, 111, []);
    EncodedGroup(102, 111, 111, [98]);
    assert [102, 111, 111] + [98] == [102, 111, 111, 98] && [102, 111, 111] + [] == [102, 111, 111];
    FooIs();
    TailsAre();
    FoTail();
  }

  lemma EncodedTail(t: seq<Byte>)
    requires |t| < 3
    ensures Encoded(t) == Tail(t)
  {
    assert t[..0] == [] && t[0..] == t;
  }

  lemma EncodedGroup(a: Byte, b: Byte, c: Byte, t: seq<Byte>)
    requires |t| < 3
    ensures Encoded([a, b, c] + t) == Four(a, b, c) + Tail(t)
  {
    hide Fours, Four, Tail;
    var all := [a, b, c] + t;
    assert |all| == 3 + |t| && |all| - |all| % 3 == 3;
    assert all[..3] == [a, b, c] && all[3..] == t;
    OneGroup(a, b, c);
  }

  lemma OneGroup(a: Byte, b: Byte, c: Byte)
    ensures Fours([a, b, c]) == Four(a, b, c)
  {
    hide Four;
    assert [a, b, c][..0] == [];
    assert Fours([]) == "";
  }

  lemma FooIs()
    ensures Four(102, 111, 111) == "Zm9v"
  {
  }

  lemma TailsAre()
    ensures Tail([]) == "" && Tail([102]) == "Zg==" && Tail([98]) == "Yg=="
  {
  }

  lemma FoTail()
    ensures Tail([102, 111]) == "Zm8="
  {
  }

  lemma NoTail()
    ensures Tail([]) == ""
  {
  }

  lemma NoIndex()
    ensures IndexOf("", '=') == 0
  {
  }

  lemma NoRest(t: string, r: nat)
    ensures Rest(t, r, 0) == []
  {
  }

  // ---------------------------------------------------------------------
  // The loops
  // ---------------------------------------------------------------------

  const PIECE := 16383

  // encodeChunk: the letters of t[start..end]
  method EncodeChunk(t: seq<Byte>, start: nat, end: nat, ghost m: nat) returns (r: string)
    requires start <= end <= |t| && end - start == 3 * m
    ensures r == Fours(t[start..end])
  {
    hide Four, Fours;
    r := "";
    FoursNone();
    assert t[start..start] == [];
    var u := start;
    ghost var k := 0;
    while u < end
      invariant u == start + 3 * k && k <= m && r == Fours(t[start..u])
    {
      FoursMore(t[start..u], t[u], t[u + 1], t[u + 2]);
      assert t[start..u] + [t[u], t[u + 1], t[u + 2]] == t[start..u + 3];
      r := r + Four(t[u], t[u + 1], t[u + 2]);
      u := u + 3;
      k := k + 1;
    }
  }

  lemma FoursNone()
    ensures Fours([]) == ""
  {
  }

  lemma FoursMore(p: seq<Byte>, a: Byte, b: Byte, c: Byte)
    requires |p| % 3 == 0
    ensures Fours(p + [a, b, c]) == Fours(p) + Four(a, b, c)
  {
    hide Four;
    var all := p + [a, b, c];
    assert all[..|all| - 3] == p;
  }

  lemma {:induction false} FoursJoin(a: seq<Byte>, b: seq<Byte>)
    requires |a| % 3 == 0 && |b| % 3 == 0
    ensures Fours(a + b) == Fours(a) + Fours(b)
    decreases |b|
  {
    hide Four;
    if |b| == 0 {
      assert a + b == a;
    } else {
      var all, p := a + b, b[..|b| - 3];
      FoursJoin(a, p);
      assert all[..|all| - 3] == a + p;
      var f := Four(b[|b| - 3], b[|b| - 2], b[|b| - 1]);
      assert Fours(a) + Fours(p) + f == Fours(a) + (Fours(p) + f);
    }
  }

  /** fromByteArray: in pieces of 16383 bytes, the same as in one. */
  method FromByteArray(t: seq<Byte>) returns (o: string)
    ensures o == Encoded(t)
  {
    hide Fours, Tail;
    var n := |t|;
    var i := n % 3;
    var a := n - i;
    o := "";
    var u := 0;
    ghost var k, m := 0, n / 3;
    assert t[..0] == [] && a == 3 * m;
    FoursNone();
    while u < a
      invariant u == 3 * k && o == Fours(t[..if u < a then u else a])
      decreases a - u
    {
      var end := if u + PIECE > a then a else u + PIECE;
      ghost var p := if u + PIECE > a then m - k else 5461;
      var c := EncodeChunk(t, u, end, p);
      PiecesJoin(t, u, end, k, p);
      o := o + c;
      u := u + PIECE;
      k := k + 5461;
    }
    var rest := EncodeTail(t, i);
    o := o + rest;
  }

  lemma PiecesJoin(t: seq<Byte>, u: nat, end: nat, k: nat, p: nat)
    requires u == 3 * k && end == u + 3 * p && end <= |t|
    ensures u % 3 == 0 && (end - u) % 3 == 0 && end % 3 == 0
    ensures Fours(t[..end]) == Fours(t[..u]) + Fours(t[u..end])
  {
    hide Fours;
    FoursJoin(t[..u], t[u..end]);
    assert t[..u] + t[u..end] == t[..end];
  }

  method EncodeTail(t: seq<Byte>, i: nat) returns (r: string)
    requires i < 3 && i <= |t|
    ensures r == Tail(t[|t| - i..])
  {
    hide Letter;
    var n := |t|;
    r := "";
    if i == 1 {
      var e := t[n - 1];
      r := [Letter(e / 4), Letter(e as int * 16 % 64), '=', '='];
    } else if i == 2 {
      var e := t[n - 2] as int * 0x100 + t[n - 1];
      r := [Letter(e / 0x400), Letter(e / 16 % 64), Letter(e * 4 % 64), '='];
    }
  }

  // c[f++] = b, which an array of bytes ignores past its end
  method Store(c: array<Byte>, f: nat, b: Byte, ghost w: seq<Byte>)
    requires f == |w| && c[..] == Stored(w, c.Length)
    modifies c
    ensures c[..] == Stored(w + [b], c.Length)
  {
    if f < c.Length {
      c[f] := b;
    }
  }

  // The three bytes of the group at k.
  method StoreGroup(c: array<Byte>, f: nat, t: string, k: nat, ghost w: seq<Byte>)
    requires f == |w| && c[..] == Stored(w, c.Length) && k + 4 <= |t| && k % 4 == 0 && w == Threes(t[..k])
    modifies c
    ensures c[..] == Stored(Threes(t[..k + 4]), c.Length)
  {
    hide Three, Stored;
    ghost var p := t[..k + 4];
    assert p[..|p| - 4] == t[..k];
    var e := Three(t[k], t[k + 1], t[k + 2], t[k + 3]);
    Store(c, f, e[0], w);
    Store(c, f + 1, e[1], w + [e[0]]);
    Store(c, f + 2, e[2], w + [e[0]] + [e[1]]);
    assert w + [e[0]] + [e[1]] + [e[2]] == w + e;
  }

  // What the last group holds besides padding.
  method StoreRest(c: array<Byte>, f: nat, t: string, k: nat, u: nat, ghost w: seq<Byte>)
    requires f == |w| && c[..] == Stored(w, c.Length) && (u == 2 ==> k + 1 < |t|) && (u == 1 ==> k + 2 < |t|)
    modifies c
    ensures c[..] == Stored(w + Rest(t, k, u), c.Length)
  {
    hide Stored, Value;
    if u == 2 {
      Store(c, f, (Value(t[k]) as int * 4 + Value(t[k + 1]) / 16) % 0x100, w);
    }
    if u == 1 {
      var v := Value(t[k]) as int * 0x400 + Value(t[k + 1]) as int * 16 + Value(t[k + 2]) / 4;
      Store(c, f, v / 0x100 % 0x100, w);
      Store(c, f + 1, v % 0x100, w + [v / 0x100 % 0x100]);
      assert w + [v / 0x100 % 0x100] + [v % 0x100] == w + Rest(t, k, u);
    }
    assert u != 1 && u != 2 ==> w + Rest(t, k, u) == w;
  }

  /** toByteArray, with None for its errors. */
  method ToByteArray(t: string) returns (r: Option<array<Byte>>)
    ensures r.Some? ==> fresh(r.value)
    ensures if r == None then Decoded(t) == None else Decoded(t) == Some(r.value[..])
  {
    hide Threes, IndexOf, Rest, End;
    var lens := Lens(t);
    if lens == None {
      return None;
    }
    LensFit(t);
    var (s, u) := lens.value;
    if Size(s, u) < 0 {
      return None;
    }
    var c := new Byte[Size(s, u)](_ => 0);
    var l := if u > 0 then s - 4 else s;
    var f, k := 0, 0;
    ThreesNone();
    assert t[..0] == "" && c[..] == Stored([], c.Length);
    while k < l
      invariant 0 <= k && k % 4 == 0 && k <= End(s, u)
      invariant f == |Threes(t[..k])| && c[..] == Stored(Threes(t[..k]), c.Length)
      decreases l - k
    {
      EndReached(s, u, k);
      ThreesLonger(t, k);
      StoreGroup(c, f, t, k, Threes(t[..k]));
      f := f + 3;
      k := k + 4;
    }
    EndReached(s, u, k);
    StoreRest(c, f, t, k, u, Threes(t[..k]));
    r := Some(c);
  }

  lemma EndReached(s: nat, u: nat, k: nat)
    requires k % 4 == 0 && k <= End(s, u)
    ensures if k < (if u > 0 then s - 4 else s) then k + 4 <= End(s, u) else k == End(s, u)
  {
  }

  lemma ThreesNone()
    ensures Threes("") == []
  {
  }

  lemma ThreesLonger(t: string, k: nat)
    requires k % 4 == 0 && k + 4 <= |t|
    ensures |Threes(t[..k + 4])| == |Threes(t[..k])| + 3
  {
    hide Three;
    var p := t[..k + 4];
    assert p[..|p| - 4] == t[..k];
  }
}
