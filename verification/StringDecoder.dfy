/**
 The UTF-8 string decoder of module 32553: bytes come in chunks, and a code point cut by the end
 of a chunk is kept for the next one.
 */
module StringDecoder {
  import opened Wrappers
  import opened Utf8

  datatype State = State(lastNeed: nat, lastTotal: nat, lastChar: seq<Byte>) {
    predicate Valid() {
      lastNeed <= lastTotal <= 4 == |lastChar|
    }
  }

  // ---------------------------------------------------------------------
  // The code as functions
  // ---------------------------------------------------------------------

  // utf8CheckByte: how many bytes a form has that b starts, 0 for ASCII, -1 for a continuation.
  function Kind(b: Byte): int {
    if b <= 0x7F then 0
    else if b / 0x20 == 6 then 2
    else if b / 0x10 == 14 then 3
    else if b / 8 == 30 then 4
    else if b / 0x40 == 2 then -1
    else -2
  }

  // utf8CheckIncomplete: the length of the form cut by the end of t, and how much of it is missing.
  function CutForm(t: seq<Byte>, start: nat): (nat, nat) {
    var n := |t| - 1;
    if n < start then (0, 0)
    else
      var i := Kind(t[n]);
      if i >= 0 then (i, if i > 0 then i - 1 else 0)
      else if n - 1 < start || i == -2 then (0, 0)
      else
        var j := Kind(t[n - 1]);
        if j >= 0 then (j, if j >= 2 then j - 2 else 0)
        else if n - 2 < start || j == -2 then (0, 0)
        else
          var k := Kind(t[n - 2]);
          if k > 2 then (k, k - 3) else (0, 0)
  }

  function Put(a: seq<Byte>, at: nat, t: seq<Byte>): seq<Byte>
    requires at + |t| <= |a|
  {
    a[..at] + t + a[at + |t|..]
  }

  // utf8Text, with nothing kept
  function TextStep(s: State, t: seq<Byte>, start: nat): (State, seq<Unit>)
    requires s.Valid() && start <= |t|
  {
    var (total, need) := CutForm(t, start);
    if need == 0 then (s.(lastNeed := 0), Decode(t[start..]))
    else
      var n := |t| - (total - need);
      (State(need, total, Put(s.lastChar, 0, t[n..])), Decode(t[start..n]))
  }

  // utf8FillLast: None if the code point kept still lacks a byte.
  function FillStep(s: State, t: seq<Byte>): (State, Option<seq<Unit>>)
    requires s.Valid() && s.lastNeed > 0 && |t| > 0
  {
    if !Continuation(t[0]) then (s.(lastNeed := 0), Some([REPLACEMENT]))
    else if s.lastNeed > 1 && |t| > 1 && !Continuation(t[1]) then (s.(lastNeed := 1), Some([REPLACEMENT]))
    else if s.lastNeed > 2 && |t| > 2 && !Continuation(t[2]) then (s.(lastNeed := 2), Some([REPLACEMENT]))
    else
      var p := s.lastTotal - s.lastNeed;
      if s.lastNeed <= |t| then
        var all := Put(s.lastChar, p, t[..s.lastNeed]);
        (s.(lastChar := all), Some(Decode(all[..s.lastTotal])))
      else (State(s.lastNeed - |t|, s.lastTotal, Put(s.lastChar, p, t)), None)
  }

  function WriteStep(s: State, t: seq<Byte>): (State, seq<Unit>)
    requires s.Valid()
  {
    if |t| == 0 then (s, [])
    else if s.lastNeed == 0 then TextStep(s, t, 0)
    else
      var (f, e) := FillStep(s, t);
      if e == None then (f, [])
      else
        var g := f.(lastNeed := 0);
        if f.lastNeed < |t| then
          var (u, r) := TextStep(g, t, f.lastNeed);
          (u, e.value + r)
        else (g, e.value)
  }

  function Ended(s: State): seq<Unit> {
    if s.lastNeed > 0 then [REPLACEMENT] else []
  }

  function WriteAll(s: State, chunks: seq<seq<Byte>>): (State, seq<Unit>)
    requires s.Valid()
    decreases |chunks|
  {
    if chunks == [] then (s, [])
    else
      WriteValid(s, chunks[0]);
      var (t, r) := WriteStep(s, chunks[0]);
      var (u, q) := WriteAll(t, chunks[1..]);
      (u, r + q)
  }

  lemma KindRange(b: Byte)
    ensures -2 <= Kind(b) <= 4 && Kind(b) != 1
  {
  }

  lemma WriteValid(s: State, t: seq<Byte>)
    requires s.Valid()
    ensures WriteStep(s, t).0.Valid()
  {
    hide Decode, FillStep, TextStep;
    if |t| > 0 {
      if s.lastNeed > 0 { FillValid(s, t); }
      var g := if s.lastNeed > 0 then FillStep(s, t).0.(lastNeed := 0) else s;
      var start := if s.lastNeed > 0 then FillStep(s, t).0.lastNeed else 0;
      if start <= |t| { TextValid(g, t, start); }
    }
  }

  lemma FillValid(s: State, t: seq<Byte>)
    requires s.Valid() && s.lastNeed > 0 && |t| > 0
    ensures FillStep(s, t).0.Valid()
  {
    hide Decode;
  }

  lemma TextValid(s: State, t: seq<Byte>, start: nat)
    requires s.Valid() && start <= |t|
    ensures TextStep(s, t, start).0.Valid()
  {
    hide Decode, CutForm;
    CutRange(t, start);
  }

  lemma CutRange(t: seq<Byte>, start: nat)
    requires start <= |t|
    ensures var (total, need) := CutForm(t, start);
      need > 0 ==> need <= total <= 4 && total - need <= |t| - start
  {
    hide Kind;
    if |t| > 0 { KindRange(t[|t| - 1]); }
    if |t| > 1 { KindRange(t[|t| - 2]); }
    if |t| > 2 { KindRange(t[|t| - 3]); }
  }

  // ---------------------------------------------------------------------
  // Any bytes at all
  // ---------------------------------------------------------------------

  // b starts a form of n bytes.
  predicate Leads(b: Byte, n: nat) {
    (n == 2 && 0xC0 <= b < 0xE0) || (n == 3 && 0xE0 <= b < 0xF0) || (n == 4 && 0xF0 <= b < 0xF8)
  }

  // t[start..] ends with the first k bytes of a form of n, which lacks more.
  ghost predicate EndsCut(t: seq<Byte>, start: nat, k: nat, n: nat) {
    && 1 <= k < n && start + k <= |t| && Leads(t[|t| - k], n)
    && forall i | |t| - k < i < |t| :: Continuation(t[i])
  }

  /** utf8CheckIncomplete finds a cut form if and only if the bytes end with one, and says what it lacks. */
  lemma CutExactly(t: seq<Byte>, start: nat)
    ensures var (total, need) := CutForm(t, start);
      && (forall k: nat, n: nat | EndsCut(t, start, k, n) :: total == n && need == n - k)
      && (need > 0 ==> need < total && EndsCut(t, start, total - need, total))
  {
    hide CutForm, EndsCut;
    var (total, need) := CutForm(t, start);
    forall k: nat, n: nat | EndsCut(t, start, k, n)
      ensures total == n && need == n - k
    {
      CutFound(t, start, k, n);
    }
    if need > 0 { CutLacks(t, start); }
  }

  lemma CutLacks(t: seq<Byte>, start: nat)
    requires CutForm(t, start).1 > 0
    ensures var (total, need) := CutForm(t, start);
      need < total && EndsCut(t, start, total - need, total)
  {
    hide Kind, Leads, Continuation;
    var (total, need) := CutForm(t, start);
    var k := total - need;
    assert 1 <= k <= 3 && start + k <= |t| && Kind(t[|t| - k]) == total;
    KindIs(t[|t| - k]);
    forall i | |t| - k < i < |t|
      ensures Continuation(t[i])
    {
      LastKinds(t, start, k, i);
      KindIs(t[i]);
    }
  }

  lemma LastKinds(t: seq<Byte>, start: nat, k: nat, i: nat)
    requires var (total, need) := CutForm(t, start); need > 0 && k == total - need && |t| - k < i < |t|
    ensures Kind(t[i]) == -1
  {
    hide Kind;
    KindRange(t[i]);
  }

  lemma KindIs(b: Byte)
    ensures forall n: nat :: Leads(b, n) <==> n >= 2 && Kind(b) == n
    ensures Continuation(b) <==> Kind(b) == -1
  {
  }

  lemma CutFound(t: seq<Byte>, start: nat, k: nat, n: nat)
    requires EndsCut(t, start, k, n)
    ensures CutForm(t, start) == (n, n - k)
  {
    hide Kind, Leads, Continuation;
    KindIs(t[|t| - k]);
    KindRange(t[|t| - k]);
    forall i | |t| - k < i < |t|
      ensures Kind(t[i]) == -1
    {
      KindIs(t[i]);
    }
  }

  /**
   A kept code point that is broken off: after m bytes that go on with it comes one that does not. It is
   replaced by one character, those m bytes with it, and the text goes on with the byte that broke it off.
   */
  lemma BrokenOff(s: State, t: seq<Byte>, m: nat)
    requires s.Valid() && s.lastNeed < s.lastTotal && m < s.lastNeed && m < |t|
    requires (forall i | 0 <= i < m :: Continuation(t[i])) && !Continuation(t[m])
    ensures var (u, r) := TextStep(s.(lastNeed := 0), t, m);
      WriteStep(s, t) == (u, [REPLACEMENT] + r)
  {
    hide TextStep, Continuation;
  }

  // ---------------------------------------------------------------------
  // The bytes of well-formed text
  // ---------------------------------------------------------------------

  function Flat(chunks: seq<seq<Byte>>): seq<Byte> {
    if |chunks| == 0 then [] else chunks[0] + Flat(chunks[1..])
  }

  // How many code points are whole among the first m bytes.
  function Whole(cs: seq<Scalar>, m: nat): (k: nat)
    ensures k <= |cs|
  {
    if |cs| == 0 || |Encode(cs)| <= m then |cs| else Whole(cs[..|cs| - 1], m)
  }

  // The decoder has read the code points cs[..k] and p bytes of cs[k].
  ghost predicate At(s: State, cs: seq<Scalar>, k: nat, p: nat) {
    && s.Valid() && k <= |cs|
    && if p == 0 then s.lastNeed == 0
       else
         && k < |cs| && p < |EncodeOne(cs[k])| == s.lastTotal && s.lastNeed == s.lastTotal - p
         && s.lastChar[..p] == EncodeOne(cs[k])[..p]
  }

  lemma Kinds(c: Scalar)
    ensures var b := EncodeOne(c);
      && Kind(b[0]) == (if |b| == 1 then 0 else |b|)
      && forall i | 0 < i < |b| :: Kind(b[i]) == -1 && Continuation(b[i])
  {
  }

  // The last bytes of t are the first q of a code point.
  lemma CutAt(t: seq<Byte>, start: nat, c: Scalar, q: nat)
    requires 1 <= q <= |EncodeOne(c)| && start + q <= |t| && t[|t| - q..] == EncodeOne(c)[..q]
    ensures var (total, need) := CutForm(t, start);
      need == |EncodeOne(c)| - q && (need > 0 ==> total == |EncodeOne(c)|)
  {
    Kinds(c);
    hide EncodeOne, Kind;
    var b, n := EncodeOne(c), |t| - q;
    assert forall i | 0 <= i < q :: t[n + i] == t[n..][i] == b[i];
  }

  lemma {:induction false} WholeSplit(cs: seq<Scalar>, m: nat) returns (q: nat)
    requires m <= |Encode(cs)|
    ensures var w := Whole(cs, m);
      && m == |Encode(cs[..w])| + q
      && (if w == |cs| then q == 0 else q < |EncodeOne(cs[w])|)
      && Encode(cs)[..m] == Encode(cs[..w]) + (if w == |cs| then [] else EncodeOne(cs[w])[..q])
    decreases |cs|
  {
    hide EncodeOne;
    if |cs| == 0 {
      q := 0;
    } else if |Encode(cs)| <= m {
      q := 0;
      assert cs[..|cs|] == cs;
    } else {
      var shorter, c := cs[..|cs| - 1], cs[|cs| - 1];
      if m < |Encode(shorter)| {
        q := WholeSplit(shorter, m);
        var w := Whole(shorter, m);
        assert shorter[..w] == cs[..w];
        assert shorter[..|shorter|] == shorter;
      } else {
        q := m - |Encode(shorter)|;
        WholeIs(shorter, m);
      }
    }
  }

  lemma WholeIs(cs: seq<Scalar>, m: nat)
    requires |Encode(cs)| <= m
    ensures Whole(cs, m) == |cs|
  {
  }

  lemma WholeShorter(cs: seq<Scalar>, m: nat)
    requires |cs| > 0 && m < |Encode(cs)|
    ensures Whole(cs, m) == Whole(cs[..|cs| - 1], m)
  {
  }

  // The bytes of cs up to its k-th code point, of that, and of the rest.
  lemma EncodeAround(cs: seq<Scalar>, k: nat)
    requires k < |cs|
    ensures |Encode(cs)| == |Encode(cs[..k])| + |EncodeOne(cs[k])| + |Encode(cs[k + 1..])|
  {
    hide EncodeOne, Encode;
    var p, c, q := cs[..k], [cs[k]], cs[k + 1..];
    assert cs == p + c + q;
    EncodeAppend(p + c, q);
    EncodeAppend(p, c);
    EncodeSingle(cs[k]);
  }

  lemma {:induction false} WholeUnique(cs: seq<Scalar>, k: nat, p: nat)
    requires k <= |cs| && (if k == |cs| then p == 0 else p < |EncodeOne(cs[k])|)
    ensures Whole(cs, |Encode(cs[..k])| + p) == k
    decreases |cs|
  {
    hide EncodeOne, Encode, Whole;
    if k == |cs| {
      assert cs[..k] == cs;
      WholeIs(cs, |Encode(cs)|);
    } else {
      var shorter := cs[..|cs| - 1];
      assert shorter[..k] == cs[..k];
      EncodeAround(cs, k);
      WholeShorter(cs, |Encode(cs[..k])| + p);
      if k == |shorter| {
        assert cs[..k] == shorter;
        WholeIs(shorter, |Encode(cs[..k])| + p);
      } else {
        WholeUnique(shorter, k, p);
      }
    }
  }

  lemma {:induction false} TextGood(s: State, cs: seq<Scalar>, k: nat, t: seq<Byte>, start: nat)
    returns (j: nat, q: nat)
    requires s.Valid() && k <= |cs| && start < |t| && t[start..] <= Encode(cs[k..])
    ensures var (u, r) := TextStep(s, t, start);
      && At(u, cs, j, q) && k <= j && r == Units(cs[k..j])
      && |t| - start == |Encode(cs[k..j])| + q
  {
    hide EncodeOne, Encode, Decode, Units, CutForm;
    var rest := cs[k..];
    var m := |t| - start;
    q := WholeSplit(rest, m);
    var w := Whole(rest, m);
    j := k + w;
    assert rest[..w] == cs[k..j];
    assert t[start..] == Encode(rest)[..m];
    DecodeEncode(cs[k..j]);
    if q > 0 {
      assert t[|t| - q..] == t[start..][m - q..] == EncodeOne(cs[j])[..q];
      CutAt(t, start, cs[j], q);
      assert t[start..|t| - q] == t[start..][..m - q] == Encode(cs[k..j]);
    } else {
      LastWhole(cs, k, j, t, start);
      assert t[start..] == Encode(cs[k..j]);
    }
  }

  lemma LastWhole(cs: seq<Scalar>, k: nat, j: nat, t: seq<Byte>, start: nat)
    requires k <= j <= |cs| && start < |t| && t[start..] == Encode(cs[k..j])
    ensures CutForm(t, start).1 == 0
  {
    hide EncodeOne, CutForm;
    var c, n := cs[k..j][j - k - 1], |EncodeOne(cs[k..j][j - k - 1])|;
    assert t[|t| - n..] == t[start..][|t| - start - n..] == EncodeOne(c) == EncodeOne(c)[..n];
    CutAt(t, start, c, n);
  }

  // The next chunk of well-formed text when p bytes of cs[k] are kept.
  ghost predicate Follows(t: seq<Byte>, cs: seq<Scalar>, k: nat, p: nat) {
    k <= |cs| && p <= |Encode(cs[k..])| && t <= Encode(cs[k..])[p..]
  }

  lemma EncodeFirst(cs: seq<Scalar>, k: nat)
    requires k < |cs|
    ensures Encode(cs[k..]) == EncodeOne(cs[k]) + Encode(cs[k + 1..])
  {
    hide EncodeOne;
    assert cs[k..] == [cs[k]] + cs[k + 1..];
    EncodeAppend([cs[k]], cs[k + 1..]);
    EncodeSingle(cs[k]);
  }

  lemma FillGood(s: State, cs: seq<Scalar>, k: nat, p: nat, t: seq<Byte>)
    requires At(s, cs, k, p) && p > 0 && |t| > 0 && Follows(t, cs, k, p)
    ensures var (f, e) := FillStep(s, t);
      if s.lastNeed <= |t| then f.Valid() && f.lastNeed == s.lastNeed && e == Some(UnitsOf(cs[k]))
      else e == None && At(f, cs, k, p + |t|)
  {
    hide EncodeOne, Encode, Decode, Units, UnitsOf;
    var b, need := EncodeOne(cs[k]), s.lastNeed;
    EncodeFirst(cs, k);
    Kinds(cs[k]);
    var n := if need <= |t| then need else |t|;
    forall i | 0 <= i < n
      ensures t[i] == b[p + i] && Continuation(t[i])
    {
      assert t[i] == Encode(cs[k..])[p..][i] == (b + Encode(cs[k + 1..]))[p + i];
    }
    PutPrefix(s.lastChar, p, t, n, b);
    if need <= |t| {
      DecodeEncode([cs[k]]);
      EncodeSingle(cs[k]);
      assert b[..p + n] == b;
    } else {
      assert t[..n] == t;
    }
  }

  // With n more bytes of b copied behind the first p, the first p + n bytes are those of b.
  lemma PutPrefix(a: seq<Byte>, p: nat, t: seq<Byte>, n: nat, b: seq<Byte>)
    requires n <= |t| && p + n <= |a| && p + n <= |b| && a[..p] == b[..p]
    requires forall i | 0 <= i < n :: t[i] == b[p + i]
    ensures Put(a, p, t[..n])[..p + n] == b[..p + n]
  {
    var all := Put(a, p, t[..n]);
    forall i | 0 <= i < p + n
      ensures all[i] == b[i]
    {
      if i < p {
        assert all[i] == a[..p][i] == b[..p][i];
      } else {
        assert all[i] == t[..n][i - p] == b[p + (i - p)];
      }
    }
  }

  // One chunk of well-formed text.
  lemma WriteGood(s: State, cs: seq<Scalar>, k: nat, p: nat, t: seq<Byte>) returns (j: nat, q: nat)
    requires At(s, cs, k, p) && Follows(t, cs, k, p)
    ensures var (u, r) := WriteStep(s, t);
      && At(u, cs, j, q) && k <= j && r == Units(cs[k..j])
      && |Encode(cs[..j])| + q == |Encode(cs[..k])| + p + |t|
  {
    hide EncodeOne, Encode, Decode, Units, UnitsOf, CutForm;
    j, q := k, p;
    if |t| == 0 {
      Nothing(cs, k);
    } else if p == 0 {
      j, q := TextGood(s, cs, k, t, 0);
      Lengths(cs, k, j);
    } else {
      FillGood(s, cs, k, p, t);
      EncodeFirst(cs, k);
      var need := s.lastNeed;
      var f := FillStep(s, t).0;
      if need < |t| {
        assert t[need..] <= Encode(cs[k + 1..]) by {
          var rest := Encode(cs[k..])[p..];
          assert rest[need..] == Encode(cs[k + 1..]);
        }
        j, q := TextGood(f.(lastNeed := 0), cs, k + 1, t, need);
        Lengths(cs, k, j);
        FirstUnits(cs, k, j);
      } else if need == |t| {
        j, q := k + 1, 0;
        Lengths(cs, k, j);
        FirstUnits(cs, k, j);
        Nothing(cs, j);
      } else {
        q := p + |t|;
        Nothing(cs, k);
      }
    }
  }

  lemma Nothing(cs: seq<Scalar>, k: nat)
    requires k <= |cs|
    ensures Units(cs[k..k]) == [] && Encode(cs[k..k]) == []
  {
  }

  lemma Lengths(cs: seq<Scalar>, k: nat, j: nat)
    requires k <= j <= |cs|
    ensures |Encode(cs[..j])| == |Encode(cs[..k])| + |Encode(cs[k..j])|
    ensures Units(cs[..j]) == Units(cs[..k]) + Units(cs[k..j])
  {
    EncodeAppend(cs[..k], cs[k..j]);
    assert cs[..k] + cs[k..j] == cs[..j];
  }

  lemma FirstUnits(cs: seq<Scalar>, k: nat, j: nat)
    requires k < j <= |cs|
    ensures Units(cs[k..j]) == UnitsOf(cs[k]) + Units(cs[k + 1..j])
    ensures |Encode(cs[k..j])| == |EncodeOne(cs[k])| + |Encode(cs[k + 1..j])|
  {
    assert cs[k..j] == [cs[k]] + cs[k + 1..j];
    EncodeAppend([cs[k]], cs[k + 1..j]);
    EncodeSingle(cs[k]);
  }

  lemma {:induction false} WriteAllGood(s: State, cs: seq<Scalar>, k: nat, p: nat, chunks: seq<seq<Byte>>)
    returns (j: nat, q: nat)
    requires At(s, cs, k, p) && Follows(Flat(chunks), cs, k, p)
    ensures var (u, r) := WriteAll(s, chunks);
      && At(u, cs, j, q) && k <= j && r == Units(cs[k..j])
      && |Encode(cs[..j])| + q == |Encode(cs[..k])| + p + |Flat(chunks)|
    decreases |chunks|
  {
    hide EncodeOne, Encode, Decode, Units, UnitsOf, CutForm, WriteStep;
    if chunks == [] {
      j, q := k, p;
      Nothing(cs, k);
    } else {
      var t := chunks[0];
      WriteValid(s, t);
      assert Flat(chunks) == t + Flat(chunks[1..]);
      var i, o := WriteGood(s, cs, k, p, t);
      StillFollows(cs, k, p, t, Flat(chunks[1..]), i, o);
      j, q := WriteAllGood(WriteStep(s, t).0, cs, i, o, chunks[1..]);
      JoinUnits(cs, k, i, j);
    }
  }

  lemma StillFollows(cs: seq<Scalar>, k: nat, p: nat, t: seq<Byte>, rest: seq<Byte>, i: nat, o: nat)
    requires Follows(t + rest, cs, k, p) && k <= i <= |cs| && |Encode(cs[..i])| + o == |Encode(cs[..k])| + p + |t|
    ensures Follows(t, cs, k, p) && Follows(rest, cs, i, o)
  {
    hide EncodeOne, Encode, Units;
    Lengths(cs, k, i);
    assert cs[k..] == cs[k..i] + cs[i..];
    EncodeAppend(cs[k..i], cs[i..]);
    var all := Encode(cs[k..]);
    var n := |Encode(cs[k..i])|;
    assert t <= all[p..] by { assert (t + rest)[..|t|] == t; }
    assert n + o == p + |t|;
    assert all[n..] == Encode(cs[i..]);
    assert all[n..][o..] == all[p..][|t|..];
    assert rest == (t + rest)[|t|..];
    assert rest <= all[p..][|t|..];
  }

  lemma JoinUnits(cs: seq<Scalar>, k: nat, i: nat, j: nat)
    requires k <= i <= j <= |cs|
    ensures Units(cs[k..j]) == Units(cs[k..i]) + Units(cs[i..j])
  {
    assert cs[k..j] == cs[k..i] + cs[i..j];
    EncodeAppend(cs[k..i], cs[i..j]);
  }

  // A decoder that keeps nothing, whatever is in lastChar.
  predicate Fresh(s: State) {
    s.Valid() && s.lastNeed == 0
  }

  /**
   However well-formed UTF-8 is cut into chunks, empty ones included, what write returned and the
   result of end together are its decoding in one go.
   */
  lemma ChunksDoNotMatter(d: State, s: seq<Byte>, cs: seq<Scalar>, chunks: seq<seq<Byte>>)
    requires Fresh(d) && s == Encode(cs) && Flat(chunks) == s
    ensures var (t, r) := WriteAll(d, chunks); r + Ended(t) == Decode(s) == Units(cs)
  {
    hide Encode, Decode, Units, WriteAll;
    CutText(d, cs, chunks, |s|);
    WholeIs(cs, |s|);
    assert s[..|s|] == s && cs[..|cs|] == cs;
    DecodeEncode(cs);
  }

  /**
   For well-formed UTF-8 cut off anywhere: the code points that are whole, and one replacement
   character if the cut is inside one.
   */
  lemma CutText(d: State, cs: seq<Scalar>, chunks: seq<seq<Byte>>, m: nat)
    requires Fresh(d) && m <= |Encode(cs)| && Flat(chunks) == Encode(cs)[..m]
    ensures var (t, r) := WriteAll(d, chunks);
      var w := Whole(cs, m);
      r + Ended(t) == Units(cs[..w]) + (if |Encode(cs[..w])| == m then [] else [REPLACEMENT])
  {
    hide EncodeOne, Decode, Units, WriteAll;
    assert cs[0..] == cs && cs[..0] == [];
    var j, q := WriteAllGood(d, cs, 0, 0, chunks);
    assert cs[0..j] == cs[..j];
    WholeUnique(cs, j, q);
  }

  /**
   Decoding in one go gives as many replacement characters as bytes are left over, so it agrees
   unless two or three are.
   */
  lemma OneGoOnCutText(d: State, cs: seq<Scalar>, chunks: seq<seq<Byte>>, m: nat)
    requires Fresh(d) && m <= |Encode(cs)| && Flat(chunks) == Encode(cs)[..m]
    ensures var (t, r) := WriteAll(d, chunks);
      r + Ended(t) == Decode(Encode(cs)[..m]) <==> m - |Encode(cs[..Whole(cs, m)])| <= 1
  {
    hide EncodeOne, WriteAll, Units;
    CutText(d, cs, chunks, m);
    var q := WholeSplit(cs, m);
    var w := Whole(cs, m);
    if w < |cs| {
      DecodeCut(cs[..w], EncodeOne(cs[w])[..q], cs[w]);
      assert |Replacements(q)| == q;
      if q == 1 { assert Replacements(q) == [REPLACEMENT]; }
      if q > 1 { assert |Units(cs[..w]) + Replacements(q)| > |Units(cs[..w]) + [REPLACEMENT]|; }
    } else {
      DecodeEncode(cs);
      assert cs[..w] == cs && Encode(cs)[..m] == Encode(cs);
    }
  }

  /** Two of the three bytes of U+20AC: the decoder gives one replacement character, decoding in one go two. */
  lemma TwoBytesLeftOver()
    ensures var (d, cut) := (State(0, 0, [0, 0, 0, 0]), EncodeOne(0x20AC)[..2]);
      && cut == [0xE2, 0x82]
      && (var (t, r) := WriteAll(d, [cut]); r + Ended(t) == [REPLACEMENT])
      && Decode(cut) == [REPLACEMENT, REPLACEMENT]
  {
    hide EncodeOne, WriteAll, Units, Decode, Whole;
    EuroBytes();
    var d, c, cs, cut := State(0, 0, [0, 0, 0, 0]), 0x20AC, [0x20AC], EncodeOne(0x20AC)[..2];
    EncodeSingle(c);
    FlatOne(cut);
    WholeUnique(cs, 0, 2);
    Nothing(cs, 0);
    assert cs[..0] == cs[0..0] == [];
    CutText(d, cs, [cut], 2);
    DecodeTail(cut, c);
    assert Replacements(2) == [REPLACEMENT, REPLACEMENT];
  }

  lemma FlatOne(t: seq<Byte>)
    ensures Flat([t]) == t
  {
    assert Flat([t][1..]) == [];
  }

  lemma EuroBytes()
    ensures EncodeOne(0x20AC) == [0xE2, 0x82, 0xAC]
  {
  }

  ghost function Replacements(n: nat): seq<Unit> {
    seq(n, _ => REPLACEMENT)
  }

  lemma {:induction false} DecodeCut(cs: seq<Scalar>, b: seq<Byte>, c: Scalar)
    requires |b| < |EncodeOne(c)| && b == EncodeOne(c)[..|b|]
    ensures Decode(Encode(cs) + b) == Units(cs) + Replacements(|b|)
    decreases |cs|
  {
    hide EncodeOne, ReadOne, Decode, Replacements, UnitsOf;
    if |cs| == 0 {
      DecodeTail(b, c);
      assert Encode(cs) + b == b && Units(cs) + Replacements(|b|) == Replacements(|b|);
    } else {
      hide Encode, Units;
      var first, rest := cs[0], cs[1..];
      assert cs == [first] + rest;
      EncodeAppend([first], rest);
      EncodeSingle(first);
      var more := Encode(rest) + b;
      assert Encode(cs) + b == EncodeOne(first) + more;
      ReadEncoded(first, more);
      assert (EncodeOne(first) + more)[|EncodeOne(first)|..] == more;
      DecodeFirst(EncodeOne(first) + more);
      DecodeCut(rest, b, c);
      assert UnitsOf(first) + (Units(rest) + Replacements(|b|)) == UnitsOf(first) + Units(rest) + Replacements(|b|);
    }
  }

  // A cut form is nothing but replacement characters, one for each byte.
  lemma DecodeTail(b: seq<Byte>, c: Scalar)
    requires |b| < |EncodeOne(c)| && b == EncodeOne(c)[..|b|]
    ensures Decode(b) == Replacements(|b|)
  {
    hide Decode;
    DecodeNothing();
    if |b| > 0 {
      CutShort(b, c);
      DecodeFirst(b);
      Continuations(b[1..]);
      assert Replacements(|b|) == [REPLACEMENT] + Replacements(|b| - 1);
    }
  }

  lemma CutShort(b: seq<Byte>, c: Scalar)
    requires 0 < |b| < |EncodeOne(c)| && b == EncodeOne(c)[..|b|]
    ensures ReadOne(b) == (None, 1) && forall i | 0 <= i < |b| - 1 :: Continuation(b[1..][i])
  {
    Kinds(c);
    assert forall i | 0 <= i < |b| :: b[i] == EncodeOne(c)[i];
  }

  lemma {:induction false} Continuations(b: seq<Byte>)
    requires forall i | 0 <= i < |b| :: Continuation(b[i])
    ensures Decode(b) == Replacements(|b|)
    decreases |b|
  {
    if |b| > 0 {
      DecodeFirst(b);
      Continuations(b[1..]);
      assert Replacements(|b|) == [REPLACEMENT] + Replacements(|b| - 1);
    }
  }

  // ---------------------------------------------------------------------
  // The class
  // ---------------------------------------------------------------------

  class Utf8Decoder {
    var lastNeed: nat
    var lastTotal: nat
    const lastChar: array<Byte>

    ghost predicate Valid()
      reads this, lastChar
    {
      lastChar.Length == 4 && lastNeed <= lastTotal <= 4
    }

    ghost function Now(): (s: State)
      requires Valid()
      reads this, lastChar
      ensures s.Valid()
    {
      State(lastNeed, lastTotal, lastChar[..])
    }

    constructor ()
      ensures Valid() && Fresh(Now()) && fresh(lastChar)
    {
      lastNeed, lastTotal := 0, 0;
      lastChar := new Byte[4];
    }

    // t.copy(lastChar, at, from, upto)
    method Copy(t: seq<Byte>, at: nat, from: nat, upto: nat)
      requires from <= upto <= |t| && at + upto - from <= lastChar.Length
      modifies lastChar
      ensures lastChar[..] == Put(old(lastChar[..]), at, t[from..upto])
    {
      var n := from;
      while n < upto
        invariant from <= n <= upto
        invariant lastChar[..] == Put(old(lastChar[..]), at, t[from..n])
      {
        lastChar[at + n - from] := t[n];
        n := n + 1;
      }
    }

    // utf8CheckIncomplete
    method CheckIncomplete(t: seq<Byte>, start: nat) returns (r: nat)
      requires lastNeed == 0
      modifies this`lastNeed
      ensures (r, lastNeed) == CutForm(t, start)
    {
      var n := |t| - 1;
      if n < start {
        return 0;
      }
      var i := Kind(t[n]);
      if i >= 0 {
        if i > 0 { lastNeed := i - 1; }
        return i;
      }
      n := n - 1;
      if n < start || i == -2 {
        return 0;
      }
      i := Kind(t[n]);
      if i >= 0 {
        if i > 0 { KindRange(t[n]); lastNeed := i - 2; }
        return i;
      }
      n := n - 1;
      if n < start || i == -2 {
        return 0;
      }
      i := Kind(t[n]);
      if i >= 0 {
        if i > 0 {
          if i == 2 { i := 0; } else { KindRange(t[n]); lastNeed := i - 3; }
        }
        return i;
      }
      r := 0;
    }

    // utf8Text
    method Text(t: seq<Byte>, start: nat) returns (r: seq<Unit>)
      requires Valid() && lastNeed == 0 && start <= |t|
      modifies this, lastChar
      ensures Valid() && (Now(), r) == TextStep(old(Now()), t, start)
    {
      hide Decode, CutForm;
      CutRange(t, start);
      var total := CheckIncomplete(t, start);
      if lastNeed == 0 {
        r := DecodeBytes(t, start, |t|);
        assert Slice(t, start, |t|) == t[start..];
        return;
      }
      lastTotal := total;
      var n := |t| - (total - lastNeed);
      Copy(t, 0, n, |t|);
      r := DecodeBytes(t, start, n);
      assert Slice(t, start, n) == t[start..n] && t[n..|t|] == t[n..];
    }

    // utf8FillLast, after utf8CheckExtraBytes
    method FillLast(t: seq<Byte>) returns (r: Option<seq<Unit>>)
      requires Valid() && lastNeed > 0 && |t| > 0
      modifies this, lastChar
      ensures Valid() && (Now(), r) == FillStep(old(Now()), t)
    {
      hide Decode, Continuation, Put;
      var p := lastTotal - lastNeed;
      if !Continuation(t[0]) {
        lastNeed := 0;
        return Some([REPLACEMENT]);
      }
      if lastNeed > 1 && |t| > 1 {
        if !Continuation(t[1]) {
          lastNeed := 1;
          return Some([REPLACEMENT]);
        }
        if lastNeed > 2 && |t| > 2 {
          if !Continuation(t[2]) {
            lastNeed := 2;
            return Some([REPLACEMENT]);
          }
        }
      }
      if lastNeed <= |t| {
        Copy(t, p, 0, lastNeed);
        var text := DecodeBytes(lastChar[..], 0, lastTotal);
        assert t[0..lastNeed] == t[..lastNeed];
        assert Slice(lastChar[..], 0, lastTotal) == lastChar[..][..lastTotal];
        return Some(text);
      }
      Copy(t, p, 0, |t|);
      assert t[0..|t|] == t;
      lastNeed := lastNeed - |t|;
      r := None;
    }

    method Write(t: seq<Byte>) returns (r: seq<Unit>)
      requires Valid()
      modifies this, lastChar
      ensures Valid() && (Now(), r) == WriteStep(old(Now()), t)
    {
      hide Decode, CutForm, FillStep, TextStep;
      if |t| == 0 {
        return [];
      }
      var e: seq<Unit> := [];
      var n := 0;
      if lastNeed > 0 {
        var filled := FillLast(t);
        if filled == None {
          return [];
        }
        e := filled.value;
        n := lastNeed;
        lastNeed := 0;
      }
      if n < |t| {
        r := Text(t, n);
        assert [] + r == r;
        r := e + r;
      } else {
        r := e;
      }
    }

    method End() returns (r: seq<Unit>)
      ensures r == if lastNeed > 0 then [REPLACEMENT] else []
    {
      r := if lastNeed > 0 then [REPLACEMENT] else [];
    }
  }

  /** A decoder fed with chunks of well-formed text, cut off anywhere. */
  method DecodeChunks(chunks: seq<seq<Byte>>, ghost cs: seq<Scalar>) returns (text: seq<Unit>)
    requires Flat(chunks) <= Encode(cs)
    ensures var w := Whole(cs, |Flat(chunks)|);
      text == Units(cs[..w]) + (if |Encode(cs[..w])| == |Flat(chunks)| then [] else [REPLACEMENT])
    ensures Flat(chunks) == Encode(cs) ==> text == Decode(Flat(chunks))
  {
    hide Encode, Decode, Units, Whole;
    var d := new Utf8Decoder();
    ghost var first := d.Now();
    text := [];
    var n := 0;
    WriteAllNone(first);
    assert chunks[..0] == [] && chunks[..|chunks|] == chunks;
    while n < |chunks|
      invariant n <= |chunks| && d.Valid() && fresh(d) && fresh(d.lastChar)
      invariant (d.Now(), text) == WriteAll(first, chunks[..n])
    {
      WriteAllMore(first, chunks[..n], chunks[n]);
      assert chunks[..n + 1] == chunks[..n] + [chunks[n]];
      var r := d.Write(chunks[n]);
      text := text + r;
      n := n + 1;
    }
    ghost var all := text;
    var r := d.End();
    text := text + r;
    CutText(first, cs, chunks, |Flat(chunks)|);
    if Flat(chunks) == Encode(cs) { ChunksDoNotMatter(first, Encode(cs), cs, chunks); }
  }

  lemma WriteAllNone(s: State)
    requires s.Valid()
    ensures WriteAll(s, []) == (s, [])
  {
  }

  lemma {:induction false} WriteAllMore(s: State, chunks: seq<seq<Byte>>, t: seq<Byte>)
    requires s.Valid()
    ensures WriteAll(s, chunks).0.Valid()
    ensures var (u, r) := WriteAll(s, chunks);
      WriteAll(s, chunks + [t]) == (WriteStep(u, t).0, r + WriteStep(u, t).1)
    decreases |chunks|
  {
    hide WriteStep;
    var all := chunks + [t];
    if chunks == [] {
      WriteValid(s, t);
      assert all[1..] == [] && all[0] == t;
      WriteAllNone(WriteStep(s, t).0);
      assert WriteStep(s, t).1 + [] == [] + WriteStep(s, t).1;
    } else {
      WriteValid(s, chunks[0]);
      var (v, q) := WriteStep(s, chunks[0]);
      WriteAllMore(v, chunks[1..], t);
      assert all[1..] == chunks[1..] + [t] && all[0] == chunks[0];
      var (u, r) := WriteAll(v, chunks[1..]);
      assert q + (r + WriteStep(u, t).1) == q + r + WriteStep(u, t).1;
    }
  }
}
