/**
 The UTF-8 functions q (encode) and N (decode) of module 48764, and the form of UTF-8 in
 section 3 of RFC 3629. A string is a sequence of 16-bit units; shifts and masks are written as
 division and remainder.
 */
module Utf8 {
  import opened Wrappers

  const REPLACEMENT: Unit := 0xFFFD

  // ---------------------------------------------------------------------
  // UTF-16
  // ---------------------------------------------------------------------

  predicate High(u: Unit) {
    0xD800 <= u < 0xDC00
  }

  predicate Low(u: Unit) {
    0xDC00 <= u < 0xE000
  }

  // A Unicode scalar value.
  type Scalar = c: int | 0 <= c < 0xD800 || 0xE000 <= c < 0x11_0000

  function Combine(h: Unit, l: Unit): Scalar
    requires High(h) && Low(l)
  {
    0x1_0000 + (h - 0xD800) * 0x400 + (l - 0xDC00)
  }

  // The code points of a string, a lone surrogate read as the replacement character.
  function Scalars(s: seq<Unit>): seq<Scalar> {
    var n := |s|;
    if n == 0 then []
    else if n >= 2 && High(s[n - 2]) && Low(s[n - 1]) then Scalars(s[..n - 2]) + [Combine(s[n - 2], s[n - 1])]
    else if High(s[n - 1]) || Low(s[n - 1]) then Scalars(s[..n - 1]) + [REPLACEMENT]
    else Scalars(s[..n - 1]) + [s[n - 1]]
  }

  function UnitsOf(c: Scalar): seq<Unit> {
    if c < 0x1_0000 then [c] else [0xD800 + (c - 0x1_0000) / 0x400, 0xDC00 + (c - 0x1_0000) % 0x400]
  }

  function Units(cs: seq<Scalar>): seq<Unit> {
    if |cs| == 0 then [] else Units(cs[..|cs| - 1]) + UnitsOf(cs[|cs| - 1])
  }

  // Every surrogate is half of a pair.
  predicate Paired(s: seq<Unit>) {
    forall i {:trigger s[i]} | 0 <= i < |s| ::
      && (High(s[i]) ==> i + 1 < |s| && Low(s[i + 1]))
      && (Low(s[i]) ==> i > 0 && High(s[i - 1]))
  }

  lemma PairedAt(s: seq<Unit>, i: nat)
    requires Paired(s) && i < |s|
    ensures High(s[i]) ==> i + 1 < |s| && Low(s[i + 1])
    ensures Low(s[i]) ==> i > 0 && High(s[i - 1])
  {
    var _ := s[i];
  }

  lemma LastBack(s: seq<Unit>)
    requires |s| > 0 && !High(s[|s| - 1]) && (Low(s[|s| - 1]) ==> |s| >= 2 && High(s[|s| - 2]))
    ensures var n := |s|;
      if Low(s[n - 1]) then s == s[..n - 2] + UnitsOf(Combine(s[n - 2], s[n - 1]))
      else s == s[..n - 1] + UnitsOf(s[n - 1])
  {
  }

  // Without its last code point a string is as paired as before.
  lemma PairedInit(s: seq<Unit>, m: nat)
    requires Paired(s) && |s| > 0 && m == (if Low(s[|s| - 1]) then |s| - 2 else |s| - 1)
    ensures Paired(s[..m]) && !High(s[|s| - 1]) && (Low(s[|s| - 1]) ==> High(s[|s| - 2]))
  {
    hide High, Low;
    var n, r := |s|, s[..m];
    PairedAt(s, n - 1);
    if n > 1 { PairedAt(s, n - 2); }
    if m > 0 { PairedAt(s, m); }
    forall i {:trigger r[i]} | 0 <= i < |r|
      ensures (High(r[i]) ==> i + 1 < |r| && Low(r[i + 1])) && (Low(r[i]) ==> i > 0 && High(r[i - 1]))
    {
      PairedAt(s, i);
      Apart(s[m]);
    }
  }

  lemma Apart(u: Unit)
    ensures !(High(u) && Low(u))
  {
  }

  lemma {:induction false} UnitsScalars(s: seq<Unit>)
    requires Paired(s)
    ensures Units(Scalars(s)) == s
    decreases |s|
  {
    hide UnitsOf, Combine, High, Low, Paired;
    var n := |s|;
    if n > 0 {
      LowPaired(s);
      var m := if Low(s[n - 1]) then n - 2 else n - 1;
      PairedInit(s, m);
      UnitsScalars(s[..m]);
      var cs := Scalars(s);
      assert cs[..|cs| - 1] == Scalars(s[..m]);
      LastBack(s);
    }
  }

  lemma LowPaired(s: seq<Unit>)
    requires Paired(s) && |s| > 0
    ensures Low(s[|s| - 1]) ==> |s| >= 2
  {
    PairedAt(s, |s| - 1);
  }

  // ---------------------------------------------------------------------
  // UTF-8
  // ---------------------------------------------------------------------

  function EncodeOne(c: Scalar): (r: seq<Byte>)
    ensures 1 <= |r| <= 4
  {
    if c < 0x80 then [c]
    else if c < 0x800 then [0xC0 + c / 0x40, 0x80 + c % 0x40]
    else if c < 0x1_0000 then [0xE0 + c / 0x1000, 0x80 + c / 0x40 % 0x40, 0x80 + c % 0x40]
    else [0xF0 + c / 0x4_0000, 0x80 + c / 0x1000 % 0x40, 0x80 + c / 0x40 % 0x40, 0x80 + c % 0x40]
  }

  function Encode(cs: seq<Scalar>): seq<Byte> {
    if |cs| == 0 then [] else Encode(cs[..|cs| - 1]) + EncodeOne(cs[|cs| - 1])
  }

  predicate Continuation(b: Byte) {
    0x80 <= b < 0xC0
  }

  // The payload bits of a form of two, three or four bytes.
  function Two(a: int, b: int): int {
    a % 0x20 * 0x40 + b % 0x40
  }

  function Three(a: int, b: int, c: int): int {
    a % 0x10 * 0x1000 + b % 0x40 * 0x40 + c % 0x40
  }

  function Four(a: int, b: int, c: int, d: int): int {
    a % 0x10 * 0x4_0000 + b % 0x40 * 0x1000 + c % 0x40 * 0x40 + d % 0x40
  }

  // What N reads at the start of b: the code point, if a valid form is there, and its length.
  function ReadOne(b: seq<Byte>): (r: (Option<Scalar>, nat))
    requires |b| > 0
    ensures 1 <= r.1 <= 4 && r.1 <= |b|
  {
    var n := if b[0] > 0xEF then 4 else if b[0] > 0xDF then 3 else if b[0] > 0xBF then 2 else 1;
    if |b| < n then (None, 1)
    else if n == 1 then (if b[0] < 0x80 then (Some(b[0]), 1) else (None, 1))
    else if n == 2 then
      var c := Two(b[0], b[1]);
      if Continuation(b[1]) && c > 0x7F then (Some(c), 2) else (None, 1)
    else if n == 3 then
      var c := Three(b[0], b[1], b[2]);
      if Continuation(b[1]) && Continuation(b[2]) && c > 0x7FF && (c < 0xD800 || c > 0xDFFF) then (Some(c), 3)
      else (None, 1)
    else
      var c := Four(b[0], b[1], b[2], b[3]);
      if Continuation(b[1]) && Continuation(b[2]) && Continuation(b[3]) && 0xFFFF < c < 0x11_0000 then (Some(c), 4)
      else (None, 1)
  }

  // One replacement character for each byte that starts no valid form.
  function Decode(b: seq<Byte>): seq<Unit>
    decreases |b|
  {
    if |b| == 0 then []
    else
      var (c, n) := ReadOne(b);
      (if c == None then [REPLACEMENT] else UnitsOf(c.value)) + Decode(b[n..])
  }

  lemma TwoBack(c: int)
    requires 0x80 <= c < 0x800
    ensures Two(0xC0 + c / 0x40, 0x80 + c % 0x40) == c
  {
    assert c == c / 0x40 * 0x40 + c % 0x40;
  }

  lemma ThreeBack(c: int)
    requires 0x800 <= c < 0x1_0000
    ensures Three(0xE0 + c / 0x1000, 0x80 + c / 0x40 % 0x40, 0x80 + c % 0x40) == c
  {
    assert c / 0x40 == c / 0x1000 * 0x40 + c / 0x40 % 0x40;
  }

  lemma FourBack(c: int)
    requires 0x1_0000 <= c < 0x11_0000
    ensures Four(0xF0 + c / 0x4_0000, 0x80 + c / 0x1000 % 0x40, 0x80 + c / 0x40 % 0x40, 0x80 + c % 0x40) == c
  {
    Digits(c);
    var a, b, d, e := c / 0x4_0000, c / 0x1000 % 0x40, c / 0x40 % 0x40, c % 0x40;
    assert (0xF0 + a) % 0x10 == a && (0x80 + b) % 0x40 == b && (0x80 + d) % 0x40 == d && (0x80 + e) % 0x40 == e;
  }

  lemma Digits(c: int)
    requires 0x1_0000 <= c < 0x11_0000
    ensures c == c / 0x4_0000 * 0x4_0000 + c / 0x1000 % 0x40 * 0x1000 + c / 0x40 % 0x40 * 0x40 + c % 0x40
    ensures 0 <= c / 0x4_0000 < 0x10
  {
    assert c / 0x40 == c / 0x1000 * 0x40 + c / 0x40 % 0x40;
    assert c / 0x1000 == c / 0x4_0000 * 0x40 + c / 0x1000 % 0x40;
  }

  lemma ReadEncoded(c: Scalar, rest: seq<Byte>)
    ensures ReadOne(EncodeOne(c) + rest) == (Some(c), |EncodeOne(c)|)
  {
    hide Two, Three, Four;
    var b := EncodeOne(c) + rest;
    assert forall i | 0 <= i < |EncodeOne(c)| :: b[i] == EncodeOne(c)[i];
    if 0x80 <= c < 0x800 {
      TwoBack(c);
    } else if 0x800 <= c < 0x1_0000 {
      ThreeBack(c);
    } else if 0x1_0000 <= c {
      FourBack(c);
    }
  }

  // What N reads was encoded: no overlong form, no surrogate, nothing above U+10FFFF.
  lemma ReadWasEncoded(b: seq<Byte>)
    requires |b| > 0 && ReadOne(b).0.Some?
    ensures EncodeOne(ReadOne(b).0.value) <= b
  {
    hide Two, Three, Four, Continuation;
    if b[0] > 0xEF {
      FourForth(b[0], b[1], b[2], b[3]);
    } else if b[0] > 0xDF {
      ThreeForth(b[0], b[1], b[2]);
    } else if b[0] > 0xBF {
      TwoForth(b[0], b[1]);
    }
  }

  lemma TwoForth(a: Byte, b: Byte)
    requires 0xC0 <= a < 0xE0 && Continuation(b)
    ensures var v := Two(a, b); v / 0x40 == a - 0xC0 && v % 0x40 == b - 0x80 && 0 <= v < 0x800
  {
    assert a % 0x20 == a - 0xC0 && b % 0x40 == b - 0x80;
  }

  lemma ThreeForth(a: Byte, b: Byte, c: Byte)
    requires 0xE0 <= a < 0xF0 && Continuation(b) && Continuation(c)
    ensures var v := Three(a, b, c);
      v / 0x1000 == a - 0xE0 && v / 0x40 % 0x40 == b - 0x80 && v % 0x40 == c - 0x80 && 0 <= v < 0x1_0000
  {
    assert a % 0x10 == a - 0xE0 && b % 0x40 == b - 0x80 && c % 0x40 == c - 0x80;
    var v, h := Three(a, b, c), (a - 0xE0) * 0x40 + (b - 0x80);
    assert v == h * 0x40 + (c - 0x80);
    assert v / 0x40 == h && h / 0x40 == a - 0xE0;
  }

  lemma FourForth(a: Byte, b: Byte, c: Byte, d: Byte)
    requires 0xF0 <= a && Continuation(b) && Continuation(c) && Continuation(d)
    ensures var v := Four(a, b, c, d);
      && v / 0x4_0000 == a - 0xF0 && v / 0x1000 % 0x40 == b - 0x80 && v / 0x40 % 0x40 == c - 0x80
      && v % 0x40 == d - 0x80 && 0 <= v
  {
    assert a % 0x10 == a - 0xF0 && b % 0x40 == b - 0x80 && c % 0x40 == c - 0x80 && d % 0x40 == d - 0x80;
    var v, h := Four(a, b, c, d), (a - 0xF0) * 0x1000 + (b - 0x80) * 0x40 + (c - 0x80);
    assert v == h * 0x40 + (d - 0x80);
    assert v / 0x40 == h;
    var g := (a - 0xF0) * 0x40 + (b - 0x80);
    assert h == g * 0x40 + (c - 0x80);
    assert h / 0x40 == g && v / 0x1000 == g && g / 0x40 == a - 0xF0;
  }

  /**
   Decoding of any bytes at all: where the encoding of a code point is, its units, and on behind it;
   where none is, one replacement character, and on behind the one byte.
   */
  lemma DecodeExactly(b: seq<Byte>)
    requires |b| > 0
    ensures forall c: Scalar | EncodeOne(c) <= b :: Decode(b) == UnitsOf(c) + Decode(b[|EncodeOne(c)|..])
    ensures (forall c: Scalar :: !(EncodeOne(c) <= b)) ==> Decode(b) == [REPLACEMENT] + Decode(b[1..])
  {
    hide ReadOne, EncodeOne, UnitsOf, Decode;
    DecodeFirst(b);
    forall c: Scalar | EncodeOne(c) <= b
      ensures Decode(b) == UnitsOf(c) + Decode(b[|EncodeOne(c)|..])
    {
      assert b == EncodeOne(c) + b[|EncodeOne(c)|..];
      ReadEncoded(c, b[|EncodeOne(c)|..]);
    }
    if ReadOne(b).0.Some? { ReadWasEncoded(b); } else { ReadNone(b); }
  }

  lemma ReadNone(b: seq<Byte>)
    requires |b| > 0 && ReadOne(b).0 == None
    ensures ReadOne(b).1 == 1
  {
    hide Two, Three, Four, Continuation;
  }

  lemma {:induction false} EncodeAppend(a: seq<Scalar>, b: seq<Scalar>)
    ensures Encode(a + b) == Encode(a) + Encode(b)
    ensures Units(a + b) == Units(a) + Units(b)
    decreases |b|
  {
    hide EncodeOne, UnitsOf;
    if |b| == 0 {
      assert a + b == a;
    } else {
      var all, b', c := a + b, b[..|b| - 1], b[|b| - 1];
      EncodeAppend(a, b');
      assert all[..|all| - 1] == a + b' && all[|all| - 1] == c;
      assert Encode(a) + Encode(b') + EncodeOne(c) == Encode(a) + (Encode(b') + EncodeOne(c));
      assert Units(a) + Units(b') + UnitsOf(c) == Units(a) + (Units(b') + UnitsOf(c));
    }
  }

  lemma EncodeSingle(c: Scalar)
    ensures Encode([c]) == EncodeOne(c) && Units([c]) == UnitsOf(c)
  {
    assert [c][..0] == [];
    assert Encode([]) == [] && Units([]) == [];
  }

  /** Decoding what encodes a sequence of code points gives those code points. */
  lemma {:induction false} DecodeEncode(cs: seq<Scalar>)
    ensures Decode(Encode(cs)) == Units(cs)
    decreases |cs|
  {
    if |cs| > 0 {
      var c, rest := cs[0], cs[1..];
      assert cs == [c] + rest;
      EncodeAppend([c], rest);
      EncodeSingle(c);
      ReadEncoded(c, Encode(rest));
      assert (EncodeOne(c) + Encode(rest))[|EncodeOne(c)|..] == Encode(rest);
      DecodeEncode(rest);
    }
  }

  /** Decoding the encoding of a string without lone surrogates returns it. */
  lemma RoundTrip(s: seq<Unit>)
    requires Paired(s)
    ensures Decode(Encode(Scalars(s))) == s
  {
    UnitsScalars(s);
    DecodeEncode(Scalars(s));
  }

  // ---------------------------------------------------------------------
  // Encoding under a budget
  // ---------------------------------------------------------------------

  // The encoding of the longest prefix of cs that fits the budget; None is no limit.
  function Fit(cs: seq<Scalar>, budget: Option<nat>): seq<Byte> {
    if budget == None || |Encode(cs)| <= budget.value then Encode(cs) else Fit(cs[..|cs| - 1], budget)
  }

  /** Fit is the longest: it is some prefix that fits, and no longer prefix does. */
  lemma {:induction false} FitIsLongest(cs: seq<Scalar>, budget: nat) returns (k: nat)
    ensures k <= |cs| && Fit(cs, Some(budget)) == Encode(cs[..k]) && |Encode(cs[..k])| <= budget
    ensures forall j | k < j <= |cs| :: |Encode(cs[..j])| > budget
    decreases |cs|
  {
    if |Encode(cs)| <= budget {
      k := |cs|;
      assert cs[..k] == cs;
    } else {
      var shorter := cs[..|cs| - 1];
      k := FitIsLongest(shorter, budget);
      assert shorter[..k] == cs[..k];
      forall j | k < j <= |cs|
        ensures |Encode(cs[..j])| > budget
      {
        if j == |cs| { assert cs[..j] == cs; } else { assert shorter[..j] == cs[..j]; }
      }
    }
  }

  lemma {:induction false} FitStuck(cs: seq<Scalar>, more: seq<Scalar>, budget: nat)
    requires |Encode(cs)| > budget
    ensures Fit(cs + more, Some(budget)) == Fit(cs, Some(budget))
    decreases |more|
  {
    hide Encode, Fit;
    if |more| == 0 {
      assert cs + more == cs;
    } else {
      var init, last := more[..|more| - 1], more[|more| - 1];
      assert cs + more == cs + init + [last];
      EncodeAppend(cs, more);
      FitShorter(cs + init, last, budget);
      FitStuck(cs, init, budget);
    }
  }

  lemma FitShorter(cs: seq<Scalar>, c: Scalar, budget: nat)
    requires |Encode(cs + [c])| > budget
    ensures Fit(cs + [c], Some(budget)) == Fit(cs, Some(budget))
  {
    hide Encode;
    assert (cs + [c])[..|cs|] == cs;
  }

  // Between two code points: not inside a pair.
  predicate Boundary(s: seq<Unit>, m: nat)
    requires m <= |s|
  {
    m == 0 || m == |s| || !(High(s[m - 1]) && Low(s[m]))
  }

  lemma {:induction false} ScalarsPrefix(s: seq<Unit>, m: nat)
    requires m <= |s| && Boundary(s, m)
    ensures Scalars(s[..m]) <= Scalars(s)
    decreases |s|
  {
    var n := |s|;
    if m == n {
      assert s[..m] == s;
    } else {
      var p := if n >= 2 && High(s[n - 2]) && Low(s[n - 1]) then n - 2 else n - 1;
      assert m <= p;
      assert s[..p][..m] == s[..m];
      ScalarsPrefix(s[..p], m);
    }
  }

  // The last two units are both high surrogates.
  predicate EndsHighHigh(s: seq<Unit>) {
    |s| >= 2 && High(s[|s| - 1]) && High(s[|s| - 2])
  }

  // What the encoder sees: it loses a high surrogate at the end after another one.
  function Seen(s: seq<Unit>): seq<Unit> {
    if EndsHighHigh(s) then s[..|s| - 1] else s
  }

  // (e -= n) > -1, for a budget that may be infinite
  function Spend(e: Option<int>, n: nat): Option<int> {
    if e == None then None else Some(e.value - n)
  }

  predicate Enough(e: Option<int>) {
    e == None || e.value >= 0
  }

  // In the loop of q: o holds what fits of the code points of t, and e is what the budget has left.
  ghost predicate Fitted(o: seq<Byte>, e: Option<int>, t: seq<Scalar>, budget: Option<nat>) {
    && o == Fit(t, budget)
    && e == if budget == None then None else Some(budget.value - |Encode(t)|)
  }

  lemma FitMore(o: seq<Byte>, e: Option<int>, t: seq<Scalar>, budget: Option<nat>, c: Scalar)
    requires Fitted(o, e, t, budget)
    ensures var f := Spend(e, |EncodeOne(c)|); Fitted(if Enough(f) then o + EncodeOne(c) else o, f, t + [c], budget)
  {
    hide EncodeOne, Encode;
    var all := t + [c];
    assert all[..|all| - 1] == t;
    EncodeAppend(t, [c]);
    EncodeSingle(c);
  }

  // The code points of t[..s + 1] when t[s] stands alone, or ends a pair.
  lemma ScalarsMore(t: seq<Unit>, s: nat)
    requires s < |t|
    ensures s > 0 && High(t[s - 1]) && Low(t[s]) ==>
      Scalars(t[..s + 1]) == Scalars(t[..s - 1]) + [Combine(t[s - 1], t[s])]
    ensures !(s > 0 && High(t[s - 1]) && Low(t[s])) ==>
      Scalars(t[..s + 1]) == Scalars(t[..s]) + [if High(t[s]) || Low(t[s]) then REPLACEMENT else t[s]]
  {
    var p := t[..s + 1];
    assert p[..s] == t[..s] && p[s] == t[s];
    if s > 0 { assert p[..s - 1] == t[..s - 1] && p[s - 1] == t[s - 1]; }
  }

  // The lead of q is a high surrogate that may still find its low one.
  ghost predicate Leading(t: seq<Unit>, s: nat, lead: Option<Unit>)
    requires s <= |t|
  {
    if lead == None then s == 0 || !High(t[s - 1]) || (s == |t| && !EndsHighHigh(t))
    else s > 0 && lead.value == t[s - 1] && High(t[s - 1]) && (s == |t| ==> EndsHighHigh(t))
  }

  function Limit(units: nat): Option<nat> {
    if units == 0 then None else Some(units)
  }

  // One unit of the loop of q; stop is its break.
  method EncodeUnit(t: seq<Unit>, s: nat, o: seq<Byte>, e: Option<int>, lead: Option<Unit>, ghost budget: Option<nat>)
    returns (o': seq<Byte>, e': Option<int>, lead': Option<Unit>, stop: bool)
    requires s < |t| && Leading(t, s, lead)
    requires Fitted(o, e, Scalars(t[..if lead == None then s else s - 1]), budget)
    ensures if stop then !High(t[s]) && !Enough(e') && Fitted(o', e', Scalars(t[..s + 1]), budget)
      else Leading(t, s + 1, lead') && Fitted(o', e', Scalars(t[..if lead' == None then s + 1 else s]), budget)
  {
    hide Fit, Encode, Scalars, EncodeOne;
    o', e', lead', stop := o, e, None, false;
    var r := t[s];
    ScalarsMore(t, s);
    if s > 0 { ScalarsMore(t, s - 1); }
    ghost var before := Scalars(t[..if lead == None then s else s - 1]);
    if High(r) || Low(r) {
      if lead == None {
        if Low(r) || s + 1 == |t| {
          FitMore(o, e, before, budget, REPLACEMENT);
          o', e' := PushReplacement(o, e);
        } else {
          lead' := Some(r);
        }
        return;
      }
      if High(r) {
        FitMore(o, e, before, budget, REPLACEMENT);
        o', e' := PushReplacement(o, e);
        lead' := Some(r);
        return;
      }
      FitMore(o, e, before, budget, Combine(lead.value, r));
      o', e', stop := Push(o, e, Combine(lead.value, r));
    } else {
      if lead != None {
        FitMore(o', e', before, budget, REPLACEMENT);
        o', e' := PushReplacement(o', e');
      }
      FitMore(o', e', Scalars(t[..s]), budget, r);
      o', e', stop := Push(o', e', r);
    }
  }

  // (e -= 3) > -1 && o.push(239, 191, 189)
  method PushReplacement(o: seq<Byte>, e: Option<int>) returns (o': seq<Byte>, e': Option<int>)
    ensures e' == Spend(e, 3) && |EncodeOne(REPLACEMENT)| == 3
    ensures o' == if Enough(e') then o + EncodeOne(REPLACEMENT) else o
  {
    e' := Spend(e, 3);
    o' := if Enough(e') then o + [239, 191, 189] else o;
  }

  // The bytes of a code point, unless the budget is gone.
  method Push(o: seq<Byte>, e: Option<int>, c: Scalar) returns (o': seq<Byte>, e': Option<int>, stop: bool)
    ensures e' == Spend(e, |EncodeOne(c)|) && stop == !Enough(e')
    ensures o' == if Enough(e') then o + EncodeOne(c) else o
  {
    var n := if c < 0x80 then 1 else if c < 0x800 then 2 else if c < 0x1_0000 then 3 else 4;
    e' := Spend(e, n);
    stop := !Enough(e');
    o' := o;
    if !stop {
      if c < 0x80 {
        o' := o + [c];
      } else if c < 0x800 {
        o' := o + [c / 0x40 + 0xC0, c % 0x40 + 0x80];
      } else if c < 0x1_0000 {
        o' := o + [c / 0x1000 + 0xE0, c / 0x40 % 0x40 + 0x80, c % 0x40 + 0x80];
      } else {
        o' := o + [c / 0x4_0000 + 0xF0, c / 0x1000 % 0x40 + 0x80, c / 0x40 % 0x40 + 0x80, c % 0x40 + 0x80];
      }
    }
  }

  /** q: what fits of the code points that it sees, where a budget of 0 is none. */
  method EncodeString(t: seq<Unit>, units: nat) returns (o: seq<Byte>)
    ensures o == Fit(Scalars(Seen(t)), Limit(units))
  {
    hide Scalars, Encode, Fit;
    ghost var budget := Limit(units);
    var e: Option<int> := if units == 0 then None else Some(units);
    var lead: Option<Unit> := None;
    o := [];
    FitNone(budget);
    assert t[..0] == [];
    var s := 0;
    while s < |t|
      invariant s <= |t| && Leading(t, s, lead)
      invariant Fitted(o, e, Scalars(t[..if lead == None then s else s - 1]), budget)
    {
      var stop;
      o, e, lead, stop := EncodeUnit(t, s, o, e, lead, budget);
      s := s + 1;
      if stop {
        Stopped(t, s, budget);
        return;
      }
    }
    assert Seen(t) == t[..if lead == None then s else s - 1];
  }

  lemma FitNone(budget: Option<nat>)
    ensures Scalars([]) == [] && Fitted([], if budget == None then None else Some(budget.value), [], budget)
  {
  }

  lemma Stopped(t: seq<Unit>, m: nat, budget: Option<nat>)
    requires 0 < m <= |t| && !High(t[m - 1]) && budget.Some? && |Encode(Scalars(t[..m]))| > budget.value
    ensures Fit(Scalars(Seen(t)), budget) == Fit(Scalars(t[..m]), budget)
  {
    hide Fit, Encode, Scalars;
    var seen := Seen(t);
    assert seen[..m] == t[..m];
    ScalarsPrefix(seen, m);
    var all, k := Scalars(seen), |Scalars(t[..m])|;
    assert all[..k] == Scalars(t[..m]);
    FitStuck(all[..k], all[k..], budget.value);
    assert all[..k] + all[k..] == all;
  }

  /** Without a budget q encodes the whole string if and only if it does not end in two high surrogates. */
  lemma EncodesAll(t: seq<Unit>)
    ensures Fit(Scalars(Seen(t)), Limit(0)) == Encode(Scalars(t)) <==> !EndsHighHigh(t)
  {
    if EndsHighHigh(t) {
      ScalarsMore(t, |t| - 1);
      assert t[..|t|] == t;
      EncodeAppend(Scalars(Seen(t)), [REPLACEMENT]);
      EncodeSingle(REPLACEMENT);
    }
  }

  /**
   Under a budget q gives the encoding of the longest prefix that fits if and only if the budget is
   not 0 or there is nothing to encode, and it loses no high surrogate that would have fitted.
   */
  lemma EncodesWhatFits(t: seq<Unit>, units: nat)
    ensures Fit(Scalars(Seen(t)), Limit(units)) == Fit(Scalars(t), Some(units)) <==>
      (units > 0 || t == []) && !(EndsHighHigh(t) && |Encode(Scalars(t))| <= units)
  {
    if units == 0 {
      FitZero(Scalars(t));
      EncodeNotEmpty(Scalars(Seen(t)));
      ScalarsNotEmpty(Seen(t));
    } else if EndsHighHigh(t) {
      var cs := Scalars(Seen(t));
      ScalarsMore(t, |t| - 1);
      assert t[..|t|] == t;
      assert Scalars(t)[..|cs|] == cs;
      EncodeAppend(cs, [REPLACEMENT]);
      EncodeSingle(REPLACEMENT);
    }
  }

  /** Two high surrogates: with no budget, or one that is large enough, q encodes only the first. */
  lemma LosesHigh()
    ensures var t: seq<Unit> := [0xD800, 0xD800];
      && Encode(Scalars(t)) == [239, 191, 189, 239, 191, 189]
      && Fit(Scalars(Seen(t)), Limit(0)) == [239, 191, 189]
      && Fit(Scalars(Seen(t)), Limit(6)) == [239, 191, 189] != Fit(Scalars(t), Some(6))
  {
    hide Encode, Units, Scalars;
    var t: seq<Unit> := [0xD800, 0xD800];
    LoneHighs();
    EncodeSingle(REPLACEMENT);
    EncodeAppend([REPLACEMENT], [REPLACEMENT]);
    assert [REPLACEMENT] + [REPLACEMENT] == [REPLACEMENT, REPLACEMENT];
    assert Seen(t) == [0xD800];
  }

  lemma LoneHighs()
    ensures Scalars([0xD800]) == [REPLACEMENT] && Scalars([0xD800, 0xD800]) == [REPLACEMENT, REPLACEMENT]
    ensures EncodeOne(REPLACEMENT) == [239, 191, 189]
  {
    var one, two: seq<Unit> := [0xD800], [0xD800, 0xD800];
    assert one[..0] == [] && two[..1] == one;
    assert Scalars(one) == [] + [REPLACEMENT];
  }

  /** A budget of 0 does not keep q from writing. */
  lemma ZeroIsNoLimit()
    ensures var t: seq<Unit> := [0x41]; Fit(Scalars(Seen(t)), Limit(0)) == [0x41] && Fit(Scalars(t), Some(0)) == []
  {
    var t: seq<Unit> := [0x41];
    assert t[..0] == [] && Scalars(t) == [0x41];
    EncodeSingle(0x41);
    FitZero([0x41]);
  }

  lemma {:induction false} FitZero(cs: seq<Scalar>)
    ensures Fit(cs, Some(0)) == []
    decreases |cs|
  {
    EncodeNotEmpty(cs);
    if |cs| > 0 { FitZero(cs[..|cs| - 1]); }
  }

  lemma EncodeNotEmpty(cs: seq<Scalar>)
    ensures Encode(cs) == [] <==> cs == []
  {
  }

  lemma ScalarsNotEmpty(s: seq<Unit>)
    ensures Scalars(s) == [] <==> s == []
  {
  }

  // ---------------------------------------------------------------------
  // Decoding
  // ---------------------------------------------------------------------

  const PIECE := 0x1000  // S

  function Slice(t: seq<Byte>, start: nat, end: nat): seq<Byte> {
    var r := if |t| < end then |t| else end;
    if start < r then t[start..r] else []
  }

  lemma DecodeFirst(s: seq<Byte>)
    requires |s| > 0
    ensures var (c, size) := ReadOne(s);
      Decode(s) == (if c == None then [REPLACEMENT] else UnitsOf(c.value)) + Decode(s[size..])
  {
    hide ReadOne, UnitsOf;
  }

  lemma DecodeStep(t: seq<Byte>, i: nat, r: nat, done: seq<Unit>)
    requires i < r <= |t|
    ensures var (c, size) := ReadOne(t[i..r]);
      done + Decode(Slice(t, i, r)) ==
        done + (if c == None then [REPLACEMENT] else UnitsOf(c.value)) + Decode(Slice(t, i + size, r))
  {
    hide Decode, ReadOne, UnitsOf;
    var s := t[i..r];
    DecodeFirst(s);
    assert s[ReadOne(s).1..] == Slice(t, i + ReadOne(s).1, r);
  }

  /** N: the decoding of t[start..end]. */
  method DecodeBytes(t: seq<Byte>, start: nat, end: nat) returns (text: seq<Unit>)
    ensures text == Decode(Slice(t, start, end))
  {
    hide Decode, ReadOne, UnitsOf;
    var r := if |t| < end then |t| else end;
    var n: seq<Unit> := [];
    var i := start;
    assert n + Decode(Slice(t, i, r)) == Decode(Slice(t, start, end));
    while i < r
      invariant n + Decode(Slice(t, i, r)) == Decode(Slice(t, start, end))
      decreases r - i
    {
      DecodeStep(t, i, r, n);
      var (c, size) := ReadOne(t[i..r]);
      n := n + if c == None then [REPLACEMENT] else UnitsOf(c.value);
      i := i + size;
    }
    DecodeNothing();
    text := FromUnits(n);
  }

  lemma DecodeNothing()
    ensures Decode([]) == []
  {
  }

  // The units go into the string in pieces.
  method FromUnits(t: seq<Unit>) returns (r: seq<Unit>)
    ensures r == t
  {
    if |t| <= PIECE {
      return t;
    }
    r := [];
    var n := 0;
    while n < |t|
      invariant n <= |t| && r == t[..n]
    {
      var m := if n + PIECE <= |t| then n + PIECE else |t|;
      r := r + t[n..m];
      n := m;
    }
  }
}
