/** lib/str_utils.c: C strings in memory, and the conversions between words and their text. */
module StrUtils {
  import opened Bits
  import opened Machine

  datatype Radix = BIN | DEC | HEX

  const NUL: Byte := 0
  const CHAR_0: Byte := 48
  const CHAR_9: Byte := 57
  const UPPER_A: Byte := 65
  const UPPER_Z: Byte := 90
  const LOWER_A: Byte := 97
  const LOWER_F: Byte := 102
  const LOWER_X: Byte := 120

  // ----- strings -----

  ghost predicate Terminated(m: seq<Byte>, a: nat) {
    exists e :: a <= e < |m| && m[e] == NUL
  }

  /** How many characters there are from address a up to a NUL. */
  function Len(m: seq<Byte>, a: nat): (n: nat)
    ensures a <= |m| ==> a + n <= |m|
    ensures Terminated(m, a) ==> a + n < |m| && m[a + n] == NUL
    ensures forall i :: a <= i < a + n && i < |m| ==> m[i] != NUL
    decreases |m| - a
  {
    if a < |m| && m[a] != NUL then 1 + Len(m, a + 1) else 0
  }

  /** The string at address a, without its NUL. */
  function StrAt(m: seq<Byte>, a: nat): (s: seq<Byte>)
    requires Terminated(m, a)
    ensures |s| == Len(m, a) && NUL !in s
  {
    m[a..a + Len(m, a)]
  }

  lemma {:induction false} LenIs(m: seq<Byte>, a: nat, n: nat)
    requires a + n < |m| && m[a + n] == NUL && forall i :: a <= i < a + n ==> m[i] != NUL
    ensures Terminated(m, a) && Len(m, a) == n
    decreases n
  {
    if n > 0 {
      LenIs(m, a + 1, n - 1);
    }
  }

  // ----- bytes in memory -----

  predicate BytesAt(m: seq<Byte>, a: nat, bytes: seq<Byte>) {
    a + |bytes| <= |m| && m[a..a + |bytes|] == bytes
  }

  lemma Sub(m: seq<Byte>, a: nat, w: seq<Byte>, i: nat, j: nat)
    requires BytesAt(m, a, w) && i <= j <= |w|
    ensures BytesAt(m, a + i, w[i..j])
  {
    forall k | 0 <= k < j - i
      ensures m[a + i..a + j][k] == w[i..j][k]
    {
      assert m[a..a + |w|][i + k] == m[a + (i + k)];
    }
  }

  lemma SubBytes(m: seq<Byte>, a: nat, x: seq<Byte>, y: seq<Byte>, z: seq<Byte>)
    requires BytesAt(m, a, x + y + z)
    ensures BytesAt(m, a, x) && BytesAt(m, a + |x|, y) && BytesAt(m, a + |x| + |y|, z)
  {
    hide BytesAt;
    var w := x + y + z;
    assert w[0..|x|] == x && w[|x|..|x| + |y|] == y && w[|x| + |y|..|w|] == z;
    Sub(m, a, w, 0, |x|);
    Sub(m, a, w, |x|, |x| + |y|);
    Sub(m, a, w, |x| + |y|, |w|);
  }

  lemma SameBytes(m: seq<Byte>, a: nat, x: seq<Byte>, y: seq<Byte>)
    requires BytesAt(m, a, x) && BytesAt(m, a, y) && |x| == |y|
    ensures x == y
  {
  }

  lemma NoNul(m: seq<Byte>, a: nat, r: seq<Byte>)
    requires a + |r| < |m| && m[a..a + |r|] == r && m[a + |r|] == NUL && NUL !in r
    ensures Terminated(m, a) && Len(m, a) == |r| && StrAt(m, a) == r
  {
    hide Terminated;
    forall i | a <= i < a + |r|
      ensures m[i] != NUL
    {
      assert m[i] == r[i - a];
    }
    LenIs(m, a, |r|);
  }

  lemma StrReads(m: seq<Byte>, a: nat, name: seq<Byte>)
    requires BytesAt(m, a, name + [NUL]) && NUL !in name
    ensures a < |m| && Terminated(m, a) && StrAt(m, a) == name
  {
    assert name + [NUL] + [] == name + [NUL];
    SubBytes(m, a, name, [NUL], []);
    assert m[a + |name|] == m[a + |name|..a + |name| + 1][0];
    NoNul(m, a, name);
  }

  /** How far n is from the next multiple of 4. */
  function Pad(n: nat): (p: nat)
    ensures p < 4 && (n + p) % 4 == 0
  {
    (4 - n % 4) % 4
  }

  function Zeros(n: nat): seq<Byte> {
    seq(n, _ => NUL)
  }

  lemma PadAligned(a: nat, n: nat)
    requires a % 4 == 0
    ensures Pad(a + n) == Pad(n) && (a + n + Pad(n)) % 4 == 0
  {
  }

  /** get_size: the length with the NUL */
  method GetSize(m: seq<Byte>, a: nat) returns (size: nat)
    requires Terminated(m, a)
    ensures size == Len(m, a) + 1
    ensures a + size <= |m| && m[a + size - 1] == NUL
  {
    size := 0;
    while m[a + size] != NUL
      invariant size <= Len(m, a)
      decreases Len(m, a) - size
    {
      size := size + 1;
    }
    size := size + 1;
  }

  /** strcmp, which answers 1 for equal strings */
  method StrCmp(m: seq<Byte>, a: nat, n: seq<Byte>, b: nat) returns (eq: bool)
    requires Terminated(m, a) && Terminated(n, b)
    ensures eq <==> StrAt(m, a) == StrAt(n, b)
  {
    ghost var s, t := StrAt(m, a), StrAt(n, b);
    var idx := 0;
    while m[a + idx] != NUL && n[b + idx] != NUL
      invariant idx <= |s| && idx <= |t| && s[..idx] == t[..idx]
      decreases |s| - idx
    {
      if m[a + idx] != n[b + idx] {
        assert s[idx] != t[idx];
        return false;
      }
      idx := idx + 1;
    }
    eq := m[a + idx] == n[b + idx];
    if eq {
      assert s == s[..idx] && t == t[..idx];
    }
  }

  function Reversed(s: seq<Byte>): seq<Byte> {
    if s == [] then [] else Reversed(s[1..]) + [s[0]]
  }

  lemma {:induction false} ReversedAt(s: seq<Byte>)
    ensures |Reversed(s)| == |s| && forall k :: 0 <= k < |s| ==> Reversed(s)[k] == s[|s| - 1 - k]
  {
    if s != [] {
      ReversedAt(s[1..]);
    }
  }

  lemma ReversedTwice(t: seq<Byte>)
    ensures Reversed(Reversed(t)) == t && |Reversed(t)| == |t|
    ensures NUL !in t ==> NUL !in Reversed(t)
  {
    ReversedAt(t);
    ReversedAt(Reversed(t));
  }

  /** The buffer with the string at index a turned round in its place. */
  function TurnedRound(m: seq<Byte>, a: nat): (r: seq<Byte>)
    requires Terminated(m, a)
    ensures |r| == |m|
  {
    ReversedAt(StrAt(m, a));
    m[..a] + Reversed(StrAt(m, a)) + m[a + Len(m, a)..]
  }

  lemma TurnedRoundIs(m: seq<Byte>, a: nat, r: seq<Byte>)
    requires Terminated(m, a) && |r| == |m|
    requires var n := Len(m, a);
             && (forall i :: a <= i < a + n ==> r[i] == m[a + a + n - 1 - i])
             && (forall i :: 0 <= i < |r| && (i < a || a + n <= i) ==> r[i] == m[i])
    ensures r == TurnedRound(m, a)
  {
    ReversedAt(StrAt(m, a));
  }

  /** strrev, of the string at index a of a buffer */
  method StrRev(str: array<Byte>, a: nat)
    requires Terminated(str[..], a)
    modifies str
    ensures str[..] == TurnedRound(old(str[..]), a)
  {
    hide Terminated, TurnedRound;
    ghost var was := str[..];
    ghost var n := Len(was, a);
    var size := 0;
    while str[a + size] != NUL
      invariant size <= n && str[..] == was
      decreases n - size
    {
      size := size + 1;
    }
    var head: int, tail: int := 0, size - 1;
    while head < tail
      invariant 0 <= head && tail == size - 1 - head && head <= tail + 2
      invariant forall i :: a <= i < a + head || a + tail < i < a + size ==> str[i] == was[a + a + size - 1 - i]
      invariant forall i :: a + head <= i <= a + tail ==> str[i] == was[i]
      invariant forall i :: 0 <= i < str.Length && (i < a || a + size <= i) ==> str[i] == was[i]
    {
      str[a + head], str[a + tail] := str[a + tail], str[a + head];
      head := head + 1;
      tail := tail - 1;
    }
    TurnedRoundIs(was, a, str[..]);
  }

  // ----- characters -----

  function ToLower(c: Byte): Byte {
    if UPPER_A <= c <= UPPER_Z then LOWER_A + (c - UPPER_A) else c
  }

  predicate IsDigit(c: Byte) {
    CHAR_0 <= c <= CHAR_9
  }

  predicate IsHexDigit(c: Byte) {
    var l := ToLower(c);
    IsDigit(l) || LOWER_A <= l <= LOWER_F
  }

  function Ctoi(c: Byte): nat {
    if IsDigit(c) then c - CHAR_0
    else if IsHexDigit(c) then ToLower(c) - LOWER_A + 10
    else WORD - 1
  }

  /** The character that itoa writes for a digit. */
  function DigitChar(d: nat): (c: Byte)
    requires d < 16
    ensures c != NUL && IsHexDigit(c) && Ctoi(c) == d && (IsDigit(c) <==> d < 10)
  {
    if d < 10 then CHAR_0 + d else LOWER_A + d - 10
  }

  // ----- numerals -----

  /** What a sequence of digits stands for, most significant first. */
  function Value(ds: seq<nat>, b: nat): nat {
    if ds == [] then 0 else Value(ds[..|ds| - 1], b) * b + ds[|ds| - 1]
  }

  predicate DigitsOf(ds: seq<nat>, b: nat) {
    forall i :: 0 <= i < |ds| ==> ds[i] < b
  }

  /** The shortest numeral of v, most significant digit first. */
  function Numeral(v: nat, b: nat): (ds: seq<nat>)
    requires b > 1
    ensures |ds| > 0 && DigitsOf(ds, b)
  {
    if v < b then [v] else DivShrinks(v, b); Numeral(v / b, b) + [v % b]
  }

  lemma DivShrinks(v: nat, b: nat)
    requires 1 < b <= v
    ensures 0 < v / b < v
  {
    var q := v / b;
    assert v == b * q + v % b;
    if q >= v {
      Scale(2, b, q);
    }
    if q <= 0 {
      Scale(q, 0, b);
    }
  }

  lemma Scale(x: int, y: int, k: nat)
    requires x <= y
    ensures x * k <= y * k
  {
  }

  lemma ValueSnoc(ds: seq<nat>, d: nat, b: nat)
    ensures Value(ds + [d], b) == Value(ds, b) * b + d
  {
    assert (ds + [d])[..|ds|] == ds;
  }

  lemma {:induction false} NumeralValue(v: nat, b: nat)
    requires b > 1
    ensures Value(Numeral(v, b), b) == v
  {
    hide Value;
    if v >= b {
      DivShrinks(v, b);
      NumeralValue(v / b, b);
      ValueSnoc(Numeral(v / b, b), v % b, b);
    } else {
      OneDigit(v, b);
    }
  }

  lemma OneDigit(d: nat, b: nat)
    ensures Value([d], b) == d
  {
    assert [d][..0] == [];
  }

  /** A numeral has no leading zero unless it is that of 0. */
  predicate Shortest(ds: seq<nat>) {
    |ds| > 0 && (|ds| > 1 ==> ds[0] > 0)
  }

  lemma {:induction false} ValuePositive(ds: seq<nat>, b: nat)
    requires |ds| > 0 && ds[0] > 0 && b > 0
    ensures Value(ds, b) > 0
  {
    if |ds| > 1 {
      ValuePositive(ds[..|ds| - 1], b);
      Scale(1, Value(ds[..|ds| - 1], b), b);
    }
  }

  /** Numeral is the only shortest numeral of its value. */
  lemma {:induction false} NumeralUnique(ds: seq<nat>, b: nat)
    requires b > 1 && DigitsOf(ds, b) && Shortest(ds)
    ensures Numeral(Value(ds, b), b) == ds
  {
    var init, d := ds[..|ds| - 1], ds[|ds| - 1];
    if |ds| == 1 {
      assert Value(init, b) == 0;
    } else {
      NumeralUnique(init, b);
      ValuePositive(init, b);
      Scale(1, Value(init, b), b);
      ModIs(Value(init, b) * b + d, b, Value(init, b), d);
    }
  }

  lemma {:induction false} NumeralShortest(v: nat, b: nat)
    requires b > 1
    ensures Shortest(Numeral(v, b)) && (v > 0 ==> Numeral(v, b)[0] > 0)
  {
    if v >= b {
      DivShrinks(v, b);
      NumeralShortest(v / b, b);
    }
  }

  function Power(b: nat, k: nat): nat {
    if k == 0 then 1 else Power(b, k - 1) * b
  }

  lemma DivBelow(v: nat, b: nat, p: nat)
    requires b > 0 && v < p * b
    ensures v / b < p
  {
    assert v == b * (v / b) + v % b;
    if v / b >= p {
      Scale(p, v / b, b);
    }
  }

  lemma {:induction false} NumeralLength(v: nat, b: nat, k: nat)
    requires b > 1 && k > 0 && v < Power(b, k)
    ensures |Numeral(v, b)| <= k
  {
    if v >= b {
      DivShrinks(v, b);
      DivBelow(v, b, Power(b, k - 1));
      NumeralLength(v / b, b, k - 1);
    }
  }

  lemma {:induction false} ValueBelow(ds: seq<nat>, b: nat)
    requires DigitsOf(ds, b)
    ensures Value(ds, b) < Power(b, |ds|)
  {
    if ds != [] {
      var init := ds[..|ds| - 1];
      ValueBelow(init, b);
      BelowNext(Value(init, b), Power(b, |init|), b, ds[|ds| - 1]);
    }
  }

  lemma BelowNext(v: nat, p: nat, b: nat, d: nat)
    requires v < p && d < b
    ensures v * b + d < p * b
  {
    Scale(v + 1, p, b);
  }

  lemma Distribute(v: nat, p: nat, w: nat, b: nat)
    ensures (v * p + w) * b == v * (p * b) + w * b
  {
  }

  lemma {:induction false} ValueConcat(xs: seq<nat>, ys: seq<nat>, b: nat)
    ensures Value(xs + ys, b) == Value(xs, b) * Power(b, |ys|) + Value(ys, b)
  {
    if ys == [] {
      assert xs + ys == xs;
    } else {
      var init, d := ys[..|ys| - 1], ys[|ys| - 1];
      assert (xs + ys)[..|xs + ys| - 1] == xs + init;
      ValueConcat(xs, init, b);
      Distribute(Value(xs, b), Power(b, |init|), Value(init, b), b);
    }
  }

  predicate Accepts(c: Byte, rad: Radix) {
    if rad == HEX then IsHexDigit(c) else IsDigit(c)
  }

  predicate AcceptedBy(s: seq<Byte>, rad: Radix) {
    forall i :: 0 <= i < |s| ==> Accepts(s[i], rad)
  }

  function Digits(s: seq<Byte>): (ds: seq<nat>)
    ensures |ds| == |s| && forall i :: 0 <= i < |s| ==> ds[i] == Ctoi(s[i])
  {
    seq(|s|, i requires 0 <= i < |s| => Ctoi(s[i]))
  }

  lemma NoDigits(t: seq<Byte>, b: nat)
    ensures Value(Digits(t[..0]), b) == 0
  {
  }

  /** One more digit. */
  lemma ValueNext(t: seq<Byte>, i: nat, rad: Radix)
    requires i < |t|
    ensures AcceptedBy(t[..i + 1], rad) <==> AcceptedBy(t[..i], rad) && Accepts(t[i], rad)
    ensures forall b :: Value(Digits(t[..i + 1]), b) == Value(Digits(t[..i]), b) * b + Ctoi(t[i])
  {
    hide Ctoi, Accepts;
    assert t[..i + 1] == t[..i] + [t[i]];
    assert Digits(t[..i + 1]) == Digits(t[..i]) + [Ctoi(t[i])];
  }

  // ----- itoa -----

  function Chars(ds: seq<nat>): (s: seq<Byte>)
    requires DigitsOf(ds, 16)
    ensures |s| == |ds| && NUL !in s
    ensures forall i :: 0 <= i < |ds| ==> s[i] == DigitChar(ds[i])
  {
    seq(|ds|, i requires 0 <= i < |ds| => DigitChar(ds[i]))
  }

  function RadixBase(rad: Radix): (b: nat)
    ensures 1 < b <= 16
  {
    if rad == HEX then 16 else 10
  }

  function Prefix(rad: Radix): seq<Byte> {
    if rad == HEX then [CHAR_0, LOWER_X] else []
  }

  /** The text of v: a prefix and its shortest numeral. */
  function Text(v: nat, rad: Radix): (s: seq<Byte>)
    ensures NUL !in s
    ensures rad == BIN ==> s == []
    ensures rad == HEX ==> |s| > 2 && s[0] == CHAR_0 && s[1] == LOWER_X && forall i :: 2 <= i < |s| ==> IsHexDigit(s[i])
    ensures rad == DEC ==> |s| > 0 && forall i :: 0 <= i < |s| ==> IsDigit(s[i])
  {
    if rad == BIN then [] else Prefix(rad) + Chars(Numeral(v, RadixBase(rad)))
  }

  /** The do-while loops of itoa: the digits from the least significant up, and a NUL. */
  method WriteDigits(val: nat, str: array<Byte>, a: nat, b: nat)
    requires 1 < b <= 16 && a + |Numeral(val, b)| < str.Length
    modifies str
    ensures var t := Chars(Numeral(val, b)); var e := a + |t|;
            && str[a..e] == Reversed(t) && str[e] == NUL
            && str[..a] == old(str[..a]) && str[e + 1..] == old(str[e + 1..])
  {
    hide Numeral, Reversed, Chars;
    ghost var ds := Numeral(val, b);
    var v: nat, idx: nat, more := val, a, true;
    while more
      invariant a <= idx <= a + |ds| && (more ==> Numeral(v, b) == ds[..|ds| - (idx - a)])
      invariant !more ==> idx == a + |ds|
      invariant forall i :: a <= i < idx ==> str[i] == DigitChar(ds[|ds| - 1 - (i - a)])
      invariant forall i :: 0 <= i < str.Length && (i < a || idx <= i) ==> str[i] == old(str[i])
      decreases more, v
    {
      NumeralStep(v, b);
      var digit := v % b;
      v := v / b;
      str[idx] := if digit < 10 then CHAR_0 + digit else LOWER_A + digit - 10;
      idx := idx + 1;
      more := v > 0;
    }
    str[idx] := NUL;
    Backwards(str[..], a, ds);
  }

  /** One round of the loops: the last digit is taken off. */
  lemma NumeralStep(v: nat, b: nat)
    requires b > 1
    ensures var ds := Numeral(v, b); var init := ds[..|ds| - 1];
            && v % b == ds[|ds| - 1] && 0 <= v / b && 0 <= v % b < b
            && if v / b > 0 then v / b < v && Numeral(v / b, b) == init else init == []
  {
    if v >= b {
      DivShrinks(v, b);
    } else {
      ModIs(v, b, 0, v);
    }
  }

  lemma Backwards(m: seq<Byte>, a: nat, ds: seq<nat>)
    requires DigitsOf(ds, 16) && a + |ds| <= |m|
    requires forall i :: a <= i < a + |ds| ==> m[i] == DigitChar(ds[|ds| - 1 - (i - a)])
    ensures m[a..a + |ds|] == Reversed(Chars(ds))
  {
    ReversedAt(Chars(ds));
  }

  /** The digits, and strrev to turn them round. */
  method WriteNumeral(val: nat, str: array<Byte>, a: nat, b: nat)
    requires 1 < b <= 16 && a + |Numeral(val, b)| < str.Length
    modifies str
    ensures var t := Chars(Numeral(val, b)); var e := a + |t|;
            && str[..e] == old(str[..a]) + t && str[e] == NUL && str[e + 1..] == old(str[e + 1..])
  {
    hide Numeral, Chars, TurnedRound, Reversed, Terminated;
    WriteDigits(val, str, a, b);
    ghost var t := Chars(Numeral(val, b));
    ghost var mid := str[..];
    TurnBack(mid, a, t);
    StrRev(str, a);
    Assembled(str[..], mid, a, t);
  }

  /** itoa */
  method Itoa(val: nat, str: array<Byte>, rad: Radix)
    requires val < WORD && |Text(val, rad)| < str.Length
    modifies str
    ensures var n := |Text(val, rad)|;
            str[..n] == Text(val, rad) && str[n] == NUL && str[n + 1..] == old(str[n + 1..])
  {
    hide Numeral, Chars;
    if rad == BIN {
      str[0] := NUL;
      return;
    }
    str[0] := CHAR_0;
    var a, b := 0, 10;
    if rad == HEX {
      str[1] := LOWER_X;
      a, b := 2, 16;
    }
    assert b == RadixBase(rad) && str[..a] == Prefix(rad);
    WriteNumeral(val, str, a, b);
  }

  /** What stands where, after strrev. */
  lemma Assembled(m: seq<Byte>, mid: seq<Byte>, a: nat, t: seq<Byte>)
    requires a + |t| < |mid| && m == mid[..a] + t + mid[a + |t|..]
    ensures var n := a + |t|;
            && |m| == |mid| && m[..n] == mid[..a] + t && m[n..] == mid[n..]
            && m[n] == mid[n] && m[n + 1..] == mid[n + 1..]
  {
  }

  /** Turning round a text that was written backwards. */
  lemma TurnBack(m: seq<Byte>, a: nat, t: seq<Byte>)
    requires a + |t| < |m| && m[a..a + |t|] == Reversed(t) && m[a + |t|] == NUL && NUL !in t
    ensures Terminated(m, a) && TurnedRound(m, a) == m[..a] + t + m[a + |t|..]
  {
    hide *;
    var r := Reversed(t);
    ReversedTwice(t);
    assert a + |r| == a + |t|;
    NoNul(m, a, r);
    TurnedRoundOf(m, a, r);
  }

  lemma TurnedRoundOf(m: seq<Byte>, a: nat, r: seq<Byte>)
    requires Terminated(m, a) && StrAt(m, a) == r
    ensures a + |r| <= |m| && TurnedRound(m, a) == m[..a] + Reversed(r) + m[a + |r|..]
  {
    hide Terminated, Reversed, Len, StrAt;
    var s := StrAt(m, a);
    assert |s| == Len(m, a);
  }

  /** A word's text and its NUL fit in the 11 bytes the callers set aside. */
  lemma TextFits(v: nat, rad: Radix)
    requires v < WORD
    ensures |Text(v, rad)| + 1 <= 11
  {
    if rad == HEX {
      assert Power(16, 8) == WORD by {
        assert Power(16, 2) == 256 && Power(16, 4) == 65536 && Power(16, 6) == 0x100_0000;
      }
      NumeralLength(v, 16, 8);
    } else if rad == DEC {
      assert Power(10, 10) > WORD by {
        assert Power(10, 2) == 100 && Power(10, 4) == 10000 && Power(10, 6) == 1000000 && Power(10, 8) == 100000000;
      }
      NumeralLength(v, 10, 10);
    }
  }

  // ----- atoui -----

  /** What is left of a text after the "0x" that atoui passes over. */
  function Unprefixed(s: seq<Byte>, rad: Radix): seq<Byte> {
    if rad == HEX && Prefix(HEX) <= s then s[2..] else s
  }

  /** The word that a text stands for; a text with a wrong character, and radix BIN, give -1. */
  function Parse(s: seq<Byte>, rad: Radix): (num: nat)
    ensures num < WORD
    ensures rad == BIN ==> num == WORD - 1
    ensures rad == DEC || |s| < 2 || s[0] != CHAR_0 || s[1] != LOWER_X ==> rad == BIN || num == ParseDigits(s, rad)
    ensures rad == HEX && |s| >= 2 && s[0] == CHAR_0 && s[1] == LOWER_X ==> num == ParseDigits(s[2..], rad)
  {
    if rad == BIN then WORD - 1 else ParseDigits(Unprefixed(s, rad), rad)
  }

  lemma WrapStep(x: nat, b: nat, d: nat)
    ensures ((x % WORD * b) % WORD + d) % WORD == (x * b + d) % WORD
  {
    var q, r := x / WORD, x % WORD;
    var p, w := r * b / WORD, r * b % WORD;
    assert x * b + d == WORD * (q * b + p) + (w + d) by {
      assert x * b == WORD * (q * b) + r * b by { assert x == WORD * q + r; }
      assert r * b == WORD * p + w;
    }
    assert (WORD * (q * b + p) + (w + d)) % WORD == (w + d) % WORD;
  }

  /** The value of a text from which the prefix is gone, or the word -1. */
  function ParseDigits(t: seq<Byte>, rad: Radix): (num: nat)
    ensures num < WORD
  {
    if AcceptedBy(t, rad) then Value(Digits(t), RadixBase(rad)) % WORD else WORD - 1
  }

  /** One more character is one more digit, in 32-bit arithmetic; with a character that is none the word
      is -1, wherever it stands. */
  lemma ParseExact(t: seq<Byte>, c: Byte, rad: Radix)
    requires rad != BIN
    ensures ParseDigits([], rad) == 0
    ensures AcceptedBy(t, rad) && Accepts(c, rad) ==>
              ParseDigits(t + [c], rad) == (ParseDigits(t, rad) * RadixBase(rad) + Ctoi(c)) % WORD
    ensures !AcceptedBy(t, rad) || !Accepts(c, rad) ==> ParseDigits(t + [c], rad) == WORD - 1
  {
    hide Value, Accepts, Ctoi;
    var b := RadixBase(rad);
    var s := t + [c];
    assert s[|t|] == c;
    assert forall i :: 0 <= i < |t| ==> s[i] == t[i];
    NoDigits([], b);
    if AcceptedBy(t, rad) && Accepts(c, rad) {
      assert Digits(s) == Digits(t) + [Ctoi(c)];
      ValueSnoc(Digits(t), Ctoi(c), b);
      WordStep(Value(Digits(t), b), b, Ctoi(c));
    }
  }

  lemma WordStep(x: nat, b: nat, d: nat)
    ensures (x % WORD * b + d) % WORD == (x * b + d) % WORD
  {
    var q, r := x / WORD, x % WORD;
    assert x == WORD * q + r;
    assert x * b == WORD * (q * b) + r * b;
    WholeWords(q * b, r * b + d);
  }

  lemma WholeWords(k: nat, y: nat)
    ensures (WORD * k + y) % WORD == y % WORD
  {
  }

  /** The loops of atoui. */
  method ReadDigits(m: seq<Byte>, a: nat, rad: Radix) returns (num: nat)
    requires Terminated(m, a)
    ensures num == ParseDigits(StrAt(m, a), rad)
  {
    hide Terminated, Value, Digits, Ctoi, Accepts;
    ghost var t := StrAt(m, a);
    var b := RadixBase(rad);
    var i := 0;
    num := 0;
    NoDigits(t, b);
    while m[a + i] != NUL
      invariant i <= |t| && AcceptedBy(t[..i], rad) && num == Value(Digits(t[..i]), b) % WORD
      decreases |t| - i
    {
      ValueNext(t, i, rad);
      assert t[i] == m[a + i];
      if !Accepts(m[a + i], rad) {
        return WORD - 1;
      }
      WrapStep(Value(Digits(t[..i]), b), b, Ctoi(t[i]));
      num := num * b % WORD;
      num := (num + Ctoi(m[a + i])) % WORD;
      i := i + 1;
    }
    assert t[..i] == t;
  }

  /** atoui */
  method Atoui(m: seq<Byte>, a: nat, rad: Radix) returns (num: nat)
    requires Terminated(m, a)
    ensures num == Parse(StrAt(m, a), rad)
  {
    hide ParseDigits;
    if rad == BIN {
      return WORD - 1;
    }
    var str := a;
    if rad == HEX && m[a] == CHAR_0 && m[a + 1] == LOWER_X {
      LenIs(m, a + 2, Len(m, a) - 2);
      str := a + 2;
    }
    assert StrAt(m, str) == Unprefixed(StrAt(m, a), rad);
    num := ReadDigits(m, str, rad);
  }

  // ----- the two conversions undo each other -----

  lemma ParseText(v: nat, rad: Radix)
    requires rad != BIN
    ensures Parse(Text(v, rad), rad) == v % WORD
  {
    var b := RadixBase(rad);
    var ds := Numeral(v, b);
    var s := Text(v, rad);
    assert Unprefixed(s, rad) == Chars(ds);
    assert AcceptedBy(Chars(ds), rad);
    assert Digits(Chars(ds)) == ds;
    NumeralValue(v, b);
  }

  /** atoui(itoa(v)) == v for every word. */
  lemma RoundTrip(v: nat, rad: Radix)
    requires v < WORD && rad != BIN
    ensures Parse(Text(v, rad), rad) == v && |Text(v, rad)| + 1 <= 11
  {
    ParseText(v, rad);
    TextFits(v, rad);
  }

  /** The texts that stand for a word in the one way itoa writes it: the prefix, lower case, no
      leading zero, and a value that is a word. */
  predicate Canonical(s: seq<Byte>, rad: Radix) {
    && Prefix(rad) <= s
    && var t := s[|Prefix(rad)|..];
       && AcceptedBy(t, rad) && (forall i :: 0 <= i < |t| ==> ToLower(t[i]) == t[i])
       && Shortest(Digits(t)) && Value(Digits(t), RadixBase(rad)) < WORD
  }

  /** itoa(atoui(s)) == s for the canonical texts and for no others. */
  lemma RoundTripBack(s: seq<Byte>, rad: Radix)
    requires rad != BIN
    ensures Text(Parse(s, rad), rad) == s <==> Canonical(s, rad)
  {
    if Canonical(s, rad) {
      CanonicalIsText(s, rad);
    }
    var v := Parse(s, rad);
    if Text(v, rad) == s {
      TextIsCanonical(v, rad);
    }
  }

  lemma CanonicalIsText(s: seq<Byte>, rad: Radix)
    requires rad != BIN && Canonical(s, rad)
    ensures Text(Parse(s, rad), rad) == s
  {
    hide Value, Shortest, Numeral;
    var b := RadixBase(rad);
    var t := s[|Prefix(rad)|..];
    var ds := Digits(t);
    assert Unprefixed(s, rad) == t && AcceptedBy(t, rad);
    DigitsBack(t, rad);
    NumeralUnique(ds, b);
    assert Value(ds, b) % WORD == Value(ds, b);
    assert s == Prefix(rad) + t;
  }

  lemma DigitsBack(t: seq<Byte>, rad: Radix)
    requires AcceptedBy(t, rad) && forall i :: 0 <= i < |t| ==> ToLower(t[i]) == t[i]
    ensures DigitsOf(Digits(t), RadixBase(rad)) && Chars(Digits(t)) == t
  {
  }

  lemma TextIsCanonical(v: nat, rad: Radix)
    requires rad != BIN && v < WORD
    ensures Canonical(Text(v, rad), rad)
  {
    hide Value, Numeral, Shortest, Digits, Chars;
    var b := RadixBase(rad);
    var ds := Numeral(v, b);
    NumeralValue(v, b);
    NumeralShortest(v, b);
    CharsBack(ds, rad);
    assert Text(v, rad)[|Prefix(rad)|..] == Chars(ds);
  }

  /** The characters of digits are accepted, in lower case, and stand for the digits. */
  lemma CharsBack(ds: seq<nat>, rad: Radix)
    requires rad != BIN && DigitsOf(ds, RadixBase(rad))
    ensures var t := Chars(ds);
            Digits(t) == ds && AcceptedBy(t, rad) && forall i :: 0 <= i < |t| ==> ToLower(t[i]) == t[i]
  {
  }

  // ----- carrtoi -----

  /** carrtoi's own tests agree with is_hex_digit and ctoi. */
  lemma LetterDigits(c: Byte, rad: Radix)
    ensures CHAR_0 <= c <= CHAR_9 ==> Accepts(c, rad) && Ctoi(c) == c - CHAR_0
    ensures !(CHAR_0 <= c <= CHAR_9) ==>
              (Accepts(c, rad) <==> rad == HEX && UPPER_A <= c <= LOWER_F && (c - UPPER_A) % 32 <= 5)
    ensures UPPER_A <= c <= LOWER_F && (c - UPPER_A) % 32 <= 5 ==> Ctoi(c) == 10 + (c - UPPER_A) % 32
  {
  }

  /** What carrtoi makes of a field of characters; in base 16 it passes over the first two. */
  function FieldValue(s: seq<Byte>, rad: Radix): int
    requires rad == HEX ==> |s| >= 2
  {
    var t := if rad == HEX then s[2..] else s;
    if AcceptedBy(t, rad) then Value(Digits(t), RadixBase(rad)) else -1
  }

  /** carrtoi, on fields so short that its int cannot overflow */
  method CarrToI(m: seq<Byte>, a: nat, size: nat, rad: Radix) returns (num: int)
    requires a + size <= |m| && size <= 9 && (rad == HEX ==> size >= 2)
    ensures num == FieldValue(m[a..a + size], rad)
  {
    hide Value, Digits, Ctoi, Accepts;
    var str, n, b := a, size, 10;
    if rad == HEX {
      n := size - 2;
      str := a + 2;
      b := 16;
    }
    ghost var t := m[str..str + n];
    assert t == if rad == HEX then m[a..a + size][2..] else m[a..a + size];
    NoDigits(t, b);
    num := 0;
    for i := 0 to n
      invariant AcceptedBy(t[..i], rad) && num == Value(Digits(t[..i]), b)
    {
      var c := m[str + i];
      assert t[i] == c;
      ValueNext(t, i, rad);
      LetterDigits(c, rad);
      num := num * b;
      if CHAR_0 <= c <= CHAR_9 {
        num := num + (c - CHAR_0);
      } else if rad == HEX && UPPER_A <= c <= LOWER_F {
        var offset := (c - UPPER_A) % 32;
        if offset > 5 {
          return -1;
        }
        num := num + 10 + offset;
      } else {
        return -1;
      }
    }
    assert t[..n] == t;
  }

  /** A header field of eight hexadecimal digits, in either case, that stands for v. */
  predicate HexField(s: seq<Byte>, v: nat) {
    |s| == 8 && AcceptedBy(s, HEX) && Value(Digits(s), 16) == v
  }

  /** Passing over two digits reads an eight-digit field modulo 2^24. */
  lemma FieldReadsLow(s: seq<Byte>, v: nat)
    requires HexField(s, v)
    ensures FieldValue(s, HEX) == v % 0x100_0000
    ensures FieldValue(s, HEX) == v <==> v < 0x100_0000
  {
    hide Value;
    var hi, lo := Digits(s[..2]), Digits(s[2..]);
    assert Digits(s) == hi + lo;
    ValueConcat(hi, lo, 16);
    ValueBelow(lo, 16);
    SixDigits();
    ModIs(v, 0x100_0000, Value(hi, 16), Value(lo, 16));
  }

  lemma SixDigits()
    ensures Power(16, 6) == 0x100_0000
  {
    assert Power(16, 2) == 256 && Power(16, 4) == 65536;
  }
}
