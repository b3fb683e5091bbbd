/**
 Positional numerals as the decoder uses them: parsing a digit string in a
 given base (Python's `int(s, base)` on plain digit strings), rendering a
 natural number without a prefix (`bin(n)[2:]`, `hex(n)[2:]`), left padding
 with zeros (`str.zfill`) and upper-casing (`str.upper`).  Bases 2 and 16 are
 the ones the decoder needs; everything here is stated once for any base
 between 2 and 16.
 */
module Numerals {

  datatype Option<T> = None | Some(value: T)

  /** b to the power k. */
  function Pow(b: nat, k: nat): (r: nat)
    ensures b >= 1 ==> r >= 1
  {
    if k == 0 then 1
    else
      var rest := Pow(b, k - 1);
      MulPositive(b, rest);
      b * rest
  }

  predicate IsHexDigit(c: char)
  {
    '0' <= c <= '9' || 'a' <= c <= 'f' || 'A' <= c <= 'F'
  }

  /** The value of one hexadecimal digit, in either case. */
  function DigitValue(c: char): (v: nat)
    requires IsHexDigit(c)
    ensures v < 16
    ensures v < 10 <==> '0' <= c <= '9'
  {
    if '0' <= c <= '9' then c as nat - '0' as nat
    else if 'a' <= c <= 'f' then c as nat - 'a' as nat + 10
    else c as nat - 'A' as nat + 10
  }

  /** c is a digit of the given base. */
  predicate IsDigit(c: char, base: nat)
  {
    IsHexDigit(c) && DigitValue(c) < base
  }

  predicate AllDigits(s: string, base: nat)
  {
    forall k :: 0 <= k < |s| ==> IsDigit(s[k], base)
  }

  /** The number a digit string denotes, most significant digit first. */
  function Value(s: string, base: nat): nat
    requires AllDigits(s, base)
    decreases |s|
  {
    if s == [] then 0 else Value(s[..|s| - 1], base) * base + DigitValue(s[|s| - 1])
  }

  /** Python's `int(s, base)` on a string of plain digits: it fails on the
      empty string and on any character that is not a digit of the base. */
  function ParseInt(s: string, base: nat): (r: Option<nat>)
    requires 2 <= base <= 16
    ensures r.Some? <==> |s| > 0 && AllDigits(s, base)
    ensures r.Some? ==> r.value == Value(s, base) && r.value < Pow(base, |s|)
  {
    if |s| > 0 && AllDigits(s, base) then
      ValueBound(s, base);
      Some(Value(s, base))
    else None
  }

  /** The lower-case digit Python prints for d. */
  function DigitChar(d: nat): (c: char)
    requires d < 16
    ensures IsHexDigit(c) && DigitValue(c) == d
    ensures !('A' <= c <= 'F')
  {
    if d < 10 then ('0' as int + d) as char else ('a' as int + d - 10) as char
  }

  /** The shortest rendering of n in the base, lower case, "0" for zero:
      `bin(n)[2:]` for base 2 and `hex(n)[2:]` for base 16. */
  function ToDigits(n: nat, base: nat): (s: string)
    requires 2 <= base <= 16
    ensures 1 <= |s| && AllDigits(s, base)
    decreases n
  {
    if n < base then [DigitChar(n)]
    else
      DivDecreases(n, base);
      ToDigits(n / base, base) + [DigitChar(n % base)]
  }

  function Zeros(k: nat): (s: string)
    ensures |s| == k && forall j :: 0 <= j < k ==> s[j] == '0'
  {
    seq(k, _ => '0')
  }

  /** Python's `s.zfill(width)` on a string without a sign: zeros are added
      on the left up to the width, and nothing is ever cut off. */
  function ZFill(s: string, width: nat): (r: string)
    ensures |r| == if |s| < width then width else |s|
    ensures r[|r| - |s|..] == s
    ensures forall j :: 0 <= j < |r| - |s| ==> r[j] == '0'
  {
    if |s| < width then Zeros(width - |s|) + s else s
  }

  function UpperChar(c: char): char
  {
    if 'a' <= c <= 'z' then (c as int - 32) as char else c
  }

  /** No lower-case letter occurs in s. */
  predicate IsUpperCase(s: string)
  {
    forall k :: 0 <= k < |s| ==> !('a' <= s[k] <= 'z')
  }

  /** Python's `s.upper()` on ASCII text. */
  function Upper(s: string): (r: string)
    ensures |r| == |s| && forall k :: 0 <= k < |s| ==> r[k] == UpperChar(s[k])
    ensures IsUpperCase(r)
  {
    seq(|s|, k requires 0 <= k < |s| => UpperChar(s[k]))
  }

  // ---------------------------------------------------------------------
  // Arithmetic facts
  // ---------------------------------------------------------------------

  lemma MulPositive(a: nat, c: nat)
    ensures a >= 1 && c >= 1 ==> a * c >= 1
  {
    if a >= 1 { MulMonotonic(1, a, c); }
  }

  lemma MulMonotonic(a: nat, b: nat, c: nat)
    requires a <= b
    ensures a * c <= b * c
  {}

  lemma ShiftDigit(a: nat, b: nat, p: nat, base: nat, d: nat)
    ensures (a * p + b) * base + d == a * (p * base) + (b * base + d)
  {}

  /** Dividing by a base of at least 2 makes progress. */
  lemma DivDecreases(n: nat, base: nat)
    requires 2 <= base <= n
    ensures 1 <= n / base < n
  {
    var q, r := n / base, n % base;
    assert n == q * base + r;
    if q >= n {
      MulMonotonic(n, q, base);
      MulMonotonic(2, base, n);
    }
  }

  lemma DivMod(n: nat, d: nat)
    requires d > 0
    ensures n == (n / d) * d + n % d && n % d < d
  {}

  /** Euclidean division has one quotient and one remainder. */
  lemma DivModUnique(v: nat, d: nat, q: nat, r: nat)
    requires r < d && v == q * d + r
    ensures v / d == q && v % d == r
  {
    var q', r' := v / d, v % d;
    assert v == q' * d + r';
    if q' > q {
      MulMonotonic(q + 1, q', d);
    } else if q' < q {
      MulMonotonic(q' + 1, q, d);
    }
  }

  // ---------------------------------------------------------------------
  // Digit strings and their values
  // ---------------------------------------------------------------------

  lemma {:induction false} ValueBound(s: string, base: nat)
    requires base >= 1 && AllDigits(s, base)
    ensures Value(s, base) < Pow(base, |s|)
  {
    if s != [] {
      var init := s[..|s| - 1];
      ValueBound(init, base);
      DigitStep(Value(init, base), DigitValue(s[|s| - 1]), Pow(base, |init|), base);
    }
  }

  /** Appending a digit to a number below p gives one below p * base. */
  lemma DigitStep(v: nat, d: nat, p: nat, base: nat)
    requires v < p && d < base
    ensures v * base + d < base * p
  {
    MulMonotonic(v + 1, p, base);
    assert (v + 1) * base == v * base + base;
  }

  /** Appending digits shifts the value of the prefix left by their count. */
  lemma {:induction false} ValueAppend(s: string, t: string, base: nat)
    requires AllDigits(s, base) && AllDigits(t, base)
    ensures AllDigits(s + t, base)
    ensures Value(s + t, base) == Value(s, base) * Pow(base, |t|) + Value(t, base)
  {
    if t == [] {
      assert s + t == s;
    } else {
      var t' := t[..|t| - 1];
      var d := DigitValue(t[|t| - 1]);
      assert (s + t)[..|s + t| - 1] == s + t';
      ValueAppend(s, t', base);
      var vs, vt, p := Value(s, base), Value(t', base), Pow(base, |t'|);
      assert Value(s + t, base) == Value(s + t', base) * base + d;
      assert Value(t, base) == vt * base + d;
      assert Pow(base, |t|) == p * base;
      ShiftDigit(vs, vt, p, base, d);
    }
  }

  lemma {:induction false} ValueOfZeros(k: nat, base: nat)
    requires base >= 1
    ensures AllDigits(Zeros(k), base) && Value(Zeros(k), base) == 0
  {
    if k > 0 {
      assert Zeros(k)[..k - 1] == Zeros(k - 1);
      ValueOfZeros(k - 1, base);
    }
  }

  /** Leading zeros do not change the value: why `zfill` is safe. */
  lemma ValueZFill(s: string, width: nat, base: nat)
    requires base >= 1 && AllDigits(s, base)
    ensures AllDigits(ZFill(s, width), base)
    ensures Value(ZFill(s, width), base) == Value(s, base)
  {
    if |s| < width {
      var z := Zeros(width - |s|);
      assert ZFill(s, width) == z + s;
      ValueOfZeros(width - |s|, base);
      ValueAppend(z, s, base);
      assert Value(z, base) * Pow(base, |s|) == 0;
    }
  }

  /** Reading back a rendering gives the number rendered. */
  lemma {:induction false} ValueToDigits(n: nat, base: nat)
    requires 2 <= base <= 16
    ensures Value(ToDigits(n, base), base) == n
  {
    if n >= base {
      ValueToDigits(n / base, base);
      var s, prefix := ToDigits(n, base), ToDigits(n / base, base);
      assert s[..|s| - 1] == prefix && s[|s| - 1] == DigitChar(n % base);
      assert Value(s, base) == Value(prefix, base) * base + n % base;
      DivMod(n, base);
    }
  }

  /** Comparing q*base + r with p*base compares q with p, when r is a digit. */
  lemma ScaleLess(q: nat, r: nat, p: nat, base: nat)
    requires r < base
    ensures q < p <==> q * base + r < p * base
  {
    if q < p {
      MulMonotonic(q + 1, p, base);
    } else {
      MulMonotonic(p, q, base);
    }
  }

  /** A rendering fits in k digits exactly when n is below base^k. */
  lemma {:induction false} ToDigitsLength(n: nat, base: nat, k: nat)
    requires 2 <= base <= 16 && k >= 1
    ensures |ToDigits(n, base)| <= k <==> n < Pow(base, k)
    decreases k
  {
    var p := Pow(base, k - 1);
    assert Pow(base, k) == p * base;
    if n < base {
      ScaleLess(0, n, p, base);
    } else {
      var q, r := n / base, n % base;
      assert |ToDigits(n, base)| == |ToDigits(q, base)| + 1;
      DivMod(n, base);
      ScaleLess(q, r, p, base);
      if k == 1 {
        assert p == 1;
      } else {
        ToDigitsLength(q, base, k - 1);
      }
    }
  }

  /** The digits s[i..j] denote the part of Value(s) that they cover. */
  lemma SliceValue(s: string, i: nat, j: nat, base: nat)
    requires base >= 1 && AllDigits(s, base) && i <= j <= |s|
    ensures AllDigits(s[i..j], base)
    ensures Value(s[i..j], base) == (Value(s, base) / Pow(base, |s| - j)) % Pow(base, j - i)
  {
    var a, b, c := s[..i], s[i..j], s[j..];
    assert s[..j] == a + b && s == s[..j] + c;
    ValueAppend(a, b, base);
    ValueAppend(s[..j], c, base);
    ValueBound(b, base);
    ValueBound(c, base);
    DivModUnique(Value(s, base), Pow(base, |c|), Value(s[..j], base), Value(c, base));
    DivModUnique(Value(s[..j], base), Pow(base, |b|), Value(a, base), Value(b, base));
  }

  /** Both pieces of a digit string cut after k characters are digit strings. */
  lemma SuffixDigits(s: string, k: nat, base: nat)
    requires k <= |s| && AllDigits(s, base)
    ensures AllDigits(s[..k], base) && AllDigits(s[k..], base)
  {
    forall j | 0 <= j < |s| - k
      ensures IsDigit(s[k..][j], base)
    {
      assert s[k..][j] == s[k + j];
    }
  }

  /** A digit string cut after its first k digits: the head reads back to
      the quotient of the whole by base^(digits after the cut), the tail to
      the remainder. */
  lemma SplitValue(s: string, k: nat, base: nat)
    requires base >= 1 && k <= |s| && AllDigits(s, base)
    ensures AllDigits(s[..k], base) && AllDigits(s[k..], base)
    ensures Value(s[..k], base) == Value(s, base) / Pow(base, |s| - k)
    ensures Value(s[k..], base) == Value(s, base) % Pow(base, |s| - k)
  {
    var head, tail := s[..k], s[k..];
    assert head + tail == s;
    SuffixDigits(s, k, base);
    ValueAppend(head, tail, base);
    var p := Pow(base, |tail|);
    assert Value(s, base) == Value(head, base) * p + Value(tail, base);
    ValueBound(tail, base);
    DivModUnique(Value(s, base), p, Value(head, base), Value(tail, base));
  }

  lemma ValueOfDigit(s: string, base: nat)
    requires |s| == 1 && AllDigits(s, base)
    ensures Value(s, base) == DigitValue(s[0])
  {
    assert s[..0] == [];
  }

  /** Upper-casing a digit string keeps its digits and its value. */
  lemma {:induction false} ValueUpper(s: string, base: nat)
    requires AllDigits(s, base)
    ensures AllDigits(Upper(s), base) && Value(Upper(s), base) == Value(s, base)
  {
    if s != [] {
      var s' := s[..|s| - 1];
      assert Upper(s)[..|s| - 1] == Upper(s');
      ValueUpper(s', base);
    }
  }

  /** The upper-case hex rendering of n, padded to width: how the decoder
      prints the opcode and the displacement (`hex(n)[2:].upper().zfill(w)`). */
  function PaddedHex(n: nat, width: nat): string
  {
    ZFill(Upper(ToDigits(n, 16)), width)
  }

  /** The padded rendering is upper case, at least `width` wide, and exactly
      `width` wide when n is below 16^width. */
  lemma PaddedHexShape(n: nat, width: nat)
    requires width >= 1
    ensures IsUpperCase(PaddedHex(n, width))
    ensures |PaddedHex(n, width)| >= width
    ensures |PaddedHex(n, width)| == width <==> n < Pow(16, width)
  {
    ToDigitsLength(n, 16, width);
    ZFillUpperCase(Upper(ToDigits(n, 16)), width);
  }

  /** Padding with zeros keeps a string upper case. */
  lemma ZFillUpperCase(s: string, width: nat)
    requires IsUpperCase(s)
    ensures IsUpperCase(ZFill(s, width))
  {
    var r := ZFill(s, width);
    forall k | 0 <= k < |r|
      ensures !('a' <= r[k] <= 'z')
    {
      if k >= |r| - |s| {
        assert r[k] == r[|r| - |s|..][k - (|r| - |s|)] == s[k - (|r| - |s|)];
      }
    }
  }

  /** The padded rendering reads back to the number rendered. */
  lemma PaddedHexRoundTrip(n: nat, width: nat)
    ensures ParseInt(PaddedHex(n, width), 16) == Some(n)
  {
    var digits := ToDigits(n, 16);
    ValueToDigits(n, 16);
    ValueUpper(digits, 16);
    ValueZFill(Upper(digits), width, 16);
  }
}
