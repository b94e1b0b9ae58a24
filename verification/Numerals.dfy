/** Numbers as text: the printf conversions %d, %lx, %08lx and %016lx, and strtoul. */
module Numerals {
  /** The bases of the conversions used here. */
  type Base = b: nat | b == 8 || b == 10 || b == 16 witness 10

  function Times(n: nat, base: Base): nat {
    if base == 8 then n * 8 else if base == 10 then n * 10 else n * 16
  }

  function Rest(n: nat, base: Base): nat {
    if base == 8 then n / 8 else if base == 10 then n / 10 else n / 16
  }

  function Last(n: nat, base: Base): (d: nat)
    ensures d < base && n == Times(Rest(n, base), base) + d
  {
    if base == 8 then n % 8 else if base == 10 then n % 10 else n % 16
  }

  function Digit(d: nat): (c: char)
    requires d < 16
  {
    if d < 10 then '0' + d as char else 'a' + (d - 10) as char
  }

  /** The value of a digit in some base up to 16; 16 for every other character. */
  function DigitValue(c: char): (d: nat)
    ensures d <= 16
  {
    if '0' <= c <= '9' then (c - '0') as nat
    else if 'a' <= c <= 'f' then (c - 'a') as nat + 10
    else if 'A' <= c <= 'F' then (c - 'A') as nat + 10
    else 16
  }

  lemma DigitHasValue(d: nat)
    requires d < 16
    ensures DigitValue(Digit(d)) == d
  {
  }

  /** n as exactly w digits, zeros in front. */
  function Fixed(n: nat, base: Base, w: nat): (s: string)
    ensures |s| == w
  {
    if w == 0 then "" else Fixed(Rest(n, base), base, w - 1) + [Digit(Last(n, base))]
  }

  /** n without leading zeros. */
  function Shortest(n: nat, base: Base): (s: string)
    ensures |s| > 0
  {
    if n < base then [Digit(n)] else Shortest(Rest(n, base), base) + [Digit(Last(n, base))]
  }

  function Power(base: Base, n: nat): (r: nat)
    ensures r > 0
  {
    if n == 0 then 1 else Times(Power(base, n - 1), base)
  }

  predicate Digits(s: string, base: Base) {
    forall i :: 0 <= i < |s| ==> DigitValue(s[i]) < base
  }

  lemma {:induction false} FixedDigits(n: nat, base: Base, w: nat)
    ensures Digits(Fixed(n, base, w), base)
  {
    if w > 0 {
      FixedDigits(Rest(n, base), base, w - 1);
      DigitHasValue(Last(n, base));
    }
  }

  lemma {:induction false} ShortestIsFixed(n: nat, base: Base)
    ensures Shortest(n, base) == Fixed(n, base, |Shortest(n, base)|)
    ensures n < Power(base, |Shortest(n, base)|)
  {
    var w := |Shortest(n, base)|;
    if n < base {
      assert Fixed(n, base, 1) == Fixed(Rest(n, base), base, 0) + [Digit(n)];
    } else {
      ShortestIsFixed(Rest(n, base), base);
      PowerStep(n, base, w);
    }
  }

  lemma PowerStep(n: nat, base: Base, w: nat)
    requires w > 0
    ensures n < Power(base, w) <==> Rest(n, base) < Power(base, w - 1)
  {
  }

  /** The shortest form of a number below base^w has at most w digits. */
  lemma {:induction false} ShortestWidth(n: nat, base: Base, w: nat)
    requires w > 0 && n < Power(base, w)
    ensures |Shortest(n, base)| <= w
  {
    assert Power(base, 0) == 1;
    PowerStep(n, base, w);
    if n >= base && w > 1 {
      ShortestWidth(Rest(n, base), base, w - 1);
    }
  }

  lemma {:induction false} ShortestLeading(n: nat, base: Base)
    ensures Shortest(n, base)[0] == '0' <==> n == 0
  {
    if n >= base {
      ShortestLeading(Rest(n, base), base);
    }
  }

  // ----- Reading.

  /** The leading digits of s, after the digits that gave acc: their value and their number. */
  function Scan(s: string, base: Base, acc: nat): (r: (nat, nat))
    ensures r.1 <= |s|
  {
    if s == "" || DigitValue(s[0]) >= base then (acc, 0)
    else
      var (v, n) := Scan(s[1..], base, Times(acc, base) + DigitValue(s[0]));
      (v, n + 1)
  }

  function ValueAfter(s: string, base: Base, acc: nat): nat {
    if s == "" then acc else Times(ValueAfter(s[..|s| - 1], base, acc), base) + DigitValue(s[|s| - 1])
  }

  lemma {:induction false} ValueFromFront(s: string, base: Base, acc: nat)
    requires s != ""
    ensures ValueAfter(s, base, acc) == ValueAfter(s[1..], base, Times(acc, base) + DigitValue(s[0]))
  {
    if |s| > 1 {
      ValueFromFront(s[..|s| - 1], base, acc);
      assert s[1..][..|s| - 2] == s[..|s| - 1][1..];
    } else {
      assert s[1..] == "" && s[..|s| - 1] == "";
    }
  }

  predicate NoDigitFirst(s: string, base: Base) {
    s == "" || DigitValue(s[0]) >= base
  }

  lemma {:induction false} ScanDigits(s: string, tail: string, base: Base, acc: nat)
    requires Digits(s, base) && NoDigitFirst(tail, base)
    ensures Scan(s + tail, base, acc) == (ValueAfter(s, base, acc), |s|)
  {
    if s == "" {
      assert s + tail == tail;
    } else {
      assert (s + tail)[1..] == s[1..] + tail;
      ScanDigits(s[1..], tail, base, Times(acc, base) + DigitValue(s[0]));
      ValueFromFront(s, base, acc);
    }
  }

  lemma {:induction false} FixedValue(n: nat, base: Base, w: nat)
    requires n < Power(base, w)
    ensures ValueAfter(Fixed(n, base, w), base, 0) == n
  {
    if w > 0 {
      PowerStep(n, base, w);
      FixedValue(Rest(n, base), base, w - 1);
      DigitHasValue(Last(n, base));
      assert Fixed(n, base, w)[..w - 1] == Fixed(Rest(n, base), base, w - 1);
    }
  }

  const ULONG_MAX: nat := 0xffff_ffff_ffff_ffff

  predicate IsSpace(c: char) {
    c == ' ' || c == '\t' || c == '\n' || c == '\r' || c as int == 11 || c as int == 12
  }

  function Spaces(s: string): (n: nat)
    ensures n <= |s|
    ensures n < |s| ==> !IsSpace(s[n])
  {
    if s == "" || !IsSpace(s[0]) then 0 else 1 + Spaces(s[1..])
  }

  predicate HexPrefix(s: string) {
    |s| > 2 && s[0] == '0' && (s[1] == 'x' || s[1] == 'X') && DigitValue(s[2]) < 16
  }

  /** The base of the digits that follow white space and sign, and the length of the prefix announcing it. */
  function Announced(s: string, base: nat): (r: (Base, nat))
    requires base == 0 || base == 16
    ensures r.1 <= |s|
  {
    if HexPrefix(s) then (16, 2)
    else if base == 16 then (16, 0)
    else (if s != "" && s[0] == '0' then 8 else 10, 0)
  }

  /** strtoul: the value, and how many characters were consumed (none if there is no number). */
  function Strtoul(s: string, base: nat): (r: (nat, nat))
    requires base == 0 || base == 16
    ensures r.1 <= |s|
    ensures r.0 <= ULONG_MAX
  {
    var i := Spaces(s);
    var signed := i < |s| && (s[i] == '-' || s[i] == '+');
    var start := if signed then i + 1 else i;
    var (b, skip) := Announced(s[start..], base);
    var (v, n) := Scan(s[start + skip..], b, 0);
    if n == 0 then (0, 0)
    else if v > ULONG_MAX then (ULONG_MAX, start + skip + n)
    else if signed && s[i] == '-' && v > 0 then (ULONG_MAX + 1 - v, start + skip + n)
    else (v, start + skip + n)
  }

  lemma StrtoulPlain(s: string, base: nat, b: Base, skip: nat, v: nat, n: nat)
    requires base == 0 || base == 16
    requires s != "" && DigitValue(s[0]) < 16 && Announced(s, base) == (b, skip)
    requires Scan(s[skip..], b, 0) == (v, n) && n > 0 && v <= ULONG_MAX
    ensures Strtoul(s, base) == (v, skip + n)
  {
    assert s[0..] == s;
  }

  lemma ScanFixed(n: nat, w: nat, tail: string)
    requires w > 0 && n < Power(16, w) && NoDigitFirst(tail, 16)
    ensures Scan(Fixed(n, 16, w) + tail, 16, 0) == (n, w)
    ensures Digits(Fixed(n, 16, w), 16)
  {
    FixedDigits(n, 16, w);
    FixedValue(n, 16, w);
    ScanDigits(Fixed(n, 16, w), tail, 16, 0);
  }

  /** Hexadecimal digits, with 0x in front or not, are read back. */
  lemma StrtoulPrefixed(n: nat, w: nat, tail: string)
    requires w > 0 && n < Power(16, w) && n <= ULONG_MAX && NoDigitFirst(tail, 16)
    ensures Strtoul("0x" + Fixed(n, 16, w) + tail, 16) == (n, w + 2)
  {
    var s := "0x" + Fixed(n, 16, w) + tail;
    ScanFixed(n, w, tail);
    assert s[2..] == Fixed(n, 16, w) + tail;
    assert s[2] == Fixed(n, 16, w)[0];
    StrtoulPlain(s, 16, 16, 2, n, w);
  }

  lemma NotPrefixed(s: string)
    requires Digits(s, 16)
    ensures Announced(s, 16) == (16, 0)
  {
    assert |s| > 1 ==> DigitValue(s[1]) < 16;
  }

  lemma StrtoulDigits(s: string, v: nat)
    requires s != "" && Digits(s, 16) && Scan(s, 16, 0) == (v, |s|) && v <= ULONG_MAX
    ensures Strtoul(s, 16) == (v, |s|)
  {
    assert s[0..] == s;
    NotPrefixed(s);
    StrtoulPlain(s, 16, 16, 0, v, |s|);
  }

  lemma StrtoulBare(n: nat, w: nat)
    requires w > 0 && n < Power(16, w) && n <= ULONG_MAX
    ensures Strtoul(Fixed(n, 16, w), 16) == (n, w)
  {
    ScanFixed(n, w, "");
    assert Fixed(n, 16, w) + "" == Fixed(n, 16, w);
    StrtoulDigits(Fixed(n, 16, w), n);
  }

  lemma ScanDecimal(n: nat, tail: string)
    requires NoDigitFirst(tail, 10)
    ensures Scan(Shortest(n, 10) + tail, 10, 0) == (n, |Shortest(n, 10)|)
    ensures DigitValue(Shortest(n, 10)[0]) < 10
  {
    ShortestIsFixed(n, 10);
    FixedDigits(n, 10, |Shortest(n, 10)|);
    FixedValue(n, 10, |Shortest(n, 10)|);
    ScanDigits(Shortest(n, 10), tail, 10, 0);
  }

  /** A decimal number without leading zeros is read back when the base is left open. */
  lemma StrtoulDecimal(n: nat, tail: string)
    requires n <= ULONG_MAX && (tail == "" || tail[0] == ',' || tail[0] == '-')
    ensures Strtoul(Shortest(n, 10) + tail, 0) == (n, |Shortest(n, 10)|)
  {
    var s := Shortest(n, 10) + tail;
    ShortestLeading(n, 10);
    ScanDecimal(n, tail);
    assert s[0..] == s;
    if n == 0 {
      ZeroIsOctal(tail);
      StrtoulPlain(s, 0, 8, 0, 0, 1);
    } else {
      assert !HexPrefix(s);
      StrtoulPlain(s, 0, 10, 0, n, |Shortest(n, 10)|);
    }
  }

  lemma ZeroIsOctal(tail: string)
    requires tail == "" || tail[0] == ',' || tail[0] == '-'
    ensures Shortest(0, 10) == "0" && Announced("0" + tail, 0) == (8, 0)
    ensures Scan("0" + tail, 8, 0) == (0, 1)
  {
    assert ("0" + tail)[1..] == tail;
  }
}

/** Words as numbers. */
module WordNumbers {
  import opened Words
  import opened Numerals

  function NatOf(bits: seq<bool>): nat {
    if bits == [] then 0 else (if bits[0] then 1 else 0) + 2 * NatOf(bits[1..])
  }

  function BitsOf(n: nat, k: nat): (bits: seq<bool>)
    ensures |bits| == k
  {
    if k == 0 then [] else [n % 2 == 1] + BitsOf(n / 2, k - 1)
  }

  function ToNat(w: Word): nat { NatOf(w) }

  /** The number modulo 2^64. */
  function FromNat(n: nat): Word { BitsOf(n, 64) }

  lemma {:induction false} BitsRoundTrip(bits: seq<bool>, k: nat)
    requires |bits| <= k
    ensures NatOf(bits) < Pow2(|bits|)
    ensures forall i :: 0 <= i < k ==> BitsOf(NatOf(bits), k)[i] == (i < |bits| && bits[i])
  {
    if bits == [] {
      ZeroBits(k);
    } else {
      BitsRoundTrip(bits[1..], k - 1);
      var n := NatOf(bits[1..]);
      assert NatOf(bits) / 2 == n;
    }
  }

  lemma {:induction false} ZeroBits(k: nat)
    ensures forall i :: 0 <= i < k ==> !BitsOf(0, k)[i]
  {
    if k > 0 {
      ZeroBits(k - 1);
    }
  }

  lemma {:induction false} AllFalse(bits: seq<bool>)
    ensures NatOf(bits) == 0 <==> forall i :: 0 <= i < |bits| ==> !bits[i]
  {
    if bits != [] {
      AllFalse(bits[1..]);
      assert forall i :: 0 <= i < |bits| - 1 ==> bits[1..][i] == bits[i + 1];
    }
  }
}
