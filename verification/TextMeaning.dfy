/** What hexadecimal digits mean, in terms of their order "0123456789abcdef" and of bits alone. */
module TextMeaning {
  import opened Numerals
  import opened WordNumbers
  import opened Words

  /** c is the digit for v. */
  predicate IsDigit(c: char, v: nat) {
    v < 16 && "0123456789abcdef"[v] == c
  }

  ghost predicate IsHexDigit(c: char) {
    exists v: nat :: IsDigit(c, v)
  }

  ghost predicate IsHex(s: string) {
    forall i :: 0 <= i < |s| ==> IsHexDigit(s[i])
  }

  /** Bit i of n. */
  predicate Bit(n: nat, i: nat) {
    if i == 0 then n % 2 == 1 else Bit(n / 2, i - 1)
  }

  /** Bit b of a digit. */
  ghost predicate DigitBit(c: char, b: nat) {
    exists v: nat :: IsDigit(c, v) && Bit(v, b)
  }

  /** Bit i of the number that s is, four to a digit, counted from the right. */
  ghost predicate HexBit(s: string, i: nat) {
    i / 4 < |s| && DigitBit(s[|s| - 1 - i / 4], i % 4)
  }

  // ----- The digits of the printers and of strtoul.

  lemma DigitIs(d: nat)
    requires d < 16
    ensures IsDigit(Digit(d), d)
  {
  }

  lemma ValueIs(c: char, v: nat)
    requires IsDigit(c, v)
    ensures DigitValue(c) == v
    ensures forall w: nat :: IsDigit(c, w) ==> w == v
  {
    var digits := "0123456789abcdef";
    forall w: nat | IsDigit(c, w) ensures DigitValue(c) == w {
      assert w < 10 ==> digits[w] == '0' + w as char;
      assert w >= 10 ==> digits[w] == 'a' + (w - 10) as char;
    }
  }

  lemma HexDigits(s: string)
    requires IsHex(s)
    ensures Digits(s, 16)
  {
    forall i | 0 <= i < |s| ensures DigitValue(s[i]) < 16 {
      assert IsHexDigit(s[i]);
      var v: nat :| IsDigit(s[i], v);
      ValueIs(s[i], v);
    }
  }

  lemma BitsOfDigit(c: char, b: nat)
    requires IsHexDigit(c)
    ensures DigitBit(c, b) <==> Bit(DigitValue(c), b)
  {
    var v: nat :| IsDigit(c, v);
    ValueIs(c, v);
  }

  /** Four bits from the right, and the others. */
  lemma BitsAbove(a: nat, d: nat, i: nat)
    requires d < 16
    ensures Bit(a * 16 + d, i) <==> if i < 4 then Bit(d, i) else Bit(a, i - 4)
  {
    var n := a * 16 + d;
    assert n / 2 == a * 8 + d / 2 && n / 2 / 2 == a * 4 + d / 4 && n / 2 / 2 / 2 == a * 2 + d / 8;
    assert n / 2 / 2 / 2 / 2 == a;
    if i >= 4 {
      assert Bit(n, i) == Bit(n / 2, i - 1) == Bit(n / 2 / 2, i - 2) == Bit(n / 2 / 2 / 2, i - 3) == Bit(a, i - 4);
    } else if i == 3 {
      assert Bit(n, 3) == Bit(n / 2, 2) == Bit(n / 2 / 2, 1) == Bit(n / 2 / 2 / 2, 0);
      assert Bit(d, 3) == Bit(d / 2, 2) == Bit(d / 2 / 2, 1) == Bit(d / 2 / 2 / 2, 0);
    } else if i == 2 {
      assert Bit(n, 2) == Bit(n / 2, 1) == Bit(n / 2 / 2, 0);
      assert Bit(d, 2) == Bit(d / 2, 1) == Bit(d / 2 / 2, 0);
    } else if i == 1 {
      assert Bit(n, 1) == Bit(n / 2, 0) && Bit(d, 1) == Bit(d / 2, 0);
    }
  }

  lemma {:induction false} NoBits(i: nat)
    ensures !Bit(0, i)
  {
    if i > 0 {
      NoBits(i - 1);
    }
  }

  lemma HexBitStep(s: string, i: nat)
    requires s != ""
    ensures HexBit(s, i) <==> if i < 4 then DigitBit(s[|s| - 1], i) else HexBit(s[..|s| - 1], i - 4)
  {
    var front := s[..|s| - 1];
    if i >= 4 {
      assert (i - 4) / 4 == i / 4 - 1 && (i - 4) % 4 == i % 4;
      assert i / 4 < |s| ==> front[|front| - 1 - (i - 4) / 4] == s[|s| - 1 - i / 4];
    }
  }

  lemma FrontIsHex(s: string)
    requires IsHex(s) && s != ""
    ensures IsHex(s[..|s| - 1]) && IsHexDigit(s[|s| - 1])
  {
    assert forall j :: 0 <= j < |s| - 1 ==> s[..|s| - 1][j] == s[j];
  }

  lemma ValueStep(s: string)
    requires IsHex(s) && s != ""
    ensures DigitValue(s[|s| - 1]) < 16
    ensures ValueAfter(s, 16, 0) == ValueAfter(s[..|s| - 1], 16, 0) * 16 + DigitValue(s[|s| - 1])
  {
    HexDigits(s);
  }

  /** The value of digits has the bits that they show. */
  lemma {:induction false} ValueBits(s: string, i: nat)
    requires IsHex(s)
    ensures Bit(ValueAfter(s, 16, 0), i) <==> HexBit(s, i)
  {
    if s == "" {
      NoBits(i);
    } else {
      FrontIsHex(s);
      HexBitStep(s, i);
      ValueStep(s);
      BitsAbove(ValueAfter(s[..|s| - 1], 16, 0), DigitValue(s[|s| - 1]), i);
      if i < 4 {
        BitsOfDigit(s[|s| - 1], i);
      } else {
        ValueBits(s[..|s| - 1], i - 4);
      }
    }
  }

  lemma {:induction false} ValueBelow(s: string)
    requires Digits(s, 16)
    ensures ValueAfter(s, 16, 0) < Power(16, |s|)
  {
    if s != "" {
      var front := s[..|s| - 1];
      ValueBelow(front);
      assert Power(16, |s|) == Power(16, |front|) * 16;
    }
  }

  lemma {:induction false} BitOfBits(n: nat, k: nat, i: nat)
    requires i < k
    ensures BitsOf(n, k)[i] <==> Bit(n, i)
  {
    if i > 0 {
      BitOfBits(n / 2, k - 1, i - 1);
    }
  }

  lemma {:induction false} FixedIsHex(n: nat, w: nat)
    ensures IsHex(Fixed(n, 16, w))
  {
    if w > 0 {
      FixedIsHex(Rest(n, 16), w - 1);
      DigitIs(Last(n, 16));
      var s := Fixed(n, 16, w);
      assert IsHexDigit(s[w - 1]);
      assert forall i :: 0 <= i < w - 1 ==> s[i] == Fixed(Rest(n, 16), 16, w - 1)[i];
    }
  }
}
