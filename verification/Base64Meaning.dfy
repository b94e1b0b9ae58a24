/** What an encoding is, in terms of the alphabet and of numbers alone (section 4 of RFC 4648): it ties the
    encoding of Base64 to more than its own inverse. */
module Base64Meaning {
  import opened Base64

  /** c stands for v. */
  predicate StandsFor(c: char, v: nat) {
    v < 64 && ("ABCDEFGHIJKLMNOPQRSTUVWXYZ" + "abcdefghijklmnopqrstuvwxyz" + "0123456789+/")[v] == c
  }

  lemma Upper(v: nat)
    requires v < 26
    ensures StandsFor('A' + v as char, v)
  {
  }

  lemma Lower(v: nat)
    requires 26 <= v < 52
    ensures StandsFor('a' + (v - 26) as char, v)
  {
  }

  lemma Figure(v: nat)
    requires 52 <= v < 62
    ensures StandsFor('0' + (v - 52) as char, v)
  {
  }

  /** A digit is the character of the alphabet at its value, and the position of a character is its index. */
  lemma AlphabetInOrder(v: Sextet, c: char)
    ensures StandsFor(Digit(v), v)
    ensures Position(c) == Some(v) <==> StandsFor(c, v)
  {
    if v < 26 {
      Upper(v);
    } else if v < 52 {
      Lower(v);
    } else if v < 62 {
      Figure(v);
    }
    DigitPosition(v, c);
  }

  /** The characters u, v, w, x stand for the 24 bits of the bytes a, b, c: read as a number in base 64, that
      is the bytes read in base 256. */
  ghost predicate SameNumber(four: string, a: Byte, b: Byte, c: Byte) {
    |four| == 4 &&
    exists u: nat, v: nat, w: nat, x: nat ::
      && StandsFor(four[0], u) && StandsFor(four[1], v) && StandsFor(four[2], w) && StandsFor(four[3], x)
      && ((u * 64 + v) * 64 + w) * 64 + x == (a * 256 + b) * 256 + c
  }

  /** Two bytes, and two zero bits. */
  ghost predicate SameShortNumber(four: string, a: Byte, b: Byte) {
    |four| == 4 && four[3] == '=' &&
    exists u: nat, v: nat, w: nat ::
      && StandsFor(four[0], u) && StandsFor(four[1], v) && StandsFor(four[2], w)
      && (u * 64 + v) * 64 + w == (a * 256 + b) * 4
  }

  /** One byte, and four zero bits. */
  ghost predicate SameByte(four: string, a: Byte) {
    |four| == 4 && four[2] == '=' && four[3] == '=' &&
    exists u: nat, v: nat :: StandsFor(four[0], u) && StandsFor(four[1], v) && u * 64 + v == a * 16
  }

  lemma QuadNumber(a: Byte, b: Byte, c: Byte)
    ensures var q := Quad(a, b, c);
            ((q[0] as int * 64 + q[1]) * 64 + q[2]) * 64 + q[3] == (a as int * 256 + b) * 256 + c
  {
    assert a == 4 * (a / 4) + a % 4 && b == 16 * (b / 16) + b % 16 && c == 64 * (c / 64) + c % 64;
  }

  lemma QuadMeans(a: Byte, b: Byte, c: Byte)
    ensures SameNumber(DigitsOf(Quad(a, b, c)), a, b, c)
  {
    var q := Quad(a, b, c);
    QuadNumber(a, b, c);
    AlphabetInOrder(q[0], 'A');
    AlphabetInOrder(q[1], 'A');
    AlphabetInOrder(q[2], 'A');
    AlphabetInOrder(q[3], 'A');
  }

  lemma ByteBy(four: string, a: Byte, u: nat, v: nat)
    requires |four| == 4 && four[2] == '=' && four[3] == '='
    requires StandsFor(four[0], u) && StandsFor(four[1], v) && u * 64 + v == a * 16
    ensures SameByte(four, a)
  {
  }

  lemma ShortBy(four: string, a: Byte, b: Byte, u: nat, v: nat, w: nat)
    requires |four| == 4 && four[3] == '='
    requires StandsFor(four[0], u) && StandsFor(four[1], v) && StandsFor(four[2], w)
    requires (u * 64 + v) * 64 + w == (a * 256 + b) * 4
    ensures SameShortNumber(four, a, b)
  {
  }

  lemma OneMeans(a: Byte)
    ensures SameByte(Rest([a]), a)
  {
    var u, v: Sextet := a / 4, (a % 4) * 16;
    assert Quad(a, 0, 0)[..2] == [u, v];
    assert Rest([a]) == [Digit(u), Digit(v), '=', '='];
    AlphabetInOrder(u, 'A');
    AlphabetInOrder(v, 'A');
    ByteBy([Digit(u), Digit(v), '=', '='], a, u, v);
  }

  lemma TwoMean(a: Byte, b: Byte)
    ensures SameShortNumber(Rest([a, b]), a, b)
  {
    var u, v, w: Sextet := a / 4, (a % 4) * 16 + b / 16, (b % 16) * 4;
    assert Quad(a, b, 0)[..3] == [u, v, w];
    assert Rest([a, b]) == [Digit(u), Digit(v), Digit(w), '='];
    AlphabetInOrder(u, 'A');
    AlphabetInOrder(v, 'A');
    AlphabetInOrder(w, 'A');
    assert a as int == 4 * (a / 4) + a % 4 && b as int == 16 * (b / 16) + b % 16;
    ShortBy([Digit(u), Digit(v), Digit(w), '='], a, b, u, v, w);
  }

  /** The characters at k's place in a text encode the bytes at k's place: three of them, or what is left. */
  ghost predicate GroupIs(text: string, bytes: seq<Byte>, k: nat)
    requires 3 * k < |bytes|
  {
    && |text| >= 4 * k + 4
    && var four, left := text[4 * k..4 * k + 4], |bytes| - 3 * k;
    if left >= 3 then SameNumber(four, bytes[3 * k], bytes[3 * k + 1], bytes[3 * k + 2])
    else if left == 2 then SameShortNumber(four, bytes[3 * k], bytes[3 * k + 1])
    else SameByte(four, bytes[3 * k])
  }

  lemma FirstGroup(bytes: seq<Byte>)
    requires bytes != []
    ensures GroupIs(Encoded(bytes), bytes, 0)
  {
    var text := Encoded(bytes);
    EncodedLength(bytes);
    if |bytes| == 1 {
      assert bytes == [bytes[0]] && text[0..4] == text;
      OneMeans(bytes[0]);
    } else if |bytes| == 2 {
      assert bytes == [bytes[0], bytes[1]] && text[0..4] == text;
      TwoMean(bytes[0], bytes[1]);
    } else {
      QuadMeans(bytes[0], bytes[1], bytes[2]);
      assert text[0..4] == DigitsOf(Quad(bytes[0], bytes[1], bytes[2]));
    }
  }

  lemma LaterGroup(text: string, bytes: seq<Byte>, k: nat)
    requires 0 < k && 3 * k < |bytes| && |text| >= 4 && GroupIs(text[4..], bytes[3..], k - 1)
    ensures GroupIs(text, bytes, k)
  {
    assert text[4..][4 * (k - 1)..4 * (k - 1) + 4] == text[4 * k..4 * k + 4];
  }

  /** Every group of an encoding, from first to last, is the number that the bytes of its place are. */
  lemma {:induction false} GroupMeans(bytes: seq<Byte>, k: nat)
    requires 3 * k < |bytes|
    ensures GroupIs(Encoded(bytes), bytes, k)
    ensures 3 * k + 3 >= |bytes| ==> |Encoded(bytes)| == 4 * k + 4
    decreases k
  {
    EncodedLength(bytes);
    if k == 0 {
      FirstGroup(bytes);
    } else {
      GroupMeans(bytes[3..], k - 1);
      assert Encoded(bytes)[4..] == Encoded(bytes[3..]);
      LaterGroup(Encoded(bytes), bytes, k);
    }
  }

  /** The test vectors of section 10 of RFC 4648. */
  lemma TestVectors()
    ensures Encoded([]) == "" && Encoded([102]) == "Zg==" && Encoded([102, 111]) == "Zm8="
    ensures Encoded([102, 111, 111]) == "Zm9v" && Encoded([102, 111, 111, 98]) == "Zm9vYg=="
    ensures Encoded([102, 111, 111, 98, 97]) == "Zm9vYmE=" && Encoded([102, 111, 111, 98, 97, 114]) == "Zm9vYmFy"
  {
    ShortVectors();
    FirstThree([]);
    FirstThree([98]);
    FirstThree([98, 97]);
    FirstThree([98, 97, 114]);
  }

  lemma FirstThree(rest: seq<Byte>)
    ensures Encoded([102, 111, 111] + rest) == "Zm9v" + Encoded(rest)
  {
    var bytes := [102, 111, 111] + rest;
    assert bytes[3..] == rest;
    assert Quad(102, 111, 111) == [25, 38, 61, 47] && DigitsOf([25, 38, 61, 47]) == "Zm9v";
  }

  lemma ShortVectors()
    ensures Encoded([]) == "" && Encoded([102]) == "Zg==" && Encoded([102, 111]) == "Zm8="
    ensures Encoded([98]) == "Yg==" && Encoded([98, 97]) == "YmE=" && Encoded([98, 97, 114]) == "YmFy"
  {
    OneByte(102, 25, 32);
    OneByte(98, 24, 32);
    TwoBytes(102, 111, 25, 38, 60);
    TwoBytes(98, 97, 24, 38, 4);
    assert Quad(98, 97, 114) == [24, 38, 5, 50] && DigitsOf([24, 38, 5, 50]) == "YmFy";
    assert [98, 97, 114][3..] == [];
  }

  lemma OneByte(a: Byte, u: Sextet, v: Sextet)
    requires Quad(a, 0, 0)[..2] == [u, v]
    ensures Encoded([a]) == [Digit(u), Digit(v), '=', '=']
  {
    assert ShortDigits([a]) == [u, v];
  }

  lemma TwoBytes(a: Byte, b: Byte, u: Sextet, v: Sextet, w: Sextet)
    requires Quad(a, b, 0)[..3] == [u, v, w]
    ensures Encoded([a, b]) == [Digit(u), Digit(v), Digit(w), '=']
  {
    assert ShortDigits([a, b]) == [u, v, w];
  }

  lemma {:induction false} StripAppend(s: string, t: string)
    ensures Strip(s + t) == Strip(s) + Strip(t)
  {
    if s == "" {
      assert s + t == t;
    } else {
      assert (s + t)[1..] == s[1..] + t;
      StripAppend(s[1..], t);
    }
  }

  /** In a text to decode, a blank, tabulator, newline, return, vertical tab or form feed may stand anywhere,
      and nothing else is passed over. */
  lemma OnlySpacePassedOver(s: string, c: char, t: string)
    ensures Strip(s + [c] + t) ==
            if c in {' ', '\t', '\n', '\r', 11 as char, 12 as char} then Strip(s + t) else Strip(s) + [c] + Strip(t)
  {
    StripAppend(s + [c], t);
    StripAppend(s, [c]);
    StripAppend(s, t);
    assert [c][1..] == "" && Strip("") == "";
  }
}
