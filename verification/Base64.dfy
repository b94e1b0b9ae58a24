/** Base64 (src/hwloc/hwloc/base64.c; section 5.2 of RFC 1521, section 4 of RFC 4648): what is an encoding
    of what. A sextet is the value of one digit. */
module Base64 {
  type Byte = b: nat | b < 256

  type Sextet = v: nat | v < 64

  datatype Option<T> = None | Some(value: T)

  const PAD64 := '='

  function Digit(v: Sextet): char {
    if v < 26 then 'A' + v as char
    else if v < 52 then 'a' + (v - 26) as char
    else if v < 62 then '0' + (v - 52) as char
    else if v == 62 then '+' else '/'
  }

  /** The position of a character in the alphabet. */
  function Position(c: char): Option<Sextet> {
    if 'A' <= c <= 'Z' then Some((c - 'A') as nat)
    else if 'a' <= c <= 'z' then Some((c - 'a') as nat + 26)
    else if '0' <= c <= '9' then Some((c - '0') as nat + 52)
    else if c == '+' then Some(62)
    else if c == '/' then Some(63)
    else None
  }

  lemma DigitPosition(v: Sextet, c: char)
    ensures Position(Digit(v)) == Some(v) && Digit(v) != PAD64
    ensures Position(c).Some? ==> Digit(Position(c).value) == c
  {
  }

  function DigitsOf(vals: seq<Sextet>): (s: string)
    ensures |s| == |vals| && forall i :: 0 <= i < |vals| ==> s[i] == Digit(vals[i])
  {
    seq(|vals|, i requires 0 <= i < |vals| => Digit(vals[i]))
  }

  // ----- Encoding.

  /** Three bytes are four sextets. */
  function Quad(a: Byte, b: Byte, c: Byte): (q: seq<Sextet>)
    ensures |q| == 4
  {
    [a / 4, (a % 4) * 16 + b / 16, (b % 16) * 4 + c / 64, c % 64]
  }

  /** One or two bytes at the end, filled up with zero bits. */
  function ShortDigits(bytes: seq<Byte>): (q: seq<Sextet>)
    requires |bytes| < 3
    ensures |q| < 4
  {
    if |bytes| == 0 then [] else if |bytes| == 1 then Quad(bytes[0], 0, 0)[..2] else Quad(bytes[0], bytes[1], 0)[..3]
  }

  function ShortPad(bytes: seq<Byte>): string
    requires |bytes| < 3
  {
    if |bytes| == 0 then "" else if |bytes| == 1 then "==" else "="
  }

  function Rest(bytes: seq<Byte>): string
    requires |bytes| < 3
  {
    DigitsOf(ShortDigits(bytes)) + ShortPad(bytes)
  }

  function Encoded(bytes: seq<Byte>): string {
    if |bytes| < 3 then Rest(bytes) else DigitsOf(Quad(bytes[0], bytes[1], bytes[2])) + Encoded(bytes[3..])
  }

  lemma {:induction false} EncodedLength(bytes: seq<Byte>)
    ensures |Encoded(bytes)| == 4 * ((|bytes| + 2) / 3)
  {
    if |bytes| >= 3 {
      EncodedLength(bytes[3..]);
      assert (|bytes| + 2) / 3 == (|bytes| - 3 + 2) / 3 + 1;
    }
  }

  // ----- Decoding.

  /** isspace. */
  predicate IsSpace(c: char) {
    c == ' ' || 9 <= c as int <= 13
  }

  function Strip(s: string): string {
    if s == "" then "" else if IsSpace(s[0]) then Strip(s[1..]) else [s[0]] + Strip(s[1..])
  }

  // The three bytes that four sextets make up.

  function First(u: Sextet, v: Sextet): Byte { u * 4 + v / 16 }

  function Second(v: Sextet, w: Sextet): Byte { (v % 16) * 16 + w / 4 }

  function Third(w: Sextet, x: Sextet): Byte { (w % 4) * 64 + x }

  lemma QuadBack(a: Byte, b: Byte, c: Byte)
    ensures var q := Quad(a, b, c); First(q[0], q[1]) == a && Second(q[1], q[2]) == b && Third(q[2], q[3]) == c
  {
  }

  /** Fields of a byte: high times 2^k plus low, with low below 2^k. */
  lemma Fields(high: nat, low: nat)
    ensures low < 4 ==> (high * 4 + low) / 4 == high && (high * 4 + low) % 4 == low
    ensures low < 16 ==> (high * 16 + low) / 16 == high && (high * 16 + low) % 16 == low
    ensures low < 64 ==> (high * 64 + low) / 64 == high && (high * 64 + low) % 64 == low
  {
  }

  lemma TripleBack(u: Sextet, v: Sextet, w: Sextet, x: Sextet)
    ensures Quad(First(u, v), Second(v, w), Third(w, x)) == [u, v, w, x]
  {
    Fields(u, v / 16);
    Fields(v % 16, w / 4);
    Fields(w % 4, x);
  }

  /** Groups of four. */
  predicate Whole(vals: seq<Sextet>) {
    vals == [] || (|vals| >= 4 && Whole(vals[4..]))
  }

  function Bytes(vals: seq<Sextet>): (bytes: seq<Byte>)
    requires Whole(vals)
  {
    if vals == [] then []
    else [First(vals[0], vals[1]), Second(vals[1], vals[2]), Third(vals[2], vals[3])] + Bytes(vals[4..])
  }

  /** The bytes that an unfinished group has completed. */
  function Done(pending: seq<Sextet>): (bytes: seq<Byte>)
    requires |pending| < 4
    ensures |bytes| == if |pending| < 2 then 0 else |pending| - 1
  {
    if |pending| < 2 then []
    else if |pending| == 2 then [First(pending[0], pending[1])]
    else [First(pending[0], pending[1]), Second(pending[1], pending[2])]
  }

  /** Its bits that are not in a completed byte, on their way into the next one. */
  function Slack(pending: seq<Sextet>): Byte
    requires |pending| < 4
  {
    if |pending| == 0 then 0
    else if |pending| == 1 then First(pending[0], 0)
    else if |pending| == 2 then Second(pending[1], 0)
    else Third(pending[2], 0)
  }

  /** How a text may end after whole groups: nothing unfinished, or padding and no slack. */
  predicate GoodEnd(pending: seq<Sextet>, rest: string) {
    || (|pending| == 0 && rest == "")
    || (|pending| == 2 && rest == "==" && Slack(pending) == 0)
    || (|pending| == 3 && rest == "=" && Slack(pending) == 0)
  }

  lemma EndEncodes(pending: seq<Sextet>, rest: string)
    requires |pending| < 4 && GoodEnd(pending, rest)
    ensures Encoded(Done(pending)) == DigitsOf(pending) + rest
  {
    if |pending| == 2 {
      TripleBack(pending[0], pending[1], 0, 0);
    } else if |pending| == 3 {
      TripleBack(pending[0], pending[1], pending[2], 0);
    }
    assert ShortDigits(Done(pending)) == pending && ShortPad(Done(pending)) == rest;
  }

  lemma ShortBack(bytes: seq<Byte>)
    requires |bytes| < 3
    ensures GoodEnd(ShortDigits(bytes), ShortPad(bytes)) && Done(ShortDigits(bytes)) == bytes
  {
    if |bytes| == 1 {
      QuadBack(bytes[0], 0, 0);
    } else if |bytes| == 2 {
      QuadBack(bytes[0], bytes[1], 0);
    }
  }

  /** Encoding what was decoded gives the text back. */
  lemma {:induction false} EncodedBack(full: seq<Sextet>, pending: seq<Sextet>, rest: string)
    requires Whole(full) && |pending| < 4 && GoodEnd(pending, rest)
    ensures Encoded(Bytes(full) + Done(pending)) == DigitsOf(full + pending) + rest
    decreases |full|
  {
    if full == [] {
      EndEncodes(pending, rest);
      assert [] + Done(pending) == Done(pending) && [] + pending == pending;
    } else {
      EncodedBack(full[4..], pending, rest);
      OneMoreGroup(full, pending, rest);
    }
  }

  lemma OneMoreGroup(full: seq<Sextet>, pending: seq<Sextet>, rest: string)
    requires full != [] && Whole(full) && |pending| < 4
    requires Encoded(Bytes(full[4..]) + Done(pending)) == DigitsOf(full[4..] + pending) + rest
    ensures Encoded(Bytes(full) + Done(pending)) == DigitsOf(full + pending) + rest
  {
    QuadOfTriple(full);
    EncodedStep(Bytes(full) + Done(pending), Bytes(full[4..]) + Done(pending), full[..4]);
    DigitsSplit(full, pending, rest);
  }

  lemma EncodedStep(bytes: seq<Byte>, tail: seq<Byte>, q: seq<Sextet>)
    requires |bytes| >= 3 && bytes[3..] == tail && Quad(bytes[0], bytes[1], bytes[2]) == q
    ensures Encoded(bytes) == DigitsOf(q) + Encoded(tail)
  {
  }

  lemma QuadOfTriple(full: seq<Sextet>)
    requires |full| >= 4 && Whole(full)
    ensures |Bytes(full)| >= 3 && Quad(Bytes(full)[0], Bytes(full)[1], Bytes(full)[2]) == full[..4]
  {
    TripleBack(full[0], full[1], full[2], full[3]);
  }

  lemma DigitsSplit(full: seq<Sextet>, pending: seq<Sextet>, rest: string)
    requires |full| >= 4
    ensures DigitsOf(full + pending) + rest == DigitsOf(full[..4]) + (DigitsOf(full[4..] + pending) + rest)
  {
  }

  /** The end of a text's digits. */
  predicate NoDigitFirst(rest: string) {
    rest == "" || Position(rest[0]).None?
  }

  lemma DigitsAt(a: seq<Sextet>, s: string)
    ensures forall i :: 0 <= i < |a| ==> Position((DigitsOf(a) + s)[i]).Some?
    ensures s != "" ==> (DigitsOf(a) + s)[|a|] == s[0]
  {
  }

  lemma NotShorter(a: seq<Sextet>, s: string, b: seq<Sextet>, t: string)
    requires NoDigitFirst(s) && DigitsOf(a) + s == DigitsOf(b) + t
    ensures |a| >= |b|
  {
    DigitsAt(a, s);
    DigitsAt(b, t);
  }

  lemma SameLength(a: seq<Sextet>, s: string, b: seq<Sextet>, t: string)
    requires |a| == |b| && DigitsOf(a) + s == DigitsOf(b) + t
    ensures a == b && s == t
  {
    var text := DigitsOf(a) + s;
    forall i | 0 <= i < |a| ensures a[i] == b[i] {
      DigitPosition(a[i], 'A');
      DigitPosition(b[i], 'A');
      assert text[i] == Digit(a[i]) && (DigitsOf(b) + t)[i] == Digit(b[i]);
    }
    assert s == text[|a|..] && t == (DigitsOf(b) + t)[|b|..];
  }

  /** Where digits end, and which they are, is plain from the text. */
  lemma SameSplit(a: seq<Sextet>, s: string, b: seq<Sextet>, t: string)
    requires NoDigitFirst(s) && NoDigitFirst(t) && DigitsOf(a) + s == DigitsOf(b) + t
    ensures a == b && s == t
  {
    NotShorter(a, s, b, t);
    NotShorter(b, t, a, s);
    SameLength(a, s, b, t);
  }

  lemma ShortText(bytes: seq<Byte>) returns (q: seq<Sextet>, pad: string)
    requires |bytes| < 3
    ensures |q| < 4 && NoDigitFirst(pad) && Encoded(bytes) == DigitsOf(q) + pad
    ensures GoodEnd(q, pad) && Done(q) == bytes
  {
    q, pad := ShortDigits(bytes), ShortPad(bytes);
    ShortBack(bytes);
  }

  lemma RestShape(bytes: seq<Byte>, pending: seq<Sextet>, rest: string)
    requires |pending| < 4 && NoDigitFirst(rest) && Encoded(bytes) == DigitsOf(pending) + rest
    ensures |bytes| < 3 && GoodEnd(pending, rest) && bytes == Done(pending)
  {
    if |bytes| >= 3 {
      NotShorter(pending, rest, Quad(bytes[0], bytes[1], bytes[2]), Encoded(bytes[3..]));
    } else {
      var q, pad := ShortText(bytes);
      SameSplit(q, pad, pending, rest);
    }
  }

  /** A text that starts with four digits encodes at least three bytes. */
  lemma FirstQuad(bytes: seq<Byte>, vals: seq<Sextet>, rest: string)
    requires |vals| >= 4 && Encoded(bytes) == DigitsOf(vals) + rest
    ensures |bytes| >= 3 && Quad(bytes[0], bytes[1], bytes[2]) == vals[..4]
    ensures Encoded(bytes[3..]) == DigitsOf(vals[4..]) + rest
  {
    AtLeastThree(bytes, vals, rest);
    FourAndMore(vals, rest);
    SameLength(Quad(bytes[0], bytes[1], bytes[2]), Encoded(bytes[3..]), vals[..4], DigitsOf(vals[4..]) + rest);
  }

  lemma AtLeastThree(bytes: seq<Byte>, vals: seq<Sextet>, rest: string)
    requires |vals| >= 4 && Encoded(bytes) == DigitsOf(vals) + rest
    ensures |bytes| >= 3
  {
    if |bytes| < 3 {
      var q, pad := ShortText(bytes);
      NotShorter(q, pad, vals, rest);
    }
  }

  lemma FourAndMore(vals: seq<Sextet>, rest: string)
    requires |vals| >= 4
    ensures DigitsOf(vals) + rest == DigitsOf(vals[..4]) + (DigitsOf(vals[4..]) + rest)
  {
  }

  /** A text is an encoding only of what it decodes to, and only if it ends as it must. */
  lemma {:induction false} OnlyEncoding(bytes: seq<Byte>, full: seq<Sextet>, pending: seq<Sextet>, rest: string)
    requires Whole(full) && |pending| < 4 && NoDigitFirst(rest) && Encoded(bytes) == DigitsOf(full + pending) + rest
    ensures GoodEnd(pending, rest) && bytes == Bytes(full) + Done(pending)
    decreases |full|
  {
    if full == [] {
      assert full + pending == pending;
      RestShape(bytes, pending, rest);
    } else {
      FirstQuad(bytes, full + pending, rest);
      assert (full + pending)[4..] == full[4..] + pending && (full + pending)[..4] == full[..4];
      OnlyEncoding(bytes[3..], full[4..], pending, rest);
      FirstTriple(bytes, full);
    }
  }

  lemma FirstTriple(bytes: seq<Byte>, full: seq<Sextet>)
    requires |bytes| >= 3 && |full| >= 4 && Whole(full) && Quad(bytes[0], bytes[1], bytes[2]) == full[..4]
    ensures Bytes(full) == bytes[..3] + Bytes(full[4..])
  {
    QuadBack(bytes[0], bytes[1], bytes[2]);
    assert forall i :: 0 <= i < 4 ==> full[i] == full[..4][i];
  }

  // ----- Room for decoding.

  /** The buffer that decoding to these bytes needs: one more than the bytes, unless they fill groups. */
  function Room(bytes: seq<Byte>): nat {
    if |bytes| == 0 then 0 else if |bytes| < 3 then |bytes| + 1 else 3 + Room(bytes[3..])
  }

  lemma {:induction false} RoomIs(bytes: seq<Byte>)
    ensures Room(bytes) == |bytes| + if |bytes| % 3 == 0 then 0 else 1
  {
    if |bytes| >= 3 {
      RoomIs(bytes[3..]);
    }
  }

  /** What the n-th digit of a group, from 0, needs behind the whole groups. */
  function Need(n: nat): nat {
    if n < 3 then n + 1 else 3
  }

  lemma {:induction false} NeedsRoom(bytes: seq<Byte>, full: seq<Sextet>, pending: seq<Sextet>, v: Sextet, rest: string)
    requires Whole(full) && |pending| < 4 && Encoded(bytes) == DigitsOf(full + pending + [v]) + rest
    ensures Room(bytes) >= |Bytes(full)| + Need(|pending|)
    decreases |full|
  {
    var all := full + pending + [v];
    if full == [] {
      assert all == pending + [v];
      if |bytes| < 3 {
        DigitPosition(v, 'A');
        assert Encoded(bytes)[|pending|] == Digit(v);
      }
    } else {
      FirstQuad(bytes, all, rest);
      assert all[4..] == full[4..] + pending + [v];
      NeedsRoom(bytes[3..], full[4..], pending, v, rest);
    }
  }

  lemma {:induction false} RoomOf(full: seq<Sextet>, pending: seq<Sextet>)
    requires Whole(full) && |pending| < 4 && |pending| != 1
    ensures Room(Bytes(full) + Done(pending)) == |Bytes(full)| + |pending|
    decreases |full|
  {
    if full == [] {
      assert [] + Done(pending) == Done(pending);
    } else {
      RoomOf(full[4..], pending);
      RoomStep(Bytes(full) + Done(pending), Bytes(full[4..]) + Done(pending));
    }
  }

  lemma RoomStep(bytes: seq<Byte>, tail: seq<Byte>)
    requires |bytes| >= 3 && bytes[3..] == tail
    ensures Room(bytes) == 3 + Room(tail)
  {
  }

  lemma {:induction false} WholeAppend(full: seq<Sextet>, q: seq<Sextet>)
    requires Whole(full) && |q| == 4
    ensures Whole(full + q)
    ensures Bytes(full + q) == Bytes(full) + [First(q[0], q[1]), Second(q[1], q[2]), Third(q[2], q[3])]
    decreases |full|
  {
    if full == [] {
      assert full + q == q && q[4..] == [];
    } else {
      assert (full + q)[4..] == full[4..] + q;
      WholeAppend(full[4..], q);
    }
  }

  // ----- Round trips.

  /** Different bytes have different encodings. */
  lemma {:induction false} EncodedInjective(a: seq<Byte>, b: seq<Byte>)
    requires Encoded(a) == Encoded(b)
    ensures a == b
    decreases |a| + |b|
  {
    if |a| < 3 && |b| < 3 {
      var q, pad := ShortText(a);
      var q', pad' := ShortText(b);
      SameSplit(q, pad, q', pad');
    } else if |a| >= 3 {
      SameFirst(a, b);
      EncodedInjective(a[3..], b[3..]);
    } else {
      SameFirst(b, a);
    }
  }

  lemma SameFirst(a: seq<Byte>, b: seq<Byte>)
    requires |a| >= 3 && Encoded(a) == Encoded(b)
    ensures |b| >= 3 && a[..3] == b[..3] && Encoded(a[3..]) == Encoded(b[3..])
    ensures a[3..] == b[3..] ==> a == b
  {
    var q := Quad(a[0], a[1], a[2]);
    FirstQuad(b, q, Encoded(a[3..]));
    assert q[..4] == q && DigitsOf(q[4..]) + Encoded(a[3..]) == Encoded(a[3..]);
    QuadBack(a[0], a[1], a[2]);
    QuadBack(b[0], b[1], b[2]);
    assert a == a[..3] + a[3..] && b == b[..3] + b[3..];
  }

  lemma {:induction false} StripNothing(s: string)
    requires forall i :: 0 <= i < |s| ==> !IsSpace(s[i])
    ensures Strip(s) == s
  {
    if s != "" {
      StripNothing(s[1..]);
    }
  }

  lemma {:induction false} EncodedHasNoSpace(bytes: seq<Byte>)
    ensures forall i :: 0 <= i < |Encoded(bytes)| ==> !IsSpace(Encoded(bytes)[i])
  {
    if |bytes| >= 3 {
      EncodedHasNoSpace(bytes[3..]);
    }
  }

  /** A buffer of one byte more than was encoded is enough, and the encoding itself is the text decoded. */
  lemma EncodingDecodes(bytes: seq<Byte>)
    ensures Strip(Encoded(bytes)) == Encoded(bytes) && Room(bytes) <= |bytes| + 1
  {
    EncodedHasNoSpace(bytes);
    StripNothing(Encoded(bytes));
    RoomIs(bytes);
  }
}
