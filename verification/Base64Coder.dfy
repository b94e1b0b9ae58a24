/** The two loops of src/hwloc/hwloc/base64.c, over character and byte buffers of a given size. */
module Base64Coder {
  import opened Base64

  // ----- Encoding.

  /** Four characters at datalength, if they fit. */
  method PutFour(target: array<char>, datalength: nat, four: string) returns (ok: bool)
    requires |four| == 4 && datalength <= target.Length
    modifies target
    ensures ok <==> datalength + 4 <= target.Length
    ensures ok ==> target[..datalength + 4] == old(target[..datalength]) + four
  {
    if datalength + 4 > target.Length {
      return false;
    }
    target[datalength] := four[0];
    target[datalength + 1] := four[1];
    target[datalength + 2] := four[2];
    target[datalength + 3] := four[3];
    return true;
  }

  lemma EncodedRest(src: seq<Byte>, pos: nat)
    requires pos + 3 <= |src|
    ensures Encoded(src[pos..]) == DigitsOf(Quad(src[pos], src[pos + 1], src[pos + 2])) + Encoded(src[pos + 3..])
  {
    assert src[pos..][3..] == src[pos + 3..];
  }

  lemma Regroup(a: string, b: string, c: string)
    ensures (a + b) + c == a + (b + c)
  {
  }

  /** hwloc_encode_to_base64: the length of the encoding, which is stored with a terminating NUL, or -1 if
      the buffer cannot hold both. */
  method Encode(src: seq<Byte>, target: array<char>) returns (n: int)
    modifies target
    ensures if |Encoded(src)| < target.Length then
              n == |Encoded(src)| && target[..n] == Encoded(src) && target[n] == '\0'
            else n == -1
  {
    var datalength: nat, pos: nat := 0, 0;
    assert src[0..] == src && target[..0] == "";
    while |src| - pos > 2
      invariant pos <= |src| && datalength <= target.Length
      invariant target[..datalength] + Encoded(src[pos..]) == Encoded(src)
    {
      var four := DigitsOf(Quad(src[pos], src[pos + 1], src[pos + 2]));
      EncodedRest(src, pos);
      Regroup(target[..datalength], four, Encoded(src[pos + 3..]));
      var ok := PutFour(target, datalength, four);
      if !ok {
        return -1;
      }
      datalength, pos := datalength + 4, pos + 3;
    }
    if pos < |src| {
      var four := Rest(src[pos..]);
      var ok := PutFour(target, datalength, four);
      if !ok {
        return -1;
      }
      datalength := datalength + 4;
    }
    assert target[..datalength] == Encoded(src);
    if datalength >= target.Length {
      return -1;
    }
    target[datalength] := '\0';
    return datalength;
  }

  // ----- Decoding.

  /** The bitwise or of two numbers. */
  function Or(a: nat, b: nat): nat
    decreases a + b
  {
    if a == 0 && b == 0 then 0 else (if a % 2 == 1 || b % 2 == 1 then 1 else 0) + 2 * Or(a / 2, b / 2)
  }

  lemma {:induction false} OrZero(a: nat)
    ensures Or(a, 0) == a
  {
    if a > 0 {
      OrZero(a / 2);
    }
  }

  function Shifted(a: nat, k: nat): nat {
    if k == 0 then a else 2 * Shifted(a, k - 1)
  }

  /** Bits that do not overlap are added. */
  lemma {:induction false} OrShifted(a: nat, b: nat, k: nat)
    requires b < Shifted(1, k)
    ensures Or(Shifted(a, k), b) == Shifted(a, k) + b
  {
    if k == 0 {
      OrZero(a);
    } else {
      OrShifted(a, b / 2, k - 1);
    }
  }

  lemma Shifts(a: nat)
    ensures Shifted(a, 2) == 4 * a && Shifted(a, 4) == 16 * a && Shifted(a, 6) == 64 * a
  {
    assert Shifted(a, 0) == a && Shifted(a, 1) == 2 * a && Shifted(a, 3) == 2 * Shifted(a, 2) &&
           Shifted(a, 5) == 2 * Shifted(a, 4);
  }

  lemma OrFields(a: nat, b: nat)
    ensures b < 4 ==> Or(4 * a, b) == 4 * a + b
    ensures b < 16 ==> Or(16 * a, b) == 16 * a + b
    ensures b < 64 ==> Or(64 * a, b) == 64 * a + b
  {
    Shifts(1);
    Shifts(a);
    if b < 4 { OrShifted(a, b, 2); }
    if b < 16 { OrShifted(a, b, 4); }
    if b < 64 { OrShifted(a, b, 6); }
  }

  // What the second, third and fourth digit of a group do to the byte they complete.

  lemma CompletesFirst(u: Sextet, v: Sextet)
    ensures Or(First(u, 0), v / 16) == First(u, v)
  {
    OrFields(u, v / 16);
  }

  lemma CompletesSecond(v: Sextet, w: Sextet)
    ensures Or(Second(v, 0), w / 4) == Second(v, w)
  {
    OrFields(v % 16, w / 4);
  }

  lemma CompletesThird(w: Sextet, x: Sextet)
    ensures Or(Third(w, 0), x) == Third(w, x)
  {
    OrFields(w % 4, x);
  }

  /** The buffer while decoding: the bytes so far, and the slack of the unfinished group. */
  ghost predicate Holds(cells: seq<Byte>, full: seq<Sextet>, pending: seq<Sextet>) {
    && Whole(full) && |pending| < 4
    && |Bytes(full)| + |pending| <= |cells|
    && cells[..|Bytes(full)| + |Done(pending)|] == Bytes(full) + Done(pending)
    && (|pending| > 0 ==> cells[|Bytes(full)| + |Done(pending)|] == Slack(pending))
  }

  /** The digits after one more. */
  ghost function FullAfter(full: seq<Sextet>, pending: seq<Sextet>, v: Sextet): seq<Sextet> {
    if |pending| == 3 then full + (pending + [v]) else full
  }

  ghost function PendingAfter(pending: seq<Sextet>, v: Sextet): seq<Sextet> {
    if |pending| == 3 then [] else pending + [v]
  }

  /** The same, cell by cell. */
  lemma HoldsCells(cells: seq<Byte>, full: seq<Sextet>, pending: seq<Sextet>)
    requires Whole(full) && |pending| < 4 && |Bytes(full)| + |pending| <= |cells|
    requires forall k :: 0 <= k < |Bytes(full)| ==> cells[k] == Bytes(full)[k]
    requires forall k :: 0 <= k < |Done(pending)| ==> cells[|Bytes(full)| + k] == Done(pending)[k]
    requires |pending| > 0 ==> cells[|Bytes(full)| + |Done(pending)|] == Slack(pending)
    ensures Holds(cells, full, pending)
  {
    var bytes := Bytes(full) + Done(pending);
    forall k | 0 <= k < |bytes| ensures cells[k] == bytes[k] {
      if k >= |Bytes(full)| {
        assert cells[|Bytes(full)| + (k - |Bytes(full)|)] == Done(pending)[k - |Bytes(full)|];
      }
    }
    assert cells[..|bytes|] == bytes;
  }

  lemma CellsHeld(cells: seq<Byte>, full: seq<Sextet>, pending: seq<Sextet>)
    requires Holds(cells, full, pending)
    ensures forall k :: 0 <= k < |Bytes(full)| ==> cells[k] == Bytes(full)[k]
    ensures forall k :: 0 <= k < |Done(pending)| ==> cells[|Bytes(full)| + k] == Done(pending)[k]
  {
    var bytes := Bytes(full) + Done(pending);
    forall k | 0 <= k < |Bytes(full)| ensures cells[k] == Bytes(full)[k] {
      assert cells[..|bytes|][k] == bytes[k];
    }
    forall k | 0 <= k < |Done(pending)| ensures cells[|Bytes(full)| + k] == Done(pending)[k] {
      assert cells[..|bytes|][|Bytes(full)| + k] == bytes[|Bytes(full)| + k];
    }
  }

  lemma FirstStored(cells: seq<Byte>, full: seq<Sextet>, v: Sextet)
    requires Holds(cells, full, []) && |Bytes(full)| < |cells|
    ensures Holds(cells[|Bytes(full)| := First(v, 0)], full, [v])
  {
    CellsHeld(cells, full, []);
    HoldsCells(cells[|Bytes(full)| := First(v, 0)], full, [v]);
  }

  lemma SecondStored(cells: seq<Byte>, full: seq<Sextet>, u: Sextet, v: Sextet)
    requires Holds(cells, full, [u]) && |Bytes(full)| + 1 < |cells|
    ensures var t := |Bytes(full)|; Holds(cells[t := First(u, v)][t + 1 := Second(v, 0)], full, [u, v])
  {
    var t := |Bytes(full)|;
    CellsHeld(cells, full, [u]);
    HoldsCells(cells[t := First(u, v)][t + 1 := Second(v, 0)], full, [u, v]);
  }

  lemma ThirdStored(cells: seq<Byte>, full: seq<Sextet>, u: Sextet, v: Sextet, w: Sextet)
    requires Holds(cells, full, [u, v]) && |Bytes(full)| + 2 < |cells|
    ensures var t := |Bytes(full)| + 1; Holds(cells[t := Second(v, w)][t + 1 := Third(w, 0)], full, [u, v, w])
  {
    var t := |Bytes(full)| + 1;
    var after := cells[t := Second(v, w)][t + 1 := Third(w, 0)];
    CellsHeld(cells, full, [u, v]);
    assert Done([u, v])[0] == First(u, v) == cells[t - 1] == after[t - 1];
    assert Done([u, v, w]) == [First(u, v), Second(v, w)];
    HoldsCells(after, full, [u, v, w]);
  }

  lemma FourthStored(cells: seq<Byte>, full: seq<Sextet>, u: Sextet, v: Sextet, w: Sextet, x: Sextet)
    requires Holds(cells, full, [u, v, w]) && |Bytes(full)| + 2 < |cells|
    ensures Holds(cells[|Bytes(full)| + 2 := Third(w, x)], full + [u, v, w, x], [])
  {
    var t := |Bytes(full)|;
    var after := cells[t + 2 := Third(w, x)];
    var triple := [First(u, v), Second(v, w), Third(w, x)];
    CellsHeld(cells, full, [u, v, w]);
    assert Done([u, v, w])[0] == triple[0] == after[t] && Done([u, v, w])[1] == triple[1] == after[t + 1];
    WholeAppend(full, [u, v, w, x]);
    var bytes := Bytes(full) + triple;
    assert Bytes(full + [u, v, w, x]) == bytes;
    forall k | 0 <= k < |bytes| ensures after[k] == bytes[k] {
      if k >= t {
        assert k == t || k == t + 1 || k == t + 2;
      }
    }
    HoldsCells(after, full + [u, v, w, x], []);
  }

  /** One digit goes into the buffer, if there is room. */
  method StoreDigit(
    target: array<Byte>, state: nat, tarindex: nat, v: Sextet, ghost full: seq<Sextet>, ghost pending: seq<Sextet>)
    returns (ok: bool)
    requires Holds(target[..], full, pending) && state == |pending| && tarindex == |Bytes(full)| + |Done(pending)|
    modifies target
    ensures ok <==> |Bytes(full)| + Need(|pending|) <= target.Length
    ensures ok ==> Holds(target[..], FullAfter(full, pending, v), PendingAfter(pending, v))
  {
    var size := target.Length;
    ghost var before := target[..];
    if state == 0 {
      if tarindex >= size {
        return false;
      }
      FirstStored(before, full, v);
      target[tarindex] := v * 4;
      assert pending == [] && pending + [v] == [v];
    } else if state == 1 {
      if tarindex + 1 >= size {
        return false;
      }
      SecondStored(before, full, pending[0], v);
      CompletesFirst(pending[0], v);
      target[tarindex] := Or(target[tarindex], v / 16);
      target[tarindex + 1] := (v % 16) * 16;
      assert pending == [pending[0]] && pending + [v] == [pending[0], v];
    } else if state == 2 {
      if tarindex + 1 >= size {
        return false;
      }
      ThirdStored(before, full, pending[0], pending[1], v);
      CompletesSecond(pending[1], v);
      target[tarindex] := Or(target[tarindex], v / 4);
      target[tarindex + 1] := (v % 4) * 64;
      assert pending == [pending[0], pending[1]] && pending + [v] == [pending[0], pending[1], v];
    } else {
      if tarindex >= size {
        return false;
      }
      FourthStored(before, full, pending[0], pending[1], pending[2], v);
      CompletesThird(pending[2], v);
      target[tarindex] := Or(target[tarindex], v);
      assert pending == [pending[0], pending[1], pending[2]] &&
             pending + [v] == [pending[0], pending[1], pending[2], v];
    }
    return true;
  }

  // ----- The main loop.

  lemma StripStep(src: string, i: nat)
    requires i < |src|
    ensures Strip(src[i..]) == if IsSpace(src[i]) then Strip(src[i + 1..]) else [src[i]] + Strip(src[i + 1..])
  {
    assert src[i..][1..] == src[i + 1..];
  }

  /** The text without white space, read up to position i. */
  ghost predicate Reading(src: string, i: nat, full: seq<Sextet>, pending: seq<Sextet>) {
    && i <= |src| && Whole(full) && |pending| < 4
    && Strip(src) == DigitsOf(full + pending) + Strip(src[i..])
  }

  lemma DigitRead(src: string, i: nat, full: seq<Sextet>, pending: seq<Sextet>, v: Sextet)
    requires Reading(src, i, full, pending) && i < |src| && Position(src[i]) == Some(v)
    ensures Reading(src, i + 1, FullAfter(full, pending, v), PendingAfter(pending, v))
    ensures Strip(src) == DigitsOf(full + pending + [v]) + Strip(src[i + 1..])
  {
    StripStep(src, i);
    DigitPosition(v, src[i]);
    OneDigitMore(Strip(src), full + pending, v, Strip(src[i..]), Strip(src[i + 1..]));
    AllDigits(full, pending, v);
  }

  lemma OneDigitMore(text: string, vals: seq<Sextet>, v: Sextet, now: string, rest: string)
    requires text == DigitsOf(vals) + now && now == [Digit(v)] + rest
    ensures text == DigitsOf(vals + [v]) + rest
  {
    assert DigitsOf(vals + [v]) == DigitsOf(vals) + [Digit(v)];
    Regroup(DigitsOf(vals), [Digit(v)], rest);
  }

  lemma AllDigits(full: seq<Sextet>, pending: seq<Sextet>, v: Sextet)
    requires Whole(full) && |pending| < 4
    ensures Whole(FullAfter(full, pending, v)) && |PendingAfter(pending, v)| < 4
    ensures FullAfter(full, pending, v) + PendingAfter(pending, v) == full + pending + [v]
  {
    if |pending| == 3 {
      WholeAppend(full, pending + [v]);
    }
  }

  /** A buffer of that size takes bytes of which the text is the encoding. */
  ghost predicate Decodable(text: string, size: nat) {
    exists bytes: seq<Byte> :: Encoded(bytes) == text && Room(bytes) <= size
  }

  lemma BadCharacter(src: string, i: nat, full: seq<Sextet>, pending: seq<Sextet>, size: nat)
    requires Reading(src, i, full, pending) && i < |src| && !IsSpace(src[i]) && src[i] != PAD64 &&
             Position(src[i]).None?
    ensures !Decodable(Strip(src), size)
  {
    StripStep(src, i);
    if Decodable(Strip(src), size) {
      var bytes: seq<Byte> :| Encoded(bytes) == Strip(src) && Room(bytes) <= size;
      OnlyEncoding(bytes, full, pending, Strip(src[i..]));
    }
  }

  lemma NoRoom(src: string, i: nat, full: seq<Sextet>, pending: seq<Sextet>, v: Sextet, size: nat)
    requires Reading(src, i, full, pending) && i < |src| && Position(src[i]) == Some(v)
    requires |Bytes(full)| + Need(|pending|) > size
    ensures !Decodable(Strip(src), size)
  {
    DigitRead(src, i, full, pending, v);
    if Decodable(Strip(src), size) {
      var bytes: seq<Byte> :| Encoded(bytes) == Strip(src) && Room(bytes) <= size;
      NeedsRoom(bytes, full, pending, v, Strip(src[i + 1..]));
    }
  }

  method SkipSpaces(src: string, i: nat) returns (j: nat)
    requires i <= |src|
    ensures i <= j <= |src| && Strip(src[j..]) == Strip(src[i..])
    ensures j < |src| ==> !IsSpace(src[j])
  {
    j := i;
    while j < |src| && IsSpace(src[j])
      invariant i <= j <= |src| && Strip(src[j..]) == Strip(src[i..])
    {
      StripStep(src, j);
      j := j + 1;
    }
  }

  /** Nothing but white space from position i on. */
  method OnlySpaces(src: string, i: nat) returns (ok: bool)
    requires i <= |src|
    ensures ok <==> Strip(src[i..]) == ""
  {
    var end := SkipSpaces(src, i);
    if end < |src| {
      StripStep(src, end);
      return false;
    }
    assert src[end..] == "";
    return true;
  }

  /** One padding character, perhaps after white space, and nothing more. */
  method OnePadding(src: string, i: nat) returns (ok: bool)
    requires i <= |src|
    ensures ok <==> Strip(src[i..]) == "="
  {
    var j := SkipSpaces(src, i);
    if j == |src| || src[j] != PAD64 {
      if j < |src| {
        StripStep(src, j);
        assert Strip(src[j..])[0] == src[j];
      } else {
        assert src[j..] == "";
      }
      return false;
    }
    StripStep(src, j);
    ok := OnlySpaces(src, j + 1);
  }

  /** Whether the text may end so, position i being its end or that of a padding character. */
  method CheckEnd(src: string, i: nat, state: nat) returns (ok: bool)
    requires i <= |src| && (i < |src| ==> src[i] == PAD64)
    ensures ok <==>
            var rest := Strip(src[i..]);
            (state == 0 && rest == "") || (state == 2 && rest == "==") || (state == 3 && rest == "=")
  {
    if i == |src| {
      assert src[i..] == "";
      return state == 0;
    }
    StripStep(src, i);
    ghost var after := Strip(src[i + 1..]);
    assert "=" + after == "==" <==> after == "=" by { assert ("=" + after)[1..] == after; }
    assert "=" + after == "=" <==> after == "" by { assert ("=" + after)[1..] == after; }
    if state == 2 {
      ok := OnePadding(src, i + 1);
    } else if state == 3 {
      ok := OnlySpaces(src, i + 1);
    } else {
      ok := false;
    }
  }

  /** How digits and padding may make up a text when nobody looks at the slack. */
  predicate LooseText(text: string, vals: seq<Sextet>, rest: string) {
    && text == DigitsOf(vals) + rest
    && ((|vals| % 4 == 0 && rest == "") || (|vals| % 4 == 2 && rest == "==") || (|vals| % 4 == 3 && rest == "="))
  }

  /** The number of groups. */
  function Quads(full: seq<Sextet>): nat
    requires Whole(full)
  {
    if full == [] then 0 else 1 + Quads(full[4..])
  }

  lemma {:induction false} WholeLength(full: seq<Sextet>)
    requires Whole(full)
    ensures |full| == 4 * Quads(full) && |Bytes(full)| == 3 * Quads(full)
    decreases |full|
  {
    if full != [] {
      WholeLength(full[4..]);
    }
  }

  lemma GroupsAndPending(q: nat, p: nat)
    requires p < 4
    ensures (4 * q + p) % 4 == p && (4 * q + p) * 3 / 4 == 3 * q + p * 3 / 4
  {
  }

  /** Where reading stopped, decides. */
  lemma EndDecides(src: string, i: nat, full: seq<Sextet>, pending: seq<Sextet>, cells: seq<Byte>)
    requires Reading(src, i, full, pending) && NoDigitFirst(Strip(src[i..])) && Holds(cells, full, pending)
    ensures Decodable(Strip(src), |cells|) <==> GoodEnd(pending, Strip(src[i..]))
    ensures GoodEnd(pending, Strip(src[i..])) ==> Encoded(cells[..|Bytes(full)| + |Done(pending)|]) == Strip(src)
  {
    var rest := Strip(src[i..]);
    if GoodEnd(pending, rest) {
      EncodedBack(full, pending, rest);
      RoomOf(full, pending);
    }
    if Decodable(Strip(src), |cells|) {
      var bytes: seq<Byte> :| Encoded(bytes) == Strip(src) && Room(bytes) <= |cells|;
      OnlyEncoding(bytes, full, pending, rest);
    }
  }

  lemma EndCounts(src: string, i: nat, full: seq<Sextet>, pending: seq<Sextet>, vals: seq<Sextet>, rest: string)
    requires Reading(src, i, full, pending) && NoDigitFirst(Strip(src[i..]))
    ensures LooseText(Strip(src), vals, rest) ==> vals == full + pending && rest == Strip(src[i..])
    ensures |full + pending| % 4 == |pending| && |Bytes(full)| + |Done(pending)| == |full + pending| * 3 / 4
  {
    WholeLength(full);
    GroupsAndPending(Quads(full), |pending|);
    if LooseText(Strip(src), vals, rest) {
      SameSplit(full + pending, Strip(src[i..]), vals, rest);
    }
  }

  lemma CountAfter(full: seq<Sextet>, pending: seq<Sextet>, v: Sextet)
    requires Whole(full) && |pending| < 4
    ensures var full', pending' := FullAfter(full, pending, v), PendingAfter(pending, v);
            && |pending'| == (if |pending| == 3 then 0 else |pending| + 1) && Whole(full')
            && |Bytes(full')| + |Done(pending')| == |Bytes(full)| + |Done(pending)| + if |pending| > 0 then 1 else 0
  {
    if |pending| == 3 {
      WholeAppend(full, pending + [v]);
    }
  }

  /** A digit or a character that does not belong. */
  method TakeCharacter(
    src: string, target: array?<Byte>, i: nat, state: nat, tarindex: nat, ghost full: seq<Sextet>,
    ghost pending: seq<Sextet>)
    returns (ok: bool, state': nat, tarindex': nat, ghost full': seq<Sextet>, ghost pending': seq<Sextet>)
    requires Reading(src, i, full, pending) && i < |src| && !IsSpace(src[i]) && src[i] != PAD64
    requires state == |pending| && tarindex == |Bytes(full)| + |Done(pending)|
    requires target != null ==> Holds(target[..], full, pending)
    modifies target
    ensures ok ==>
              && Reading(src, i + 1, full', pending') && state' == |pending'|
              && tarindex' == |Bytes(full')| + |Done(pending')|
    ensures ok && target != null ==> Holds(target[..], full', pending')
    ensures !ok && target != null ==> !Decodable(Strip(src), target.Length)
    ensures !ok && target == null ==> Position(src[i]).None?
  {
    ok, state', tarindex', full', pending' := false, state, tarindex, full, pending;
    var pos := Position(src[i]);
    if pos.None? {
      if target != null {
        BadCharacter(src, i, full, pending, target.Length);
      }
      return;
    }
    var v := pos.value;
    if target != null {
      ok := StoreDigit(target, state, tarindex, v, full, pending);
      if !ok {
        NoRoom(src, i, full, pending, v, target.Length);
        return;
      }
    }
    DigitRead(src, i, full, pending, v);
    CountAfter(full, pending, v);
    ok, full', pending' := true, FullAfter(full, pending, v), PendingAfter(pending, v);
    tarindex' := if state > 0 then tarindex + 1 else tarindex;
    state' := if state == 3 then 0 else state + 1;
  }

  /** Reading digits until the end or a padding character. */
  method DecodeDigits(src: string, target: array?<Byte>)
    returns (ok: bool, i: nat, state: nat, tarindex: nat, ghost full: seq<Sextet>, ghost pending: seq<Sextet>)
    modifies target
    ensures ok ==> Reading(src, i, full, pending) && (i < |src| ==> src[i] == PAD64)
    ensures ok ==> state == |pending| && tarindex == |Bytes(full)| + |Done(pending)|
    ensures ok && target != null ==> Holds(target[..], full, pending)
    ensures !ok && target != null ==> !Decodable(Strip(src), target.Length)
    ensures !ok && target == null ==> Reading(src, i, full, pending) && i < |src|
    ensures !ok && target == null ==> !IsSpace(src[i]) && src[i] != PAD64 && Position(src[i]).None?
  {
    ok, i, state, tarindex, full, pending := true, 0, 0, 0, [], [];
    AtStart(src);
    while i < |src| && src[i] != PAD64
      invariant Reading(src, i, full, pending)
      invariant state == |pending| && tarindex == |Bytes(full)| + |Done(pending)|
      invariant target != null ==> Holds(target[..], full, pending)
    {
      if IsSpace(src[i]) {
        StripStep(src, i);
      } else {
        var state', tarindex';
        ghost var full', pending';
        ok, state', tarindex', full', pending' := TakeCharacter(src, target, i, state, tarindex, full, pending);
        if !ok {
          return;
        }
        state, tarindex, full, pending := state', tarindex', full', pending';
      }
      i := i + 1;
    }
    ok := true;
  }

  lemma AtStart(src: string)
    ensures Reading(src, 0, [], [])
  {
    assert src[0..] == src && DigitsOf([] + []) == "" && "" + Strip(src) == Strip(src);
  }

  /** hwloc_decode_from_base64: the number of bytes stored, or -1. With a buffer, it succeeds exactly when the
      text, white space aside, is the encoding of bytes that the buffer has room for, and then stores those. */
  method Decode(src: string, target: array?<Byte>) returns (n: int)
    modifies target
    ensures n >= -1
    ensures target != null ==> (n >= 0 <==> Decodable(Strip(src), target.Length))
    ensures target != null && n >= 0 ==> n <= target.Length && Encoded(target[..n]) == Strip(src)
    ensures target == null && n >= 0 ==> exists vals, rest :: LooseText(Strip(src), vals, rest) && n == |vals| * 3 / 4
    ensures target == null && n < 0 ==> forall vals, rest :: !LooseText(Strip(src), vals, rest)
  {
    var ok, i, state, tarindex;
    ghost var full, pending;
    ok, i, state, tarindex, full, pending := DecodeDigits(src, target);
    if ok || target == null {
      StopsBeforeDigit(src, i);
    }
    if target == null {
      forall vals, rest
        ensures LooseText(Strip(src), vals, rest) ==> vals == full + pending && rest == Strip(src[i..])
      {
        EndCounts(src, i, full, pending, vals, rest);
      }
      EndCounts(src, i, full, pending, [], "");
    }
    if !ok {
      if target == null {
        StripStep(src, i);
      }
      return -1;
    }
    var ends := CheckEnd(src, i, state);
    if target != null {
      EndDecides(src, i, full, pending, target[..]);
    }
    if !ends {
      return -1;
    }
    if (state == 2 || state == 3) && target != null && target[tarindex] != 0 {
      return -1;
    }
    assert target == null ==> LooseText(Strip(src), full + pending, Strip(src[i..]));
    return tarindex;
  }

  lemma StopsBeforeDigit(src: string, i: nat)
    requires i <= |src| && (i < |src| ==> !IsSpace(src[i]) && Position(src[i]).None?)
    ensures NoDigitFirst(Strip(src[i..]))
  {
    if i < |src| {
      StripStep(src, i);
    }
  }

  /** What Decode stores for the encoding of some bytes, with white space anywhere: those bytes. */
  lemma DecodedAre(text: string, bytes: seq<Byte>, stored: seq<Byte>)
    requires Strip(text) == Encoded(bytes)
    ensures Decodable(Strip(text), |bytes| + 1)
    ensures Encoded(stored) == Strip(text) ==> stored == bytes
  {
    EncodingDecodes(bytes);
    if Encoded(stored) == Strip(text) {
      EncodedInjective(stored, bytes);
    }
  }
}
