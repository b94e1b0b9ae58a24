/** The shared segment of get_qids_in_target_type (src/quo-auto-distrib.c): a header with the length of
    each row, then the rows one after another. A cell is an int; sizes are counted in cells. */
module TableSegment {
  type Table = seq<seq<int>>

  function Lens(table: Table): (lens: seq<nat>)
    ensures |lens| == |table| && forall i :: 0 <= i < |table| ==> lens[i] == |table[i]|
  {
    seq(|table|, i requires 0 <= i < |table| => |table[i]|)
  }

  function Sum(lens: seq<nat>): nat {
    if lens == [] then 0 else Sum(lens[..|lens| - 1]) + lens[|lens| - 1]
  }

  function Rows(table: Table): seq<int> {
    if table == [] then [] else Rows(table[..|table| - 1]) + table[|table| - 1]
  }

  function Flat(table: Table): seq<int> {
    Lens(table) + Rows(table)
  }

  /** Where row i starts, computed from the header alone. */
  function Offset(lens: seq<nat>, i: nat): nat
    requires i <= |lens|
  {
    |lens| + Sum(lens[..i])
  }

  lemma OffsetStep(lens: seq<nat>, i: nat)
    requires i < |lens|
    ensures Offset(lens, 0) == |lens|
    ensures Offset(lens, i + 1) == Offset(lens, i) + lens[i]
  {
    assert lens[..i + 1][..i] == lens[..i];
  }

  lemma {:induction false} RowsAt(table: Table, i: nat)
    requires i < |table|
    ensures |Rows(table)| == Sum(Lens(table))
    ensures Sum(Lens(table)[..i]) + |table[i]| <= |Rows(table)|
    ensures Rows(table)[Sum(Lens(table)[..i])..Sum(Lens(table)[..i]) + |table[i]|] == table[i]
    decreases |table|
  {
    var last := |table| - 1;
    var front := table[..last];
    assert Lens(table)[..last] == Lens(front);
    if last > 0 {
      RowsAt(front, if i < last then i else 0);
    }
    if i < last {
      assert Lens(table)[..i] == Lens(front)[..i];
      SliceOfPrefix(Rows(front), table[last], Sum(Lens(front)[..i]), |table[i]|);
    }
  }

  lemma SliceOfPrefix(a: seq<int>, b: seq<int>, off: nat, n: nat)
    requires off + n <= |a|
    ensures (a + b)[off..off + n] == a[off..off + n]
  {
  }

  /** Row i of a flat table is found at its offset, and ends within the segment. */
  lemma FlatRow(table: Table, i: nat)
    requires i < |table|
    ensures Offset(Lens(table), i) + |table[i]| <= |Flat(table)| && Flat(table)[i] == |table[i]|
    ensures Flat(table)[Offset(Lens(table), i)..Offset(Lens(table), i) + |table[i]|] == table[i]
  {
    RowsAt(table, i);
    var off := Sum(Lens(table)[..i]);
    assert Flat(table)[|table| + off..|table| + off + |table[i]|] == Rows(table)[off..off + |table[i]|];
  }

  lemma FlatSize(table: Table)
    ensures |Flat(table)| == Offset(Lens(table), |table|)
    ensures Flat(table)[..|table|] == Lens(table)
  {
    assert Lens(table)[..|table|] == Lens(table);
    if table != [] {
      RowsAt(table, 0);
    }
  }

  lemma FlatInjective(a: Table, b: Table)
    requires |a| == |b| && Flat(a) == Flat(b)
    ensures a == b
  {
    FlatSize(a);
    FlatSize(b);
    forall i | 0 <= i < |a| ensures a[i] == b[i] {
      FlatRow(a, i);
      FlatRow(b, i);
      assert |a[i]| == Lens(a)[i] == Lens(b)[i];
    }
  }

  /** memmove into a mapping. */
  function Overwrite(s: seq<int>, off: nat, data: seq<int>): (t: seq<int>)
    requires off + |data| <= |s|
    ensures |t| == |s|
    ensures forall k :: 0 <= k < |s| ==> t[k] == if off <= k < off + |data| then data[k - off] else s[k]
  {
    s[..off] + data + s[off + |data|..]
  }

  /** The first n cells are in place. */
  ghost predicate WrittenUpTo(cells: seq<int>, table: Table, n: nat) {
    |cells| == |Flat(table)| && n <= |cells| && cells[..n] == Flat(table)[..n]
  }

  lemma HeaderWritten(cells: seq<int>, table: Table)
    requires |cells| == |Flat(table)|
    ensures WrittenUpTo(Overwrite(cells, 0, Lens(table)), table, Offset(Lens(table), 0))
  {
  }

  lemma RowWritten(cells: seq<int>, table: Table, i: nat)
    requires i < |table| && WrittenUpTo(cells, table, Offset(Lens(table), i))
    ensures Offset(Lens(table), i) + |table[i]| <= |cells|
    ensures WrittenUpTo(Overwrite(cells, Offset(Lens(table), i), table[i]), table, Offset(Lens(table), i + 1))
  {
    FlatRow(table, i);
    OffsetStep(Lens(table), i);
    var off, n := Offset(Lens(table), i), |table[i]|;
    var after, flat := Overwrite(cells, off, table[i]), Flat(table);
    forall k | 0 <= k < off + n ensures after[k] == flat[k] {
      if k < off {
        assert cells[..off][k] == flat[..off][k];
      } else {
        assert flat[off..off + n][k - off] == flat[k];
      }
    }
    assert after[..off + n] == flat[..off + n];
  }

  lemma AllWritten(cells: seq<int>, table: Table)
    requires WrittenUpTo(cells, table, Offset(Lens(table), |table|))
    ensures cells == Flat(table)
  {
    FlatSize(table);
    assert cells[..|cells|] == cells && Flat(table)[..|cells|] == Flat(table);
  }

  /** The reader's next row. */
  lemma RowRead(cells: seq<int>, table: Table, i: nat)
    requires i < |table| && cells == Flat(table)
    ensures var tab := Offset(Lens(table), i);
            tab + |table[i]| <= |cells| && table[..i] + [cells[tab..tab + |table[i]|]] == table[..i + 1]
    ensures i + 1 == |table| ==> table[..i + 1] == table
  {
    FlatRow(table, i);
  }

  /** One memmove, cell by cell. */
  method MoveIn(seg: array<int>, off: nat, data: seq<int>)
    requires off + |data| <= seg.Length
    modifies seg
    ensures seg[..] == Overwrite(old(seg[..]), off, data)
  {
    for k := 0 to |data|
      invariant forall j :: 0 <= j < seg.Length ==> seg[j] == if off <= j < off + k then data[j - off] else old(seg[j])
    {
      seg[off + k] := data[k];
    }
  }

  method CountEntries(table: Table) returns (numEntries: nat)
    ensures numEntries == |Rows(table)|
  {
    numEntries := 0;
    var i := 0;
    while i < |table|
      invariant i <= |table| && numEntries == |Rows(table[..i])|
    {
      assert table[..i + 1][..i] == table[..i];
      numEntries := numEntries + |table[i]|;
      i := i + 1;
    }
    assert table[..i] == table;
  }

  method MoveRow(seg: array<int>, tab: nat, table: Table, i: nat) returns (next: nat)
    requires i < |table| && tab == Offset(Lens(table), i) && WrittenUpTo(seg[..], table, tab)
    modifies seg
    ensures next == Offset(Lens(table), i + 1) && WrittenUpTo(seg[..], table, next)
  {
    RowWritten(seg[..], table, i);
    OffsetStep(Lens(table), i);
    MoveIn(seg, tab, table[i]);
    next := tab + |table[i]|;
  }

  method MoveRows(seg: array<int>, table: Table)
    requires WrittenUpTo(seg[..], table, Offset(Lens(table), 0))
    modifies seg
    ensures WrittenUpTo(seg[..], table, Offset(Lens(table), |table|))
  {
    var tab := |table|;
    for i := 0 to |table|
      invariant tab == Offset(Lens(table), i) && WrittenUpTo(seg[..], table, tab)
    {
      tab := MoveRow(seg, tab, table, i);
    }
  }

  /** The publishing side: size, header, then each row at a moving pointer. */
  method Publish(table: Table) returns (seg: array<int>)
    ensures fresh(seg) && seg[..] == Flat(table)
  {
    var numEntries := CountEntries(table);
    seg := new int[|table| + numEntries];
    HeaderWritten(seg[..], table);
    MoveIn(seg, 0, Lens(table));
    MoveRows(seg, table);
    AllWritten(seg[..], table);
  }

  /** The attaching side, which knows the number of rows only: the round trip. */
  method Rebuild(seg: array<int>, nTarget: nat, ghost published: Table) returns (table: Table)
    requires |published| == nTarget && seg[..] == Flat(published)
    ensures table == published
  {
    FlatSize(published);
    var header := seg[..nTarget];
    assert header == Lens(published);
    var tab := nTarget;
    table := [];
    while |table| < nTarget
      invariant |table| <= nTarget && table == published[..|table|]
      invariant tab == Offset(Lens(published), |table|)
    {
      var i := |table|;
      FlatRow(published, i);
      OffsetStep(Lens(published), i);
      assert header[i] == |published[i]|;
      assert seg[tab..tab + header[i]] == seg[..][tab..tab + header[i]];
      table := table + [seg[tab..tab + header[i]]];
      tab := tab + header[i];
    }
  }
}
