/** Table rows: the builder that writes cells one after another, and the reader that finds them
    again through offsets it computes once. */
module Rows {
  import opened Words
  import opened WireFormat
  import opened ByteBuffers

  // ---------- cells ----------

  datatype Cell = Number(ft: FixedType, v: int) | Text(bt: BytesType, b: seq<Byte>) | NoText(nt: BytesType)

  /** What a caller with a buffer gets: whether the bytes were copied, their length, and them. */
  datatype Fetched = Fetched(ok: bool, length: int, copied: seq<Byte>)

  function CellType(c: Cell): WireType {
    match c
    case Number(t, _) => Fixed(t)
    case Text(t, _) => Bytes(t)
    case NoText(t) => Bytes(t)
  }

  predicate CellFits(c: Cell) {
    match c
    case Number(t, v) => Fits(Width(t), v)
    case Text(_, b) => Fits(4, |b|)
    case NoText(_) => true
  }

  function EncodeCell(c: Cell): seq<Byte> {
    match c
    case Number(t, v) => EncodeInt(Width(t), v)
    case Text(_, b) => EncodeBytes(b)
    case NoText(_) => EncodeInt(4, -1)
  }

  /** Integers, timestamps and decimals are null at their minimum, doubles when they are low
      enough by a test that is left open. */
  predicate IsNullNumber(isLow: int -> bool, t: FixedType, v: int) {
    if t.Float? then isLow(v) else v == -Half(Width(t))
  }

  predicate IsNullCell(isLow: int -> bool, c: Cell) {
    match c
    case Number(t, v) => IsNullNumber(isLow, t, v)
    case Text(_, _) => false
    case NoText(_) => true
  }

  ghost predicate CellsFit(columns: seq<WireType>, cells: seq<Cell>) {
    |cells| == |columns| && forall i :: 0 <= i < |cells| ==> CellFits(cells[i]) && CellType(cells[i]) == columns[i]
  }

  /** The encoded width of the cells before column `i`. */
  ghost function Offset(cells: seq<Cell>, i: nat): nat
    requires i <= |cells|
  {
    |Concat(EncodeCell, cells[..i])|
  }

  lemma OffsetStep(cells: seq<Cell>, i: nat)
    requires i < |cells|
    ensures Offset(cells, i + 1) == Offset(cells, i) + |EncodeCell(cells[i])|
  {
    assert cells[..i + 1] == cells[..i] + [cells[i]];
    ConcatAppend(EncodeCell, cells[..i], cells[i]);
  }

  lemma {:induction false} ConcatParts(a: seq<Cell>, b: seq<Cell>)
    ensures Concat(EncodeCell, a + b) == Concat(EncodeCell, a) + Concat(EncodeCell, b)
  {
    if a == [] {
      assert a + b == b;
    } else {
      assert (a + b)[1..] == a[1..] + b;
      ConcatParts(a[1..], b);
    }
  }

  /** At its offset a row holds the cell. */
  lemma CellAtOffset(cells: seq<Cell>, i: nat)
    requires i < |cells|
    ensures var row, o := Concat(EncodeCell, cells), Offset(cells, i);
      o + |EncodeCell(cells[i])| <= |row| && row[o..o + |EncodeCell(cells[i])|] == EncodeCell(cells[i])
  {
    hide EncodeCell;
    assert cells == cells[..i] + cells[i..] && cells[i..][1..] == cells[i + 1..];
    ConcatParts(cells[..i], cells[i..]);
  }

  // ---------- the reader ----------

  /** A getter may widen an integer column; all other types must match. */
  predicate Accepts(want: FixedType, column: WireType) {
    match column
    case Bytes(_) => false
    case Fixed(TinyInt) => want in {BigInt, Integer, SmallInt, TinyInt}
    case Fixed(SmallInt) => want in {BigInt, Integer, SmallInt}
    case Fixed(Integer) => want in {BigInt, Integer}
    case Fixed(t) => want == t
  }

  class Row {
    const data: ByteBuffer
    const columns: seq<WireType>
    const offsets: array<int>
    const isLow: int -> bool
    var wasNull: bool
    var hasCalculatedOffsets: bool
    ghost const cells: seq<Cell>

    ghost predicate Valid()
      reads this, offsets, data, data.data
    {
      && data.Valid() && data.position == 0 && data.Left() == Concat(EncodeCell, cells)
      && CellsFit(columns, cells) && offsets.Length == |columns|
      && (hasCalculatedOffsets ==> forall i :: 0 <= i < |cells| ==> offsets[i] == Offset(cells, i))
    }

    constructor (rowData: ByteBuffer, schema: seq<WireType>, low: int -> bool, ghost values: seq<Cell>)
      requires rowData.Valid() && rowData.position == 0 && rowData.Left() == Concat(EncodeCell, values)
      requires CellsFit(schema, values)
      ensures Valid() && data == rowData && columns == schema && cells == values && isLow == low && fresh(offsets)
    {
      data, columns, isLow, wasNull, hasCalculatedOffsets := rowData, schema, low, false, false;
      offsets := new int[|schema|];
      cells := values;
    }

    /** The integer at an index is what the cell there begins with. */
    method IntAt(index: nat, width: nat, ghost column: nat) returns (v: int)
      requires Valid() && width > 0 && column < |cells| && index == Offset(cells, column)
      requires width <= |EncodeCell(cells[column])|
      ensures v == DecodeInt(EncodeCell(cells[column])[..width])
    {
      hide EncodeCell, DecodeInt, CellsFit, Concat, ByteBuffer.Left, ByteBuffer.Window;
      CellAtOffset(cells, column);
      SliceOfSlice(data.Left(), index, index + |EncodeCell(cells[column])|, width);
      var r := data.GetIntAt(index, width);
      v := r.value;
    }

    /** Each offset is the previous one plus the encoded width of the cell there. */
    method EnsureCalculatedOffsets()
      requires Valid() && |columns| > 0
      modifies this`hasCalculatedOffsets, offsets
      ensures Valid() && hasCalculatedOffsets
    {
      hide EncodeCell, Offset, Concat, ByteBuffer.Left;
      if hasCalculatedOffsets { return; }
      offsets[0] := data.position;
      FirstOffset(cells);
      for i := 1 to |columns|
        invariant Valid() && !hasCalculatedOffsets
        invariant forall j :: 0 <= j < i ==> offsets[j] == Offset(cells, j)
      {
        OffsetStep(cells, i - 1);
        var width := CellWidth(i - 1, offsets[i - 1]);
        offsets[i] := offsets[i - 1] + width;
      }
      hasCalculatedOffsets := true;
    }

    method CellWidth(column: nat, offset: nat) returns (width: nat)
      requires Valid() && column < |columns| && offset == Offset(cells, column)
      ensures width == |EncodeCell(cells[column])|
    {
      hide Offset, Concat, ByteBuffer.Left, EncodeInt, DecodeInt;
      assert CellFits(cells[column]) && CellType(cells[column]) == columns[column];
      match columns[column] {
        case Bytes(_) =>
          BlobLength(cells[column]);
          var length := IntAt(offset, 4, column);
          width := if length == -1 then 4 else length + 4;
        case Fixed(Decimal) => width := 16;
        case Fixed(Timestamp) | Fixed(BigInt) | Fixed(Float) => width := 8;
        case Fixed(Integer) => width := 4;
        case Fixed(SmallInt) => width := 2;
        case Fixed(TinyInt) => width := 1;
      }
    }

    method GetOffset(index: nat) returns (offset: nat)
      requires Valid() && index < |columns|
      modifies this`wasNull, this`hasCalculatedOffsets, offsets
      ensures Valid() && !wasNull && offset == Offset(cells, index)
    {
      wasNull := false;
      EnsureCalculatedOffsets();
      offset := offsets[index];
    }

    /** Every getter of numbers: the written value, in whatever order the getters are called, and
        whether it is null. An index or a type that does not match is refused. */
    method GetNumber(want: FixedType, column: int) returns (r: Option<int>)
      requires Valid()
      modifies this`wasNull, this`hasCalculatedOffsets, offsets
      ensures Valid() && (r.Some? <==> 0 <= column < |columns| && Accepts(want, columns[column]))
      ensures r.Some? ==> cells[column].Number? && r.value == cells[column].v
      ensures r.Some? ==> wasNull == IsNullCell(isLow, cells[column])
      ensures r.None? ==> wasNull == old(wasNull)
    {
      hide Offset, Concat, ByteBuffer.Left, EncodeInt, DecodeInt, Width, Half;
      if column < 0 || column >= |columns| || !Accepts(want, columns[column]) { return None; }
      assert CellFits(cells[column]) && CellType(cells[column]) == columns[column];
      var t := columns[column].fixed;
      var offset := GetOffset(column);
      NumberBack(cells[column]);
      var v := IntAt(offset, Width(t), column);
      wasNull := IsNullNumber(isLow, t, v);
      r := Some(v);
    }

    /** Every getter of strings and binaries: the written bytes, or null. */
    method GetText(want: BytesType, column: int) returns (r: Option<Option<seq<Byte>>>)
      requires Valid()
      modifies this`wasNull, this`hasCalculatedOffsets, offsets
      ensures Valid() && (r.Some? <==> 0 <= column < |columns| && columns[column] == Bytes(want))
      ensures r.Some? ==> wasNull == IsNullCell(isLow, cells[column])
      ensures r.Some? ==> r.value == (if cells[column].Text? then Some(cells[column].b) else None)
      ensures r.None? ==> wasNull == old(wasNull)
    {
      hide Offset, Concat, ByteBuffer.Left, EncodeInt, DecodeInt;
      if column < 0 || column >= |columns| || columns[column] != Bytes(want) { return None; }
      assert CellFits(cells[column]) && CellType(cells[column]) == columns[column];
      var offset := GetOffset(column);
      BlobLength(cells[column]);
      var length := IntAt(offset, 4, column);
      if length == -1 {
        wasNull := true;
        return Some(None);
      }
      var bytes := TextAt(offset, length, column);
      return Some(Some(bytes));
    }

    method TextAt(offset: nat, length: nat, ghost column: nat) returns (bytes: seq<Byte>)
      requires Valid() && column < |cells| && offset == Offset(cells, column)
      requires cells[column].Text? && length == |cells[column].b|
      ensures bytes == cells[column].b
    {
      hide EncodeInt, CellsFit, Concat, ByteBuffer.Left, ByteBuffer.Window;
      CellAtOffset(cells, column);
      ghost var cell := EncodeCell(cells[column]);
      SliceOfSlice(data.Left(), offset, offset + |cell|, 4);
      assert cell[4..] == cells[column].b;
      var r := data.GetAt(offset + 4, length);
      bytes := r.value;
    }

    /** The bytes of a binary, for a buffer that has room; its length in any case. */
    method GetVarbinary(column: int, room: Option<int>) returns (r: Option<Fetched>)
      requires Valid()
      modifies this`wasNull, this`hasCalculatedOffsets, offsets
      ensures Valid() && (r.Some? <==> 0 <= column < |columns| && columns[column] == Bytes(Varbinary))
      ensures r.Some? ==> wasNull == IsNullCell(isLow, cells[column])
      ensures r.Some? && cells[column].NoText? ==> r.value == Fetched(true, -1, [])
      ensures r.Some? && cells[column].Text? ==> var b := cells[column].b;
        r.value == if room.Some? && |b| <= room.value then Fetched(true, |b|, b) else Fetched(false, |b|, [])
      ensures r.None? ==> wasNull == old(wasNull)
    {
      hide CellsFit;
      var text := GetText(Varbinary, column);
      if text.None? { return None; }
      if text.value.None? { return Some(Fetched(true, -1, [])); }
      var b := text.value.value;
      if room.None? || |b| > room.value { return Some(Fetched(false, |b|, [])); }
      return Some(Fetched(true, |b|, b));
    }

    /** Null is found exactly at null markers and sentinels. */
    method IsNull(column: int) returns (r: Option<bool>)
      requires Valid()
      modifies this`wasNull, this`hasCalculatedOffsets, offsets
      ensures Valid()
      ensures r == if 0 <= column < |columns| then Some(IsNullCell(isLow, cells[column])) else None
    {
      hide Offset, Concat, ByteBuffer.Left, IsNullCell;
      if column < 0 || column >= |columns| { return None; }
      match columns[column] {
        case Bytes(t) => var _ := GetText(t, column);
        case Fixed(SmallInt) => var _ := GetNumber(BigInt, column);
        case Fixed(t) => var _ := GetNumber(t, column);
      }
      r := Some(wasNull);
    }
  }

  lemma FirstOffset(cells: seq<Cell>)
    ensures Offset(cells, 0) == 0
  {
  }

  lemma BlobLength(c: Cell)
    requires CellFits(c) && !c.Number?
    ensures |EncodeCell(c)| >= 4
    ensures DecodeInt(EncodeCell(c)[..4]) == if c.Text? then |c.b| else -1
  {
    hide EncodeInt, DecodeInt;
    if c.Text? {
      IntRoundTrip(4, |c.b|);
      assert EncodeCell(c)[..4] == EncodeInt(4, |c.b|);
    } else {
      Widths();
      IntRoundTrip(4, -1);
      assert EncodeCell(c)[..4] == EncodeInt(4, -1);
    }
  }

  lemma NumberBack(c: Cell)
    requires CellFits(c) && c.Number?
    ensures DecodeInt(EncodeCell(c)[..Width(c.ft)]) == c.v
  {
    hide EncodeInt, DecodeInt, Width;
    IntRoundTrip(Width(c.ft), c.v);
    assert EncodeCell(c)[..Width(c.ft)] == EncodeInt(Width(c.ft), c.v);
  }

  // ---------- the builder ----------

  /** The 64 bits of the double that stands for null. */
  const NULL_DOUBLE := -0x10_0000_0000_0001

  /** What a null is written as. */
  function NullCell(t: WireType): Cell {
    match t
    case Bytes(bt) => NoText(bt)
    case Fixed(Float) => Number(Float, NULL_DOUBLE)
    case Fixed(ft) => Number(ft, -Half(Width(ft)))
  }

  lemma NullCellIsNull(isLow: int -> bool, t: WireType)
    requires isLow(NULL_DOUBLE)
    ensures IsNullCell(isLow, NullCell(t)) && CellFits(NullCell(t)) && CellType(NullCell(t)) == t
  {
    Widths();
  }

  class RowBuilder {
    const columns: seq<WireType>
    const buffer: ByteBuffer
    var currentColumn: nat
    ghost var cells: seq<Cell>

    ghost predicate Valid()
      reads this, buffer, buffer.data
    {
      && buffer.Valid() && buffer.limit == buffer.capacity > 0
      && currentColumn == |cells| <= |columns| && CellsFit(columns[..currentColumn], cells)
      && buffer.Log() == Concat(EncodeCell, cells)
    }

    constructor (schema: seq<WireType>)
      ensures Valid() && columns == schema && cells == [] && fresh(buffer) && fresh(buffer.data)
    {
      columns, currentColumn, cells := schema, 0, [];
      buffer := new ByteBuffer.Allocate(8192);
    }

    method Reset()
      requires Valid()
      modifies this, buffer
      ensures Valid() && cells == []
    {
      buffer.Clear();
      currentColumn, cells := 0, [];
    }

    /** Appends an encoded cell. */
    method Append(bytes: seq<Byte>, ghost c: Cell)
      requires Valid() && currentColumn < |columns| && bytes == EncodeCell(c) && CellFits(c)
      requires CellType(c) == columns[currentColumn] && buffer.position + |bytes| <= 0x4000_0000
      modifies this, buffer, buffer.data
      ensures Valid() && cells == old(cells) + [c] && (buffer.data == old(buffer.data) || fresh(buffer.data))
    {
      hide EncodeCell, ByteBuffer.Log, CellFits;
      ConcatAppend(EncodeCell, cells, c);
      buffer.EnsureRemaining(|bytes|);
      var _ := buffer.Put(bytes);
      currentColumn := currentColumn + 1;
      cells := cells + [c];
    }

    method AddNumber(t: FixedType, v: int) returns (ok: bool)
      requires Valid() && currentColumn < |columns| && Fits(Width(t), v) && buffer.position + Width(t) <= 0x4000_0000
      modifies this, buffer, buffer.data
      ensures Valid() && ok == (columns[old(currentColumn)] == Fixed(t))
      ensures cells == old(cells) + if ok then [Number(t, v)] else []
      ensures buffer.data == old(buffer.data) || fresh(buffer.data)
    {
      hide RowBuilder.Valid, EncodeInt, Fits;
      ok := columns[currentColumn] == Fixed(t);
      if ok { Append(EncodeInt(Width(t), v), Number(t, v)); }
    }

    method AddText(t: BytesType, b: seq<Byte>) returns (ok: bool)
      requires Valid() && currentColumn < |columns| && Fits(4, |b|) && buffer.position + 4 + |b| <= 0x4000_0000
      modifies this, buffer, buffer.data
      ensures Valid() && ok == (columns[old(currentColumn)] == Bytes(t))
      ensures cells == old(cells) + if ok then [Text(t, b)] else []
      ensures buffer.data == old(buffer.data) || fresh(buffer.data)
    {
      hide RowBuilder.Valid, EncodeInt, Fits;
      ok := columns[currentColumn] == Bytes(t);
      if ok { Append(EncodeBytes(b), Text(t, b)); }
    }

    method AddNull()
      requires Valid() && currentColumn < |columns| && columns[currentColumn] !in {Fixed(Timestamp), Fixed(Decimal)}
      requires buffer.position + 8 <= 0x4000_0000
      modifies this, buffer, buffer.data
      ensures Valid() && cells == old(cells) + [NullCell(columns[old(currentColumn)])]
      ensures buffer.data == old(buffer.data) || fresh(buffer.data)
    {
      hide RowBuilder.Valid, EncodeInt;
      NullCellIsNull(v => true, columns[currentColumn]);
      Widths();
      var t := columns[currentColumn];
      if t == Fixed(Float) {
        var _ := AddNumber(Float, NULL_DOUBLE);
      } else if t.Fixed? {
        var _ := AddNumber(t.fixed, -Half(Width(t.fixed)));
      } else {
        Append(EncodeInt(4, -1), NoText(t.bytes));
      }
    }

    /** A finished row is read back by its getters. */
    method Built(isLow: int -> bool) returns (row: Row)
      requires Valid() && currentColumn == |columns|
      modifies buffer
      ensures row.Valid() && fresh(row) && row.cells == cells && row.columns == columns && row.isLow == isLow
    {
      hide ByteBuffer.Log, ByteBuffer.Left, EncodeCell, CellFits, Concat;
      assert columns[..currentColumn] == columns;
      buffer.Flip();
      var slice := buffer.Slice();
      row := new Row(slice, columns, isLow, cells);
    }
  }
}
