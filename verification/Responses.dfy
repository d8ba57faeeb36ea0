/** Procedure responses: tables of rows inside a message, read through nested limits and slices
    that share the message's bytes. */
module Responses {
  import opened Words
  import opened WireFormat
  import opened ByteBuffers

  // ---------- the encoding ----------

  datatype Column = Column(name: seq<Byte>, t: WireType)

  datatype TableValue = TableValue(status: int, columns: seq<Column>, rows: seq<seq<Byte>>)

  function EncodeType(c: Column): seq<Byte> { EncodeInt(1, Tag(c.t)) }
  function EncodeName(c: Column): seq<Byte> { EncodeBytes(c.name) }

  function Schema(t: TableValue): seq<Byte> {
    EncodeInt(2, |t.columns|) + (Concat(EncodeType, t.columns) + Concat(EncodeName, t.columns))
  }

  function Header(t: TableValue): seq<Byte> { EncodeInt(1, t.status) + Schema(t) }

  function Body(t: TableValue): seq<Byte> { EncodeInt(4, |t.rows|) + Concat(EncodeBytes, t.rows) }

  /** Header length, header, row count, rows with their lengths. */
  function EncodeTable(t: TableValue): seq<Byte> { EncodeInt(4, |Header(t)|) + (Header(t) + Body(t)) }

  ghost predicate TableFits(t: TableValue) {
    && Fits(4, |EncodeTable(t)|) && Fits(1, t.status) && 0 < |t.columns| && Fits(2, |t.columns|)
    && (forall i :: 0 <= i < |t.columns| ==> Fits(4, |t.columns[i].name|))
    && AllFit(t.rows)
  }

  ghost predicate AllFit(rows: seq<seq<Byte>>) { Fits(4, |rows|) && forall i :: 0 <= i < |rows| ==> Fits(4, |rows[i]|) }

  datatype Response = Response(
    clientData: int, status: int, statusString: Option<seq<Byte>>, appStatus: int, appString: Option<seq<Byte>>,
    roundTrip: int, exception: Option<seq<Byte>>, tables: seq<TableValue>)

  function EncodeOptional(b: Option<seq<Byte>>): seq<Byte> { if b.Some? then EncodeBytes(b.value) else [] }

  function EncodeResult(t: TableValue): seq<Byte> { EncodeBytes(EncodeTable(t)) }

  /** Bits 5, 6 and 7 announce the status string, the exception and the application's string. */
  function PresentFields(r: Response): int {
    (if r.statusString.Some? then 32 else 0) + (if r.exception.Some? then 64 else 0) +
    (if r.appString.Some? then -128 else 0)
  }

  predicate HasBit(fields: int, power: int)
    requires power > 0
  {
    fields % 256 / power % 2 == 1
  }

  function EncodeTail(r: Response): seq<Byte> {
    EncodeInt(4, r.roundTrip) +
    (EncodeOptional(r.exception) + (EncodeInt(2, |r.tables|) + Concat(EncodeResult, r.tables)))
  }

  function EncodeStrings(r: Response): seq<Byte> {
    EncodeOptional(r.statusString) + (EncodeInt(1, r.appStatus) + (EncodeOptional(r.appString) + EncodeTail(r)))
  }

  function EncodeResponse(r: Response): seq<Byte> {
    EncodeInt(1, 0) +
    (EncodeInt(8, r.clientData) + (EncodeInt(1, PresentFields(r)) + (EncodeInt(1, r.status) + EncodeStrings(r))))
  }

  ghost predicate OptionalFits(b: Option<seq<Byte>>) { b.Some? ==> Fits(4, |b.value|) }

  ghost predicate ResponseFits(r: Response) {
    && Fits(8, r.clientData) && Fits(1, r.status) && Fits(1, r.appStatus) && Fits(4, r.roundTrip)
    && OptionalFits(r.statusString) && OptionalFits(r.appString) && OptionalFits(r.exception)
    && Fits(2, |r.tables|) && forall i :: 0 <= i < |r.tables| ==> TableFits(r.tables[i])
  }

  // ---------- taking things off a buffer ----------

  /** The buffer holds exactly `head + tail`; takes the integer `head` encodes. */
  method TakeInt(buffer: ByteBuffer, width: nat, ghost expected: int, ghost tail: seq<Byte>) returns (v: int)
    requires buffer.Valid() && width > 0 && Fits(width, expected) && buffer.Left() == EncodeInt(width, expected) + tail
    modifies buffer`position
    ensures buffer.Valid() && v == expected && buffer.Left() == tail && buffer.position <= buffer.limit
    ensures buffer.position == old(buffer.position) + width
  {
    hide EncodeInt, DecodeInt, ByteBuffer.Left, Fits;
    ReadIntBack(width, expected, tail);
    var r := buffer.GetInt(width);
    v := r.value;
  }

  method TakeString(buffer: ByteBuffer, ghost expected: seq<Byte>, ghost tail: seq<Byte>) returns (b: seq<Byte>)
    requires buffer.Valid() && Fits(4, |expected|) && buffer.Left() == EncodeBytes(expected) + tail
    modifies buffer`position
    ensures buffer.Valid() && b == expected && buffer.Left() == tail && buffer.position <= buffer.limit
  {
    hide EncodeInt, DecodeInt, ByteBuffer.Left, Fits;
    assert EncodeBytes(expected) + tail == EncodeInt(4, |expected|) + (expected + tail);
    var length := TakeInt(buffer, 4, |expected|, expected + tail);
    var r := buffer.Get(length);
    assert (expected + tail)[..|expected|] == expected && (expected + tail)[|expected|..] == tail;
    b := r.value;
  }

  /** Lowers the limit to the end of a length-prefixed block, slices it off and restores the
      limit. The slice is the block, and the buffer goes on behind it. */
  method TakeSlice(buffer: ByteBuffer, ghost block: seq<Byte>, ghost tail: seq<Byte>) returns (b: ByteBuffer)
    requires buffer.Valid() && Fits(4, |block|) && buffer.Left() == EncodeBytes(block) + tail
    modifies buffer`position, buffer`limit
    ensures buffer.Valid() && buffer.Left() == tail && buffer.limit == old(buffer.limit)
    ensures fresh(b) && b.Valid() && b.Left() == block && b.position == 0 && b.limit == b.capacity
    ensures b.data == buffer.data && b.base == buffer.base + old(buffer.position) + 4
    ensures b.base + b.capacity == buffer.base + buffer.position && buffer.position <= buffer.limit
  {
    hide EncodeInt, Fits, ByteBuffer.Left, ByteBuffer.Window;
    assert EncodeBytes(block) + tail == EncodeInt(4, |block|) + (block + tail);
    var length := TakeInt(buffer, 4, |block|, block + tail);
    b := Cut(buffer, length, block, tail);
  }

  method Cut(buffer: ByteBuffer, length: int, ghost block: seq<Byte>, ghost tail: seq<Byte>) returns (b: ByteBuffer)
    requires buffer.Valid() && buffer.position <= buffer.limit && length == |block| && buffer.Left() == block + tail
    modifies buffer`position, buffer`limit
    ensures buffer.Valid() && buffer.Left() == tail && buffer.limit == old(buffer.limit)
    ensures fresh(b) && b.Valid() && b.Left() == block && b.position == 0 && b.limit == b.capacity
    ensures b.data == buffer.data && b.base == buffer.base + old(buffer.position)
    ensures b.base + b.capacity == buffer.base + buffer.position && buffer.position <= buffer.limit
  {
    hide ByteBuffer.Left, ByteBuffer.Window;
    var oldLimit := buffer.limit;
    buffer.LeftIs();
    CutSlice(buffer.data[..], buffer.base + buffer.position, buffer.base + buffer.limit, block, tail);
    b := SliceOff(buffer, length);
    var _ := buffer.SetLimit(oldLimit);
    buffer.LeftIs();
  }

  method SliceOff(buffer: ByteBuffer, length: nat) returns (b: ByteBuffer)
    requires buffer.Valid() && buffer.position + length <= buffer.limit
    modifies buffer`position, buffer`limit
    ensures buffer.Valid() && buffer.position == buffer.limit == old(buffer.position) + length
    ensures fresh(b) && b.Valid() && b.position == 0 && b.limit == b.capacity == length
    ensures b.data == buffer.data && b.base == buffer.base + old(buffer.position)
    ensures b.Left() == buffer.data[..][b.base..b.base + length]
  {
    hide ByteBuffer.Left, ByteBuffer.Window;
    var _ := buffer.SetLimit(buffer.position + length);
    b := buffer.Slice();
    b.LeftIs();
  }

  /** Reads at an index, without moving. */
  method ReadAt(buffer: ByteBuffer, index: nat, ghost expected: int, ghost front: seq<Byte>, ghost tail: seq<Byte>)
    returns (v: int)
    requires buffer.Valid() && buffer.position == 0 && index == |front| && Fits(4, expected)
    requires buffer.Left() == front + (EncodeInt(4, expected) + tail)
    ensures v == expected
  {
    hide EncodeInt, DecodeInt, Fits, ByteBuffer.Left, ByteBuffer.Window;
    IntRoundTrip(4, expected);
    assert buffer.Window()[index..index + 4] == EncodeInt(4, expected);
    var r := buffer.GetIntAt(index, 4);
    v := r.value;
  }

  // ---------- the iterator ----------

  class TableIterator {
    const buffer: ByteBuffer
    const rowCount: int
    var currentRow: int
    ghost const rows: seq<seq<Byte>>

    ghost predicate Valid()
      reads this, buffer, buffer.data
    {
      && buffer.Valid() && rowCount == |rows| && 0 <= currentRow <= rowCount && AllFit(rows)
      && buffer.Left() == Concat(EncodeBytes, rows[currentRow..])
    }

    constructor (b: ByteBuffer, count: int, ghost theRows: seq<seq<Byte>>)
      requires b.Valid() && count == |theRows| && AllFit(theRows) && b.Left() == Concat(EncodeBytes, theRows)
      ensures Valid() && buffer == b && rowCount == count && currentRow == 0 && rows == theRows
    {
      buffer, rowCount, currentRow, rows := b, count, 0, theRows;
    }

    method HasNext() returns (r: bool)
      requires Valid()
      ensures r == (currentRow < |rows|) && (r ==> |buffer.Left()| > 0)
    {
      r := currentRow < rowCount;
      if r { assert EncodeBytes(rows[currentRow]) <= buffer.Left(); }
    }

    /** Succeeds exactly once for each row, and gives the rows in order. The bytes of the row
        begin behind its length and end where the next one starts. */
    method Next() returns (row: Option<ByteBuffer>)
      requires Valid()
      modifies this, buffer
      ensures Valid() && (row.Some? <==> old(currentRow) < |rows|)
      ensures row.None? ==> currentRow == old(currentRow) && buffer.position == old(buffer.position)
      ensures row.Some? ==> currentRow == old(currentRow) + 1 && fresh(row.value) && row.value.Valid()
      ensures row.Some? ==>
                row.value.Left() == rows[old(currentRow)] && row.value.data == buffer.data && row.value.position == 0
      ensures row.Some? ==> row.value.base == buffer.base + old(buffer.position) + 4
      ensures row.Some? ==> row.value.base + row.value.capacity == buffer.base + buffer.position
      ensures buffer.data == old(buffer.data) && buffer.base == old(buffer.base) && buffer.limit == old(buffer.limit)
    {
      hide EncodeBytes, ByteBuffer.Left;
      if rowCount <= currentRow { return None; }
      assert rows[currentRow..][1..] == rows[currentRow + 1..];
      var slice := TakeSlice(buffer, rows[currentRow], Concat(EncodeBytes, rows[currentRow + 1..]));
      currentRow := currentRow + 1;
      row := Some(slice);
    }

    /** The bytes of the next row. */
    method NextBytes() returns (bytes: seq<Byte>)
      requires Valid() && currentRow < |rows|
      modifies this, buffer
      ensures Valid() && currentRow == old(currentRow) + 1 && bytes == rows[old(currentRow)]
    {
      hide ByteBuffer.Left, ByteBuffer.Window, TableIterator.Valid;
      var row := Next();
      var b := row.value.Get(row.value.limit);
      bytes := b.value;
    }
  }

  // ---------- the schema ----------

  lemma HeaderLength(t: TableValue)
    requires TableFits(t)
    ensures Fits(4, |Header(t)|)
  {
    hide Header, Body;
  }

  method ReadTypes(b: ByteBuffer, n: nat, ghost columns: seq<Column>, ghost tail: seq<Byte>)
    returns (types: seq<WireType>)
    requires b.Valid() && n == |columns| && b.Left() == Concat(EncodeType, columns) + tail
    modifies b`position
    ensures b.Valid() && b.Left() == tail && |types| == n && forall i :: 0 <= i < n ==> types[i] == columns[i].t
  {
    hide EncodeInt, Tag, TypeOfTag, ByteBuffer.Left;
    types := [];
    assert columns[0..] == columns;
    for i := 0 to n
      invariant b.Valid() && b.Left() == Concat(EncodeType, columns[i..]) + tail
      invariant |types| == i && forall j :: 0 <= j < i ==> types[j] == columns[j].t
    {
      var t := columns[i].t;
      TagFits(Tag(t));
      TagsAreDistinct(t);
      assert columns[i..][1..] == columns[i + 1..];
      ghost var rest := Concat(EncodeType, columns[i + 1..]) + tail;
      assert Concat(EncodeType, columns[i..]) + tail == EncodeInt(1, Tag(t)) + rest;
      var tag := TakeInt(b, 1, Tag(t), rest);
      types := types + [TypeOfTag(tag).value];
    }
    assert Concat(EncodeType, columns[n..]) + tail == tail;
  }

  method ReadNames(b: ByteBuffer, types: seq<WireType>, ghost columns: seq<Column>, ghost tail: seq<Byte>)
    returns (cs: seq<Column>)
    requires b.Valid() && |types| == |columns| && b.Left() == Concat(EncodeName, columns) + tail
    requires forall i :: 0 <= i < |columns| ==> types[i] == columns[i].t && Fits(4, |columns[i].name|)
    modifies b`position
    ensures b.Valid() && b.Left() == tail && cs == columns
  {
    hide EncodeBytes, ByteBuffer.Left, Fits;
    cs := [];
    assert columns[0..] == columns;
    for i := 0 to |types|
      invariant b.Valid() && b.Left() == Concat(EncodeName, columns[i..]) + tail
      invariant |cs| == i && cs == columns[..i]
    {
      assert columns[i..][1..] == columns[i + 1..];
      ghost var rest := Concat(EncodeName, columns[i + 1..]) + tail;
      assert Concat(EncodeName, columns[i..]) + tail == EncodeBytes(columns[i].name) + rest;
      var name := TakeString(b, columns[i].name, rest);
      cs := cs + [Column(name, types[i])];
    }
    assert Concat(EncodeName, columns[|types|..]) + tail == tail;
  }

  lemma SchemaStarts(t: TableValue)
    ensures 5 <= |EncodeTable(t)|
    ensures EncodeTable(t)[5..] ==
            EncodeInt(2, |t.columns|) + (Concat(EncodeType, t.columns) + (Concat(EncodeName, t.columns) + Body(t)))
  {
    hide EncodeInt, Body, Concat;
    var front := EncodeInt(4, |Header(t)|) + EncodeInt(1, t.status);
    assert EncodeTable(t) == front + (Schema(t) + Body(t));
  }

  lemma RowsStart(t: TableValue)
    ensures EncodeTable(t) == EncodeInt(4, |Header(t)|) + Header(t) +
            (EncodeInt(4, |t.rows|) + Concat(EncodeBytes, t.rows))
    ensures 8 + |Header(t)| <= |EncodeTable(t)| && EncodeTable(t)[8 + |Header(t)|..] == Concat(EncodeBytes, t.rows)
  {
    hide EncodeInt, Header, Concat;
    var front := EncodeInt(4, |Header(t)|) + Header(t) + EncodeInt(4, |t.rows|);
    assert EncodeTable(t) == front + Concat(EncodeBytes, t.rows);
  }

  /** The columns, from behind the header length and the status. */
  method ReadSchema(b: ByteBuffer, ghost t: TableValue) returns (cs: seq<Column>)
    requires b.Valid() && b.position == 0 && b.Left() == EncodeTable(t) && TableFits(t)
    modifies b`position
    ensures cs == t.columns
  {
    hide EncodeInt, Fits, Body, Concat, ByteBuffer.Left, ByteBuffer.Window;
    SchemaStarts(t);
    var _ := b.SetPosition(5);
    ghost var names := Concat(EncodeName, t.columns) + Body(t);
    var n := TakeInt(b, 2, |t.columns|, Concat(EncodeType, t.columns) + names);
    var types := ReadTypes(b, n, t.columns, names);
    cs := ReadNames(b, types, t.columns, Body(t));
  }

  lemma WindowIs(b: ByteBuffer)
    requires b.Valid()
    ensures b.Window() == b.data[b.base..b.base + b.limit]
  {
  }

  // ---------- the table ----------

  /** Where the rows start, by the header length, and how many they are. */
  method ReadRowPlace(slice: ByteBuffer, ghost t: TableValue) returns (rowStart: int, rowCount: int)
    requires slice.Valid() && slice.position == 0 && TableFits(t) && slice.Left() == EncodeTable(t)
    ensures rowStart == 4 + |Header(t)| && rowCount == |t.rows|
  {
    hide EncodeInt, Fits, DecodeInt, ByteBuffer.Left, ByteBuffer.Window, Header, Concat;
    HeaderLength(t);
    assert [] + EncodeTable(t) == EncodeTable(t);
    var headerLength := ReadAt(slice, 0, |Header(t)|, [], Header(t) + Body(t));
    rowStart := headerLength + 4;
    RowsStart(t);
    rowCount := ReadAt(slice, rowStart, |t.rows|, EncodeInt(4, |Header(t)|) + Header(t), Concat(EncodeBytes, t.rows));
  }

  class Table {
    const buffer: ByteBuffer
    var columns: seq<Column>
    var rowStart: int
    var rowCount: int
    ghost var value: TableValue

    /** Says nothing about the buffer's position. */
    ghost predicate Valid()
      reads this, buffer, buffer.data
    {
      && buffer.Valid() && buffer.limit == buffer.capacity && TableFits(value)
      && buffer.Window() == EncodeTable(value)
      && columns == value.columns && rowCount == |value.rows| && rowStart == 4 + |Header(value)|
    }

    /** Reads the schema, and finds the rows by the header length. */
    constructor (slice: ByteBuffer, ghost t: TableValue)
      requires slice.Valid() && slice.position == 0 && slice.limit == slice.capacity
      requires TableFits(t) && slice.Left() == EncodeTable(t)
      modifies slice`position
      ensures Valid() && value == t && buffer == slice && buffer.position == buffer.limit
    {
      hide EncodeInt, Fits, DecodeInt, ByteBuffer.Left, ByteBuffer.Window, Header, Concat, EncodeTable, Body;
      var b := new ByteBuffer(slice.data, slice.base, slice.capacity);
      assert slice.Window() == slice.data[slice.base..slice.base + slice.capacity] by { WindowIs(slice); }
      var cs := ReadSchema(b, t);
      buffer, columns, value := slice, cs, t;
      new;
      var start, count := ReadRowPlace(slice, t);
      rowStart, rowCount := start, count;
      var _ := buffer.SetPosition(buffer.limit);
    }

    /** Starts behind the row count, wherever the buffer was left by an earlier iterator. */
    method Iterator() returns (it: TableIterator)
      requires Valid()
      modifies buffer`position
      ensures Valid() && fresh(it) && fresh(it.buffer) && it.buffer.data == buffer.data
      ensures it.Valid() && it.currentRow == 0 && it.rows == value.rows
    {
      hide EncodeInt, Fits, Concat, Header, EncodeTable, ByteBuffer.Left, ByteBuffer.Window;
      RowsStart(value);
      var _ := buffer.SetPosition(rowStart + 4);
      var slice := buffer.Slice();
      it := new TableIterator(slice, rowCount, value.rows);
    }

    /** All rows; however often it is asked. */
    method Rows() returns (all: seq<seq<Byte>>)
      requires Valid()
      modifies buffer`position
      ensures Valid() && all == value.rows
    {
      hide EncodeTable, TableFits, ByteBuffer.Left, ByteBuffer.Window, Header, Concat, AllFit;
      var it := Iterator();
      all := [];
      var more := it.HasNext();
      while more
        invariant it.Valid() && it.rows == value.rows && more == (it.currentRow < |it.rows|)
        invariant fresh(it) && fresh(it.buffer) && all == it.rows[..it.currentRow]
        invariant Valid() && value == old(value)
        decreases |it.rows| - it.currentRow
      {
        var row := it.NextBytes();
        all := all + [row];
        more := it.HasNext();
      }
    }
  }

  // ---------- the response ----------

  lemma BitsOfFields(r: Response)
    ensures Fits(1, PresentFields(r))
    ensures HasBit(PresentFields(r), 32) == r.statusString.Some?
    ensures HasBit(PresentFields(r), 64) == r.exception.Some?
    ensures HasBit(PresentFields(r), 128) == r.appString.Some?
  {
  }

  /** A string that is there when its bit is set; otherwise it stays empty. */
  method TakeOptional(buffer: ByteBuffer, present: bool, ghost expected: Option<seq<Byte>>, ghost tail: seq<Byte>)
    returns (b: seq<Byte>)
    requires buffer.Valid() && present == expected.Some? && OptionalFits(expected)
    requires buffer.Left() == EncodeOptional(expected) + tail
    modifies buffer`position
    ensures buffer.Valid() && buffer.Left() == tail && b == if present then expected.value else []
  {
    hide ByteBuffer.Left, EncodeBytes, Fits;
    b := [];
    if present { b := TakeString(buffer, expected.value, tail); } else { assert [] + tail == tail; }
  }

  /** Skips a block by its length. */
  method SkipOptional(buffer: ByteBuffer, present: bool, ghost expected: Option<seq<Byte>>, ghost tail: seq<Byte>)
    requires buffer.Valid() && present == expected.Some? && OptionalFits(expected)
    requires buffer.Left() == EncodeOptional(expected) + tail
    modifies buffer`position
    ensures buffer.Valid() && buffer.Left() == tail
  {
    hide ByteBuffer.Left, ByteBuffer.Window, EncodeInt, Fits;
    if present {
      ghost var block := expected.value;
      assert EncodeBytes(block) + tail == EncodeInt(4, |block|) + (block + tail);
      var position := buffer.position + 4;
      var length := TakeInt(buffer, 4, |block|, block + tail);
      buffer.LeftInWindow();
      SliceOfRest(buffer.Window(), position, length);
      assert (block + tail)[|block|..] == tail;
      var _ := buffer.SetPosition(position + length);
    } else {
      assert [] + tail == tail;
    }
  }

  /** A decoded table: its value, in a window of the message. */
  ghost predicate IsTable(table: Table, t: TableValue, data: array<Byte>)
    reads table, table.buffer, data
  {
    table.buffer.data == data && table.Valid() && table.value == t
  }

  /** Where the window of a table ends. */
  ghost function End(table: Table): int reads table.buffer { table.buffer.base + table.buffer.capacity }

  method TakeTable(buffer: ByteBuffer, ghost t: TableValue, ghost tail: seq<Byte>) returns (table: Table)
    requires buffer.Valid() && TableFits(t) && buffer.Left() == EncodeResult(t) + tail
    modifies buffer`position, buffer`limit
    ensures buffer.Valid() && buffer.Left() == tail && buffer.limit == old(buffer.limit) &&
            buffer.position >= old(buffer.position)
    ensures fresh(table) && fresh(table.buffer) && table.buffer.base >= buffer.base + old(buffer.position)
    ensures IsTable(table, t, buffer.data) && End(table) <= buffer.base + buffer.position
  {
    hide ByteBuffer.Left, ByteBuffer.Window, EncodeBytes, EncodeTable, TableFits, Table.Valid;
    SizeFits(t);
    var slice := TakeSlice(buffer, EncodeTable(t), tail);
    table := new Table(slice, t);
  }

  /** These are the tables, each behind the one before, and all before `end`; `made` holds them
      and their windows. */
  ghost predicate TablesRead(results: seq<Table>, tables: seq<TableValue>, data: array<Byte>, end: int,
                             made: set<object>)
    reads made, data
  {
    && |results| == |tables|
    && (forall i :: 0 <= i < |results| ==> results[i] in made && results[i].buffer in made)
    && (forall i :: 0 <= i < |results| ==> IsTable(results[i], tables[i], data) && End(results[i]) <= end)
    && (forall i, j :: 0 <= i < j < |results| ==> End(results[i]) <= results[j].buffer.base)
  }

  lemma NoTables(data: array<Byte>, end: int)
    ensures TablesRead([], [], data, end, {})
  {
  }

  lemma OneMoreTable(results: seq<Table>, tables: seq<TableValue>, data: array<Byte>, end: int, made: set<object>,
                     table: Table, t: TableValue, newEnd: int)
    requires TablesRead(results, tables, data, end, made) && IsTable(table, t, data)
    requires end <= table.buffer.base && end <= newEnd && End(table) <= newEnd
    ensures TablesRead(results + [table], tables + [t], data, newEnd, made + {table, table.buffer})
  {
    hide IsTable, End;
  }

  method TakeNext(buffer: ByteBuffer, results: seq<Table>, ghost done: seq<TableValue>, ghost t: TableValue,
                  ghost tail: seq<Byte>, ghost made: set<object>) returns (more: seq<Table>, ghost made': set<object>)
    requires buffer.Valid() && TableFits(t) && buffer.Left() == EncodeResult(t) + tail && buffer !in made
    requires TablesRead(results, done, buffer.data, buffer.base + buffer.position, made)
    modifies buffer`position, buffer`limit
    ensures buffer.Valid() && buffer.Left() == tail && buffer.limit == old(buffer.limit) && fresh(made' - made)
    ensures TablesRead(more, done + [t], buffer.data, buffer.base + buffer.position, made')
  {
    hide ByteBuffer.Left, ByteBuffer.Window, EncodeResult, TableFits, IsTable, End, TablesRead;
    ghost var end := buffer.base + buffer.position;
    var table := TakeTable(buffer, t, tail);
    OneMoreTable(results, done, buffer.data, end, made, table, t, buffer.base + buffer.position);
    more, made' := results + [table], made + {table, table.buffer};
  }

  /** The tables one by one. Each lies behind the one before. */
  method TakeTables(buffer: ByteBuffer, n: nat, ghost tables: seq<TableValue>)
    returns (results: seq<Table>, ghost made: set<object>)
    requires buffer.Valid() && n == |tables| && buffer.Left() == Concat(EncodeResult, tables)
    requires forall i :: 0 <= i < n ==> TableFits(tables[i])
    modifies buffer`position, buffer`limit
    ensures buffer.Valid() && buffer.Left() == [] && buffer.limit == old(buffer.limit) && fresh(made)
    ensures TablesRead(results, tables, buffer.data, buffer.base + buffer.position, made)
  {
    hide ByteBuffer.Left, ByteBuffer.Window, EncodeResult, TableFits, TablesRead, Concat;
    results, made := [], {};
    ghost var done, left: seq<TableValue> := [], tables;
    NoTables(buffer.data, buffer.base + buffer.position);
    assert done + left == tables;
    for i := 0 to n
      invariant buffer.Valid() && buffer.Left() == Concat(EncodeResult, left) && buffer.limit == old(buffer.limit)
      invariant done + left == tables && |left| == n - i && forall t :: t in left ==> TableFits(t)
      invariant fresh(made) && TablesRead(results, done, buffer.data, buffer.base + buffer.position, made)
    {
      FirstResult(left);
      results, made := TakeNext(buffer, results, done, left[0], Concat(EncodeResult, left[1..]), made);
      assert done + [left[0]] + left[1..] == done + left;
      done, left := done + [left[0]], left[1..];
    }
    NoResults(left);
    assert done + [] == done;
  }

  lemma FirstResult(tables: seq<TableValue>)
    requires |tables| > 0
    ensures Concat(EncodeResult, tables) == EncodeResult(tables[0]) + Concat(EncodeResult, tables[1..])
  {
  }

  lemma NoResults(tables: seq<TableValue>)
    requires |tables| == 0
    ensures Concat(EncodeResult, tables) == []
  {
  }

  lemma SizeFits(t: TableValue)
    requires TableFits(t)
    ensures Fits(4, |EncodeTable(t)|)
  {
  }

  /** The client data is where the client looks for it: behind the version byte. */
  lemma ClientDataInPlace(r: Response)
    requires ResponseFits(r)
    ensures |EncodeResponse(r)| >= 9 && DecodeInt(EncodeResponse(r)[1..9]) == r.clientData
  {
    hide EncodeInt, DecodeInt, EncodeStrings, Fits, TableFits;
    var tail := EncodeInt(1, PresentFields(r)) + (EncodeInt(1, r.status) + EncodeStrings(r));
    IntRoundTrip(8, r.clientData);
    assert EncodeResponse(r) == EncodeInt(1, 0) + EncodeInt(8, r.clientData) + tail;
    assert EncodeResponse(r)[1..9] == EncodeInt(8, r.clientData);
  }

  method ReadHead(buffer: ByteBuffer, ghost r: Response) returns (clientData: int, fields: int, status: int)
    requires buffer.Valid() && ResponseFits(r) && buffer.Left() == EncodeResponse(r)
    modifies buffer`position
    ensures buffer.Valid() && buffer.Left() == EncodeStrings(r)
    ensures clientData == r.clientData && fields == PresentFields(r) && status == r.status
  {
    hide ByteBuffer.Left, EncodeInt, EncodeStrings, TableFits, PresentFields;
    BitsOfFields(r);
    ghost var fromStatus := EncodeInt(1, r.status) + EncodeStrings(r);
    ghost var fromFields := EncodeInt(1, PresentFields(r)) + fromStatus;
    var version := TakeInt(buffer, 1, 0, EncodeInt(8, r.clientData) + fromFields);
    clientData := TakeInt(buffer, 8, r.clientData, fromFields);
    fields := TakeInt(buffer, 1, PresentFields(r), fromStatus);
    status := TakeInt(buffer, 1, r.status, EncodeStrings(r));
  }

  method ReadStrings(buffer: ByteBuffer, fields: int, ghost r: Response)
    returns (statusString: seq<Byte>, appStatus: int, appString: seq<Byte>)
    requires buffer.Valid() && ResponseFits(r) && buffer.Left() == EncodeStrings(r) && fields == PresentFields(r)
    modifies buffer`position
    ensures buffer.Valid() && buffer.Left() == EncodeTail(r) && appStatus == r.appStatus
    ensures statusString == if r.statusString.Some? then r.statusString.value else []
    ensures appString == if r.appString.Some? then r.appString.value else []
  {
    hide ByteBuffer.Left, EncodeInt, EncodeTail, TableFits, PresentFields, HasBit, EncodeOptional, Fits, OptionalFits;
    BitsOfFields(r);
    ghost var fromApp := EncodeOptional(r.appString) + EncodeTail(r);
    statusString := TakeOptional(buffer, HasBit(fields, 32), r.statusString, EncodeInt(1, r.appStatus) + fromApp);
    appStatus := TakeInt(buffer, 1, r.appStatus, fromApp);
    appString := TakeOptional(buffer, HasBit(fields, 128), r.appString, EncodeTail(r));
  }

  method ReadTail(buffer: ByteBuffer, fields: int, ghost r: Response)
    returns (roundTrip: int, results: seq<Table>, ghost made: set<object>)
    requires buffer.Valid() && ResponseFits(r) && buffer.Left() == EncodeTail(r) && fields == PresentFields(r)
    modifies buffer`position, buffer`limit
    ensures buffer.Valid() && buffer.Left() == [] && roundTrip == r.roundTrip
    ensures fresh(made) && TablesRead(results, r.tables, buffer.data, buffer.base + buffer.position, made)
  {
    hide ByteBuffer.Left, EncodeInt, TableFits, PresentFields, HasBit, EncodeOptional;
    hide Fits, OptionalFits, TablesRead, Concat;
    BitsOfFields(r);
    ghost var fromTables := Concat(EncodeResult, r.tables);
    ghost var fromCount := EncodeInt(2, |r.tables|) + fromTables;
    roundTrip := TakeInt(buffer, 4, r.roundTrip, EncodeOptional(r.exception) + fromCount);
    SkipOptional(buffer, HasBit(fields, 64), r.exception, fromCount);
    var count := TakeInt(buffer, 2, |r.tables|, fromTables);
    results, made := TakeTables(buffer, count, r.tables);
  }

  class InvocationResponse {
    var clientData: int
    var statusCode: int
    var statusString: seq<Byte>
    var appStatusCode: int
    var appStatusString: seq<Byte>
    var clusterRoundTripTime: int
    var results: seq<Table>

    /** Every part of the response comes back, whichever fields are present, and nothing of the
        message is left. The tables lie in disjoint windows of it. */
    constructor (buffer: ByteBuffer, ghost r: Response)
      requires buffer.Valid() && ResponseFits(r) && buffer.Left() == EncodeResponse(r)
      modifies buffer`position, buffer`limit
      ensures clientData == r.clientData && statusCode == r.status && appStatusCode == r.appStatus
      ensures statusString == (if r.statusString.Some? then r.statusString.value else [])
      ensures appStatusString == (if r.appString.Some? then r.appString.value else [])
      ensures clusterRoundTripTime == r.roundTrip && buffer.Valid() && buffer.Left() == []
      ensures |results| == |r.tables| &&
              forall i :: 0 <= i < |results| ==> results[i].Valid() && results[i].value == r.tables[i]
      ensures forall i, j :: 0 <= i < j < |results| ==> End(results[i]) <= results[j].buffer.base
    {
      hide ByteBuffer.Left, ResponseFits, EncodeResponse, EncodeStrings, EncodeTail;
      hide PresentFields, TableFits, Table.Valid;
      var id, fields, status := ReadHead(buffer, r);
      var text, appStatus, appText := ReadStrings(buffer, fields, r);
      var roundTrip, tables, made := ReadTail(buffer, fields, r);
      clientData, statusCode, statusString, appStatusCode, appStatusString := id, status, text, appStatus, appText;
      clusterRoundTripTime, results := roundTrip, tables;
    }
  }
}
