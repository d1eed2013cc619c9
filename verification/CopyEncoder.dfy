/**
 Rows of sensor data on their way into PostgreSQL, after src/DatabaseSystems/Postgres.c: how column
 offsets are computed, and the binary COPY stream that PgInsertData sends. Integers are little-endian on
 the host. The decoder follows the Binary Format section of PostgreSQL's COPY reference page.
 */
module CopyEncoder {
  import opened Sequences
  import opened Options
  import opened Bytes

  const TWO_15 := 0x8000
  const TWO_16 := 0x1_0000
  const TWO_31 := 0x8000_0000
  const TWO_32 := 0x1_0000_0000
  const TWO_63 := 0x8000_0000_0000_0000
  const TWO_64 := 0x1_0000_0000_0000_0000

  function Signed16(v: nat): int { if v < TWO_15 then v else v - TWO_16 }
  function Signed32(v: nat): int { if v < TWO_31 then v else v - TWO_32 }
  function Signed64(v: nat): int { if v < TWO_63 then v else v - TWO_64 }
  function Unsigned32(v: int): nat { v % TWO_32 }
  function Unsigned64(v: int): nat { v % TWO_64 }

  // ---- Timestamps ----

  const UNIX_EPOCH_JDATE := 2440588
  const POSTGRES_EPOCH_JDATE := 2451545
  const USECS_PER_DAY := 86_400_000_000
  const USECS_PER_SECOND := 1_000_000
  const NSECS_PER_USEC := 1000

  /** What 64-bit arithmetic leaves of a result. */
  function Wrap64(v: int): int {
    Signed64(Unsigned64(v))
  }

  function UnixToPgTimestamp(t: int): int {
    Wrap64(Wrap64(t * USECS_PER_SECOND) + (UNIX_EPOCH_JDATE - POSTGRES_EPOCH_JDATE) * USECS_PER_DAY)
  }

  /** 2000-01-01 in Unix time. */
  const POSTGRES_EPOCH := 946_684_800

  predicate InInt64(v: int) { -TWO_63 <= v < TWO_63 }

  predicate Convertible(t: int) { -9_222_425_352_054 <= t <= 9_223_372_036_854 }

  /** Neither the product nor the sum leaves 64 bits exactly in this range of times. */
  lemma ConvertibleIsNoOverflow(t: int)
    ensures Convertible(t) <==>
            InInt64(t * USECS_PER_SECOND) &&
            InInt64(t * USECS_PER_SECOND + (UNIX_EPOCH_JDATE - POSTGRES_EPOCH_JDATE) * USECS_PER_DAY)
  {
  }

  lemma WrapIsIdentity(v: int)
    ensures InInt64(v) <==> Wrap64(v) == v
  {
  }

  /** Within that range the result counts the microseconds since 2000-01-01. */
  lemma TimestampsAreMicroseconds(t: int)
    requires Convertible(t)
    ensures UnixToPgTimestamp(t) == (t - POSTGRES_EPOCH) * USECS_PER_SECOND
    ensures InInt64(UnixToPgTimestamp(t))
  {
    ConvertibleIsNoOverflow(t);
    WrapIsIdentity(t * USECS_PER_SECOND);
    WrapIsIdentity(t * USECS_PER_SECOND + (UNIX_EPOCH_JDATE - POSTGRES_EPOCH_JDATE) * USECS_PER_DAY);
  }

  // ---- Columns ----

  const PG_INT8 := 20
  const PG_INT2 := 21
  const PG_INT4 := 23
  const PG_FLOAT4 := 700
  const PG_FLOAT8 := 701
  const PG_TIMESTAMP := 1114
  const PG_DATE := 1082

  /** What the catalogue says about a column. */
  datatype Description = Description(typeOid: int, typeLength: int, isAutoIncrement: bool)

  datatype Column = Column(typeOid: int, typeLength: int, isAutoIncrement: bool, offset: int)

  /** The lengths of the types in question, by PostgreSQL's catalogue pg_type. */
  const TYPE_LENGTHS: map<int, nat> := map[20 := 8, 21 := 2, 23 := 4, 700 := 4, 701 := 8, 1114 := 8]

  /** How many bytes the encoder writes for a value of a type; none for types it does not handle. */
  function Width(typeOid: int): nat {
    if typeOid == PG_INT8 || typeOid == PG_FLOAT8 || typeOid == PG_TIMESTAMP then 8
    else if typeOid == PG_INT4 || typeOid == PG_FLOAT4 then 4
    else if typeOid == PG_INT2 then 2
    else 0
  }

  /** The columns the encoder writes, in order. */
  function Written(columns: seq<Column>): seq<Column> {
    if columns == [] then []
    else if columns[0].isAutoIncrement then Written(columns[1..])
    else [columns[0]] + Written(columns[1..])
  }

  lemma {:induction false} WrittenConcat(a: seq<Column>, b: seq<Column>)
    ensures Written(a + b) == Written(a) + Written(b)
  {
    if a == [] {
      assert a + b == b;
    } else {
      assert (a + b)[1..] == a[1..] + b;
      WrittenConcat(a[1..], b);
    }
  }

  lemma WrittenSnoc(columns: seq<Column>, column: Column)
    ensures Written(columns + [column]) == if column.isAutoIncrement then Written(columns) else Written(columns) + [column]
  {
    WrittenConcat(columns, [column]);
    assert [column][1..] == [];
  }

  function TotalLength(written: seq<Column>): int {
    if written == [] then 0 else TotalLength(written[..|written| - 1]) + written[|written| - 1].typeLength
  }

  /** Every written column starts where the one before it ends, and the first one at zero. */
  predicate Packed(written: seq<Column>) {
    forall i :: 0 <= i < |written| ==> written[i].offset == TotalLength(written[..i])
  }

  predicate Describes(d: Description, column: Column) {
    && column.typeOid == d.typeOid && column.typeLength == d.typeLength
    && column.isAutoIncrement == d.isAutoIncrement && (d.isAutoIncrement ==> column.offset == -1)
  }

  lemma PackedSnoc(written: seq<Column>, column: Column)
    requires Packed(written) && column.offset == TotalLength(written)
    ensures Packed(written + [column])
    ensures TotalLength(written + [column]) == TotalLength(written) + column.typeLength
  {
    var more := written + [column];
    assert more[..|written|] == written;
    forall i | 0 <= i < |more|
      ensures more[i].offset == TotalLength(more[..i])
    {
      if i < |written| {
        assert more[..i] == written[..i];
      }
    }
  }

  /** The first columns are those the catalogue describes first. */
  predicate DescribesAll(descriptions: seq<Description>, columns: seq<Column>) {
    |columns| <= |descriptions| && forall i :: 0 <= i < |columns| ==> Describes(descriptions[i], columns[i])
  }

  lemma DescribesOneMore(descriptions: seq<Description>, columns: seq<Column>, column: Column, offset: int)
    requires DescribesAll(descriptions, columns) && |columns| < |descriptions|
    requires var d := descriptions[|columns|];
             column == Column(d.typeOid, d.typeLength, d.isAutoIncrement, if d.isAutoIncrement then -1 else offset)
    ensures DescribesAll(descriptions, columns + [column])
  {
  }

  lemma NothingWritten(descriptions: seq<Description>)
    ensures Written([]) == [] && Packed([]) && TotalLength([]) == 0 && DescribesAll(descriptions, [])
  {
  }

  /** The loop of GetTableMetadata: offsets, the number of written columns and the row size. */
  method GetTableMetadata(descriptions: seq<Description>)
    returns (columns: seq<Column>, writtenCount: nat, rowSize: int)
    ensures |columns| == |descriptions| && DescribesAll(descriptions, columns)
    ensures Packed(Written(columns)) && writtenCount == |Written(columns)| && rowSize == TotalLength(Written(columns))
  {
    columns, writtenCount, rowSize := [], 0, 0;
    var offset := 0;
    NothingWritten(descriptions);
    hide *;
    for i := 0 to |descriptions|
      invariant |columns| == i && DescribesAll(descriptions, columns)
      invariant Packed(Written(columns)) && writtenCount == |Written(columns)|
      invariant offset == rowSize == TotalLength(Written(columns))
    {
      var d := descriptions[i];
      var column := Column(d.typeOid, d.typeLength, d.isAutoIncrement, if d.isAutoIncrement then -1 else offset);
      ghost var offset' := offset;
      WrittenSnoc(columns, column);
      if !d.isAutoIncrement {
        PackedSnoc(Written(columns), column);
        offset := offset + d.typeLength;
        rowSize := rowSize + d.typeLength;
        writtenCount := writtenCount + 1;
      }
      DescribesOneMore(descriptions, columns, column, offset');
      columns := columns + [column];
    }
  }

  predicate Inside(column: Column, size: int) {
    0 <= column.offset && 0 <= column.typeLength && column.offset + column.typeLength <= size
  }

  /** The bytes of a row that belong to a column. */
  function Slice(row: seq<Byte>, column: Column): seq<Byte>
    requires Inside(column, |row|)
  {
    row[column.offset..column.offset + column.typeLength]
  }

  predicate Lengths(written: seq<Column>) {
    forall i :: 0 <= i < |written| ==> written[i].typeLength >= 0
  }

  lemma {:induction false} PrefixIsShorter(written: seq<Column>, i: nat)
    requires Lengths(written) && i < |written|
    ensures 0 <= TotalLength(written[..i]) && TotalLength(written[..i]) + written[i].typeLength <= TotalLength(written)
    decreases |written|
  {
    var front := written[..|written| - 1];
    if i > 0 {
      PrefixIsShorter(written[..i], i - 1);
      assert written[..i][..i - 1] == written[..i - 1];
    }
    if i < |front| {
      assert front[..i] == written[..i];
      PrefixIsShorter(front, i);
    } else {
      assert front == written[..i];
    }
  }

  predicate AllInside(written: seq<Column>, size: int) {
    forall i :: 0 <= i < |written| ==> Inside(written[i], size)
  }

  function Slices(written: seq<Column>, row: seq<Byte>): (slices: seq<seq<Byte>>)
    requires AllInside(written, |row|)
    ensures |slices| == |written| && forall i :: 0 <= i < |written| ==> slices[i] == Slice(row, written[i])
  {
    if written == [] then []
    else Slices(written[..|written| - 1], row) + [Slice(row, written[|written| - 1])]
  }

  lemma PackedInside(written: seq<Column>)
    requires Packed(written) && Lengths(written)
    ensures TotalLength(written) >= 0
    ensures AllInside(written, TotalLength(written))
  {
    forall i | 0 <= i < |written|
      ensures Inside(written[i], TotalLength(written)) && TotalLength(written) >= 0
    {
      PrefixIsShorter(written, i);
    }
  }

  lemma PackedFront(written: seq<Column>)
    requires Packed(written) && Lengths(written) && written != []
    ensures Packed(written[..|written| - 1]) && Lengths(written[..|written| - 1])
    ensures TotalLength(written[..|written| - 1]) == written[|written| - 1].offset
  {
    var front := written[..|written| - 1];
    forall i | 0 <= i < |front|
      ensures front[i].offset == TotalLength(front[..i])
    {
      assert front[..i] == written[..i];
    }
  }

  /** Slices of columns within the first bytes do not depend on the others. */
  lemma {:induction false} SlicesOfPrefix(written: seq<Column>, row: seq<Byte>, cut: nat)
    requires cut <= |row| && AllInside(written, cut)
    ensures AllInside(written, |row|)
    ensures Slices(written, row) == Slices(written, row[..cut])
  {
    if written != [] {
      SlicesOfPrefix(written[..|written| - 1], row, cut);
      var last := written[|written| - 1];
      assert Slice(row, last) == Slice(row[..cut], last);
    }
  }

  /** Packed columns tile the row: their slices, in order, make up the whole row. */
  lemma {:induction false} ColumnsTileTheRow(written: seq<Column>, row: seq<Byte>)
    requires Packed(written) && Lengths(written) && |row| == TotalLength(written)
    ensures AllInside(written, |row|)
    ensures Flatten(Slices(written, row)) == row
    decreases |written|
  {
    PackedInside(written);
    if written != [] {
      var front, last := written[..|written| - 1], written[|written| - 1];
      PackedFront(written);
      PackedInside(front);
      assert Inside(last, |row|);
      ColumnsTileTheRow(front, row[..last.offset]);
      SlicesOfPrefix(front, row, last.offset);
      SlicesSnoc(written, row);
      hide *;
      FlattenSnoc(Slices(front, row), Slice(row, last));
      RowSplits(row, last);
    }
  }

  lemma SlicesSnoc(written: seq<Column>, row: seq<Byte>)
    requires AllInside(written, |row|) && written != []
    ensures AllInside(written[..|written| - 1], |row|) && Inside(written[|written| - 1], |row|)
    ensures Slices(written, row) ==
            Slices(written[..|written| - 1], row) + [Slice(row, written[|written| - 1])]
  {
  }

  lemma RowSplits(row: seq<Byte>, last: Column)
    requires Inside(last, |row|) && last.offset + last.typeLength == |row|
    ensures row[..last.offset] + Slice(row, last) == row
  {
  }

  // ---- What is sent ----

  /** The encoder can read what it writes for a column from a row of that size. */
  predicate Readable(column: Column, size: nat) {
    0 <= column.offset && column.offset + Width(column.typeOid) <= size
  }

  predicate AllReadable(written: seq<Column>, size: nat) {
    forall i :: 0 <= i < |written| ==> Readable(written[i], size)
  }

  /** The value of a column in host order, as an unsigned number of its width. */
  function HostValue(column: Column, row: seq<Byte>): nat
    requires Readable(column, |row|)
  {
    FromLittle(row[column.offset..column.offset + Width(column.typeOid)])
  }

  /** The value that is sent: the same, except that timestamps change their epoch and unit. */
  function SentValue(column: Column, row: seq<Byte>): nat
    requires Readable(column, |row|)
  {
    if column.typeOid == PG_TIMESTAMP then Unsigned64(UnixToPgTimestamp(Signed64(HostValue(column, row))))
    else HostValue(column, row)
  }

  function FieldBytes(column: Column, row: seq<Byte>): (b: seq<Byte>)
    requires Readable(column, |row|)
    ensures |b| == Width(column.typeOid)
  {
    ToBig(SentValue(column, row), Width(column.typeOid))
  }

  /** A field: its declared length, and its value unless its type is not handled. */
  function EncodeField(column: Column, row: seq<Byte>): (b: seq<Byte>)
    requires Readable(column, |row|)
    ensures |b| == 4 + Width(column.typeOid)
  {
    ToBig(Unsigned32(column.typeLength), 4) + FieldBytes(column, row)
  }

  function EncodeFields(written: seq<Column>, row: seq<Byte>): (b: seq<Byte>)
    requires AllReadable(written, |row|)
    ensures |b| == FieldsSize(written)
  {
    if written == [] then []
    else EncodeFields(written[..|written| - 1], row) + EncodeField(written[|written| - 1], row)
  }

  function FieldsSize(written: seq<Column>): nat {
    if written == [] then 0
    else FieldsSize(written[..|written| - 1]) + (4 + Width(written[|written| - 1].typeOid))
  }

  /** A tuple: the number of fields and the fields. */
  function EncodeRow(written: seq<Column>, row: seq<Byte>): (b: seq<Byte>)
    requires AllReadable(written, |row|)
    ensures |b| == 2 + FieldsSize(written)
  {
    ToBig(|written|, 2) + EncodeFields(written, row)
  }

  function EncodeRows(written: seq<Column>, rows: seq<seq<Byte>>, rowSize: nat): (b: seq<Byte>)
    requires AllReadable(written, rowSize) && forall i :: 0 <= i < |rows| ==> |rows[i]| == rowSize
  {
    if rows == [] then []
    else EncodeRows(written, rows[..|rows| - 1], rowSize) + EncodeRow(written, rows[|rows| - 1])
  }

  /** The length of everything that is sent behind the header. */
  lemma {:induction false} EncodedLength(written: seq<Column>, rows: seq<seq<Byte>>, rowSize: nat)
    requires AllReadable(written, rowSize) && forall i :: 0 <= i < |rows| ==> |rows[i]| == rowSize
    ensures |EncodeRows(written, rows, rowSize)| == Times(|rows|, 2 + FieldsSize(written))
  {
    TimesStep(0, |rows|, 2 + FieldsSize(written));
    if rows != [] {
      EncodedLength(written, rows[..|rows| - 1], rowSize);
      hide Times, EncodeRow, FieldsSize;
      TimesStep(|rows| - 1, |rows|, 2 + FieldsSize(written));
    }
  }

  predicate AllSupported(written: seq<Column>) {
    forall i :: 0 <= i < |written| ==> Width(written[i].typeOid) > 0 && written[i].typeLength == Width(written[i].typeOid)
  }

  /** For supported columns a tuple takes four bytes per field more than the row, and two. */
  lemma {:induction false} SizeOfFields(written: seq<Column>)
    requires AllSupported(written)
    ensures FieldsSize(written) == 4 * |written| + TotalLength(written)
  {
    if written != [] {
      SizeOfFields(written[..|written| - 1]);
    }
  }

  /** NtwrkConvBufSize: the size of the buffer that PgInsertData asks for. */
  function RequestedSize(items: nat, rowSize: nat): nat {
    2 + items * 4 + items * rowSize
  }

  /**
   The requested buffer holds what is written only for no item, no column, or one item of one column;
   for anything larger it is too small.
   */
  lemma RequestedSizeSuffices(written: seq<Column>, items: nat)
    requires AllSupported(written) && TotalLength(written) >= 0
    ensures items * (2 + FieldsSize(written)) <= RequestedSize(items, TotalLength(written)) <==>
            items == 0 || |written| == 0 || (items == 1 && |written| == 1)
  {
    SizeOfFields(written);
    hide *;
    Framing(items, 2 + 4 * |written|, TotalLength(written), 2 + FieldsSize(written));
    FramingFits(items, |written|);
    SizeOfRequest(items, TotalLength(written));
  }

  lemma SizeOfRequest(items: nat, rowSize: nat)
    ensures RequestedSize(items, rowSize) == 2 + items * 4 + items * rowSize
  {
  }

  lemma Framing(items: nat, framing: nat, size: nat, both: nat)
    requires both == framing + size
    ensures items * both == items * framing + items * size
  {
  }

  lemma FramingFits(items: nat, fields: nat)
    ensures items * (2 + 4 * fields) <= 2 + items * 4 <==> items == 0 || fields == 0 || (items == 1 && fields == 1)
  {
    if items > 1 && fields > 0 {
      MulMonotone(6, 2 + 4 * fields, items);
    }
  }

  // ---- The encode loop ----

  /** memcpy into the network buffer. */
  method Store(buf: array<Byte>, at: nat, bytes: seq<Byte>) returns (next: nat)
    requires at + |bytes| <= buf.Length
    modifies buf
    ensures next == at + |bytes| && buf[..next] == old(buf[..at]) + bytes
    ensures buf[next..] == old(buf[next..])
  {
    forall k | 0 <= k < |bytes| {
      buf[at + k] := bytes[k];
    }
    next := at + |bytes|;
  }

  /** Write2, Write4, Write8 and WriteTimestamp: a value in network byte order. */
  method WriteValue(buf: array<Byte>, at: nat, column: Column, row: seq<Byte>) returns (next: nat)
    requires Readable(column, |row|) && at + Width(column.typeOid) <= buf.Length
    modifies buf
    ensures next == at + Width(column.typeOid) && buf[..next] == old(buf[..at]) + FieldBytes(column, row)
    ensures buf[next..] == old(buf[next..])
  {
    var width := match column.typeOid
      case 20 => 8
      case 701 => 8
      case 23 => 4
      case 700 => 4
      case 21 => 2
      case 1114 => 8
      case _ => 0;
    if width == 0 {
      assert FieldBytes(column, row) == [];
      return at;
    }
    var value := FromLittle(row[column.offset..column.offset + width]);
    if column.typeOid == PG_TIMESTAMP {
      value := Unsigned64(UnixToPgTimestamp(Signed64(value)));
    }
    next := Store(buf, at, ToBig(value, width));
  }

  /** `k` times `size`, as a function so that proofs need no arithmetic on products. */
  function Times(k: nat, size: nat): nat {
    k * size
  }

  lemma TimesStep(k: nat, n: nat, size: nat)
    requires k <= n
    ensures Times(0, size) == 0 && Times(k, size) <= Times(n, size)
    ensures k < n ==> Times(k + 1, size) == Times(k, size) + size <= Times(n, size)
  {
    Distribute(k, 1, size);
    MulMonotone(k, n, size);
    if k < n {
      MulMonotone(k + 1, n, size);
    }
  }

  /** Row `i` of a packed block of data. */
  function Row(data: seq<Byte>, rowSize: nat, items: nat, i: nat): (row: seq<Byte>)
    requires |data| == Times(items, rowSize) && i < items
    ensures |row| == rowSize
  {
    TimesStep(i, items, rowSize);
    data[Times(i, rowSize)..Times(i, rowSize) + rowSize]
  }

  /** The rows of a packed block of data. */
  function Rows(data: seq<Byte>, rowSize: nat, items: nat): (rows: seq<seq<Byte>>)
    requires |data| == Times(items, rowSize)
    ensures |rows| == items
    ensures forall i :: 0 <= i < items ==> |rows[i]| == rowSize && rows[i] == Row(data, rowSize, items, i)
  {
    seq(items, i requires 0 <= i < items => Row(data, rowSize, items, i))
  }

  lemma RowIs(data: seq<Byte>, rowSize: nat, items: nat, i: nat)
    requires |data| == Times(items, rowSize) && i < items
    ensures Times(i, rowSize) + rowSize <= |data|
    ensures data[..Times(i, rowSize)] + Row(data, rowSize, items, i) == data[..Times(i, rowSize) + rowSize]
  {
    TimesStep(i, items, rowSize);
    hide Times;
  }

  lemma {:induction false} FirstRows(data: seq<Byte>, rowSize: nat, items: nat, k: nat)
    requires |data| == Times(items, rowSize) && k <= items
    ensures Times(k, rowSize) <= |data| && Flatten(Rows(data, rowSize, items)[..k]) == data[..Times(k, rowSize)]
  {
    hide *;
    var rows := Rows(data, rowSize, items);
    TimesStep(k, items, rowSize);
    if k == 0 {
      NothingFlattened(rows);
    } else {
      TimesStep(k - 1, items, rowSize);
      FirstRows(data, rowSize, items, k - 1);
      assert rows[..k] == rows[..k - 1] + [rows[k - 1]];
      FlattenSnoc(rows[..k - 1], rows[k - 1]);
      RowIs(data, rowSize, items, k - 1);
    }
  }

  lemma NothingFlattened(rows: seq<seq<Byte>>)
    ensures Flatten(rows[..0]) == []
  {
  }

  /** The rows, in order, are the whole block. */
  lemma RowsAreTheData(data: seq<Byte>, rowSize: nat, items: nat)
    requires |data| == Times(items, rowSize)
    ensures Flatten(Rows(data, rowSize, items)) == data
  {
    FirstRows(data, rowSize, items, items);
    assert Rows(data, rowSize, items)[..items] == Rows(data, rowSize, items);
  }

  lemma {:induction false} FieldsGrow(written: seq<Column>, k: nat)
    requires k < |written|
    ensures FieldsSize(written[..k + 1]) == FieldsSize(written[..k]) + (4 + Width(written[k].typeOid))
    ensures FieldsSize(written[..k + 1]) <= FieldsSize(written)
    decreases |written|
  {
    assert written[..k + 1][..k] == written[..k];
    if k + 1 < |written| {
      var front := written[..|written| - 1];
      FieldsGrow(front, k);
      assert front[..k + 1] == written[..k + 1];
    } else {
      assert written[..k + 1] == written;
    }
  }

  lemma WrittenPrefix(columns: seq<Column>, c: nat)
    requires c < |columns|
    ensures columns[c].isAutoIncrement ==> Written(columns[..c + 1]) == Written(columns[..c])
    ensures !columns[c].isAutoIncrement ==>
              var k := |Written(columns[..c])|;
              && k < |Written(columns)| && Written(columns)[k] == columns[c]
              && Written(columns[..c]) == Written(columns)[..k] && Written(columns[..c + 1]) == Written(columns)[..k + 1]
  {
    assert columns[..c + 1] == columns[..c] + [columns[c]];
    assert columns == columns[..c + 1] + columns[c + 1..];
    WrittenSnoc(columns[..c], columns[c]);
    WrittenConcat(columns[..c + 1], columns[c + 1..]);
  }

  lemma PrefixIsReadable(written: seq<Column>, k: nat, row: seq<Byte>)
    requires AllReadable(written, |row|) && k < |written|
    ensures AllReadable(written[..k + 1], |row|) && AllReadable(written[..k], |row|) && Readable(written[k], |row|)
  {
  }

  lemma EncodeFieldsSnoc(written: seq<Column>, k: nat, row: seq<Byte>)
    requires AllReadable(written, |row|) && k < |written|
    ensures EncodeFields(written[..k + 1], row) == EncodeFields(written[..k], row) + EncodeField(written[k], row)
  {
    hide *;
    PrefixIsReadable(written, k, row);
    EncodeFieldsLast(written[..k + 1], row);
    assert written[..k + 1][..k] == written[..k] && written[..k + 1][k] == written[k];
  }

  /** One field of the encode loop. */
  method WriteField(buf: array<Byte>, at: nat, column: Column, row: seq<Byte>) returns (next: nat)
    requires Readable(column, |row|) && at + 4 + Width(column.typeOid) <= buf.Length
    modifies buf
    ensures next == at + 4 + Width(column.typeOid) && buf[..next] == old(buf[..at]) + EncodeField(column, row)
    ensures buf[next..] == old(buf[next..])
  {
    var ntwrkTypeLen := ToBig(Unsigned32(column.typeLength), 4);
    assert EncodeField(column, row) == ntwrkTypeLen + FieldBytes(column, row);
    hide *;
    ghost var before := buf[..at];
    next := Store(buf, at, ntwrkTypeLen);
    next := WriteValue(buf, next, column, row);
    assert before + ntwrkTypeLen + FieldBytes(column, row) == before + (ntwrkTypeLen + FieldBytes(column, row));
  }

  /** One row of the encode loop. */
  method WriteRow(buf: array<Byte>, at: nat, columns: seq<Column>, count: nat, row: seq<Byte>) returns (next: nat)
    requires AllReadable(Written(columns), |row|) && count == |Written(columns)|
    requires at + 2 + FieldsSize(Written(columns)) <= buf.Length
    modifies buf
    ensures next == at + 2 + FieldsSize(Written(columns))
    ensures buf[..next] == old(buf[..at]) + EncodeRow(Written(columns), row)
    ensures buf[next..] == old(buf[next..])
  {
    ghost var written := Written(columns);
    hide FieldsSize, EncodeFields, EncodeField, Written, TotalLength;
    next := Store(buf, at, ToBig(count, 2));
    ghost var head := buf[..next];
    FieldsStart(written, row);
    for c := 0 to |columns|
      invariant |Written(columns[..c])| <= |written| && Written(columns[..c]) == written[..|Written(columns[..c])|]
      invariant next == at + 2 + FieldsSize(Written(columns[..c])) <= buf.Length
      invariant buf[..next] == head + EncodeFields(Written(columns[..c]), row)
      invariant buf[at + 2 + FieldsSize(written)..] == old(buf[at + 2 + FieldsSize(written)..])
    {
      WrittenPrefix(columns, c);
      if columns[c].isAutoIncrement {
        continue;
      }
      ghost var k := |Written(columns[..c])|;
      FieldsGrow(written, k);
      EncodeFieldsSnoc(written, k, row);
      Assoc(head, EncodeFields(written[..k], row), EncodeField(written[k], row));
      next := WriteField(buf, next, columns[c], row);
    }
    assert columns[..|columns|] == columns;
  }

  lemma FieldsStart(written: seq<Column>, row: seq<Byte>)
    requires AllReadable(written, |row|)
    ensures Written([]) == [] && EncodeFields([], row) == [] && FieldsSize([]) == 0
  {
  }

  /** The encode loop of PgInsertData, into a buffer that is large enough for what it writes. */
  method EncodeItems(
      buf: array<Byte>, columns: seq<Column>, count: nat, rowSize: nat, data: seq<Byte>, items: nat) returns (n: nat)
    requires AllReadable(Written(columns), rowSize) && count == |Written(columns)| && |data| == Times(items, rowSize)
    requires Times(items, 2 + FieldsSize(Written(columns))) <= buf.Length
    modifies buf
    ensures n == Times(items, 2 + FieldsSize(Written(columns)))
    ensures buf[..n] == EncodeRows(Written(columns), Rows(data, rowSize, items), rowSize)
    ensures buf[n..] == old(buf[n..])
  {
    hide *;
    ghost var written := Written(columns);
    ghost var rows := Rows(data, rowSize, items);
    ghost var size := 2 + FieldsSize(written);
    ghost var end := Times(items, size);
    n := 0;
    NoRows(written, rowSize);
    TimesStep(0, items, size);
    for rowsProcessed := 0 to items
      invariant n == Times(rowsProcessed, size) <= end
      invariant buf[..n] == EncodeRows(written, rows[..rowsProcessed], rowSize)
      invariant buf[end..] == old(buf[end..])
    {
      TimesStep(rowsProcessed, items, size);
      var currRow := Row(data, rowSize, items, rowsProcessed);
      EncodeRowsSnoc(written, rows, rowsProcessed, rowSize);
      n := WriteRow(buf, n, columns, count, currRow);
    }
    assert rows[..items] == rows;
  }

  lemma NoRows(written: seq<Column>, rowSize: nat)
    requires AllReadable(written, rowSize)
    ensures EncodeRows(written, [], rowSize) == []
  {
  }

  lemma EncodeRowsSnoc(written: seq<Column>, rows: seq<seq<Byte>>, k: nat, rowSize: nat)
    requires AllReadable(written, rowSize) && k < |rows| && forall i :: 0 <= i < |rows| ==> |rows[i]| == rowSize
    ensures EncodeRows(written, rows[..k + 1], rowSize) ==
            EncodeRows(written, rows[..k], rowSize) + EncodeRow(written, rows[k])
  {
    assert rows[..k + 1][..k] == rows[..k];
  }

  // ---- The receiving side ----

  const SIGNATURE: seq<Byte> := [80, 71, 67, 79, 80, 89, 10, 255, 13, 10, 0]

  /** The header PgInsertData sends: signature, no flags, no header extension. */
  function Header(): (h: seq<Byte>)
    ensures |h| == 19
  {
    SIGNATURE + ToBig(0, 4) + ToBig(0, 4)
  }

  datatype Field = Null | Value(bytes: seq<Byte>)

  datatype Parse = Parse(fields: seq<Field>, rest: seq<Byte>)

  /** `n` fields: each a length, minus one for a null, and that many bytes. */
  function DecodeFields(b: seq<Byte>, n: nat): Option<Parse> {
    if n == 0 then Some(Parse([], b))
    else if |b| < 4 then None
    else
      var length := Signed32(FromBig(b[..4]));
      if length < -1 || length > |b| - 4 then None
      else
        var size := if length == -1 then 0 else length;
        var field := if length == -1 then Null else Value(b[4..4 + size]);
        match DecodeFields(b[4 + size..], n - 1)
        case None => None
        case Some(parse) => Some(Parse([field] + parse.fields, parse.rest))
  }

  lemma {:induction false} DecodedIsShorter(b: seq<Byte>, n: nat)
    ensures DecodeFields(b, n).Some? ==> |DecodeFields(b, n).value.rest| <= |b|
    decreases n
  {
    if n > 0 && |b| >= 4 {
      var length := Signed32(FromBig(b[..4]));
      if -1 <= length <= |b| - 4 {
        DecodedIsShorter(b[4 + (if length == -1 then 0 else length)..], n - 1);
      }
    }
  }

  /** Tuples up to the end of the data or a trailer, a field count of minus one. */
  function DecodeTuples(b: seq<Byte>): Option<seq<seq<Field>>>
    decreases |b|
  {
    if b == [] then Some([])
    else if |b| < 2 then None
    else
      var count := Signed16(FromBig(b[..2]));
      if count == -1 then Some([])
      else if count < 0 then None
      else
        DecodedIsShorter(b[2..], count);
        match DecodeFields(b[2..], count)
        case None => None
        case Some(parse) =>
          match DecodeTuples(parse.rest)
          case None => None
          case Some(tuples) => Some([parse.fields] + tuples)
  }

  /** A whole stream: signature, flags, header extension and tuples. Flags are refused. */
  function DecodeCopy(stream: seq<Byte>): Option<seq<seq<Field>>> {
    if |stream| < 19 || stream[..11] != SIGNATURE || FromBig(stream[11..15]) != 0 then None
    else
      var extension := FromBig(stream[15..19]);
      if |stream| < 19 + extension then None else DecodeTuples(stream[19 + extension..])
  }

  // ---- Round trip ----

  function FieldsOf(written: seq<Column>, row: seq<Byte>): (fields: seq<Field>)
    requires AllReadable(written, |row|)
    ensures |fields| == |written| && forall i :: 0 <= i < |written| ==> fields[i] == Value(FieldBytes(written[i], row))
  {
    if written == [] then []
    else [Value(FieldBytes(written[0], row))] + FieldsOf(written[1..], row)
  }

  function TuplesOf(written: seq<Column>, rows: seq<seq<Byte>>, rowSize: nat): (tuples: seq<seq<Field>>)
    requires AllReadable(written, rowSize) && forall i :: 0 <= i < |rows| ==> |rows[i]| == rowSize
    ensures |tuples| == |rows| && forall i :: 0 <= i < |rows| ==> tuples[i] == FieldsOf(written, rows[i])
  {
    if rows == [] then [] else [FieldsOf(written, rows[0])] + TuplesOf(written, rows[1..], rowSize)
  }

  lemma EncodeFieldsLast(written: seq<Column>, row: seq<Byte>)
    requires AllReadable(written, |row|) && written != []
    ensures EncodeFields(written, row) ==
            EncodeFields(written[..|written| - 1], row) + EncodeField(written[|written| - 1], row)
  {
    hide EncodeField;
  }

  lemma EncodeOneField(column: Column, row: seq<Byte>)
    requires Readable(column, |row|)
    ensures EncodeFields([column], row) == EncodeField(column, row) + EncodeFields([], row)
  {
    hide EncodeField;
  }

  lemma ReadablePart(written: seq<Column>, size: nat)
    requires AllReadable(written, size) && written != []
    ensures AllReadable(written[1..], size) && AllReadable(written[..|written| - 1], size)
    ensures Readable(written[0], size) && Readable(written[|written| - 1], size)
  {
  }

  lemma {:induction false} EncodeFieldsCons(written: seq<Column>, row: seq<Byte>)
    requires AllReadable(written, |row|) && written != []
    ensures EncodeFields(written, row) == EncodeField(written[0], row) + EncodeFields(written[1..], row)
    decreases |written|
  {
    hide *;
    ReadablePart(written, |row|);
    if |written| == 1 {
      assert written == [written[0]] && written[1..] == [];
      EncodeOneField(written[0], row);
    } else {
      var front, tail := written[..|written| - 1], written[1..];
      assert tail[..|tail| - 1] == front[1..];
      ReadablePart(front, |row|);
      EncodeFieldsLast(written, row);
      EncodeFieldsLast(tail, row);
      EncodeFieldsCons(front, row);
      Assoc(EncodeField(written[0], row), EncodeFields(front[1..], row), EncodeField(tail[|tail| - 1], row));
    }
  }

  lemma EncodeRowsLast(written: seq<Column>, rows: seq<seq<Byte>>, rowSize: nat)
    requires AllReadable(written, rowSize) && rows != [] && forall i :: 0 <= i < |rows| ==> |rows[i]| == rowSize
    ensures EncodeRows(written, rows, rowSize) ==
            EncodeRows(written, rows[..|rows| - 1], rowSize) + EncodeRow(written, rows[|rows| - 1])
  {
    hide EncodeRow;
  }

  lemma EncodeOneRow(written: seq<Column>, row: seq<Byte>, rowSize: nat)
    requires AllReadable(written, rowSize) && |row| == rowSize
    ensures EncodeRows(written, [row], rowSize) == EncodeRow(written, row) + EncodeRows(written, [], rowSize)
  {
    hide EncodeRow;
  }

  lemma {:induction false} EncodeRowsCons(written: seq<Column>, rows: seq<seq<Byte>>, rowSize: nat)
    requires AllReadable(written, rowSize) && rows != [] && forall i :: 0 <= i < |rows| ==> |rows[i]| == rowSize
    ensures EncodeRows(written, rows, rowSize) == EncodeRow(written, rows[0]) + EncodeRows(written, rows[1..], rowSize)
    decreases |rows|
  {
    hide *;
    if |rows| == 1 {
      assert rows == [rows[0]];
      EncodeOneRow(written, rows[0], rowSize);
    } else {
      var front, tail := rows[..|rows| - 1], rows[1..];
      assert tail[..|tail| - 1] == front[1..];
      EncodeRowsLast(written, rows, rowSize);
      EncodeRowsLast(written, tail, rowSize);
      EncodeRowsCons(written, front, rowSize);
    }
  }

  lemma SmallBig(v: nat, n: nat)
    requires (n == 2 && v < TWO_16) || (n == 4 && v < TWO_32)
    ensures FromBig(ToBig(v, n)) == v
  {
    assert Pow256(1) == 256 && Pow256(2) == TWO_16 && Pow256(3) == 0x100_0000 && Pow256(4) == TWO_32;
    BigRoundTrip(v, n);
  }

  lemma DecodeField(length: int, value: seq<Byte>, rest: seq<Byte>, n: nat)
    requires n > 0 && length == |value| < TWO_31
    ensures DecodeFields(ToBig(Unsigned32(length), 4) + value + rest, n) ==
            match DecodeFields(rest, n - 1)
            case None => None
            case Some(parse) => Some(Parse([Value(value)] + parse.fields, parse.rest))
  {
    var head := ToBig(Unsigned32(length), 4);
    SmallBig(length, 4);
    assert Unsigned32(length) == length;
    hide ToBig, FromBig;
    ThreeParts(head, value, rest);
  }

  lemma ThreeParts(head: seq<Byte>, value: seq<Byte>, rest: seq<Byte>)
    requires |head| == 4
    ensures var b := head + value + rest;
            b[..4] == head && b[4..4 + |value|] == value && b[4 + |value|..] == rest
  {
  }

  lemma FirstFieldParts(written: seq<Column>, row: seq<Byte>, rest: seq<Byte>)
    requires AllReadable(written, |row|) && written != []
    ensures AllReadable(written[1..], |row|)
    ensures EncodeFields(written, row) + rest ==
            ToBig(Unsigned32(written[0].typeLength), 4) + FieldBytes(written[0], row) + (EncodeFields(written[1..], row) + rest)
  {
    EncodeFieldsCons(written, row);
    assert EncodeField(written[0], row) == ToBig(Unsigned32(written[0].typeLength), 4) + FieldBytes(written[0], row);
    hide EncodeFields, EncodeField, ToBig, FieldBytes;
    Assoc(EncodeField(written[0], row), EncodeFields(written[1..], row), rest);
  }

  lemma NoFields(written: seq<Column>, row: seq<Byte>, rest: seq<Byte>)
    requires written == []
    ensures AllReadable(written, |row|)
    ensures DecodeFields(EncodeFields(written, row) + rest, |written|) == Some(Parse(FieldsOf(written, row), rest))
  {
    NothingAdded(rest);
  }

  lemma FirstField(written: seq<Column>, row: seq<Byte>)
    requires AllReadable(written, |row|) && AllSupported(written) && written != []
    ensures AllReadable(written[1..], |row|) && AllSupported(written[1..]) && Readable(written[0], |row|)
    ensures written[0].typeLength == |FieldBytes(written[0], row)| < TWO_31
    ensures FieldsOf(written, row) == [Value(FieldBytes(written[0], row))] + FieldsOf(written[1..], row)
  {
    assert Readable(written[0], |row|);
  }

  lemma {:induction false} DecodeFieldsOf(written: seq<Column>, row: seq<Byte>, rest: seq<Byte>)
    requires AllReadable(written, |row|) && AllSupported(written)
    ensures DecodeFields(EncodeFields(written, row) + rest, |written|) == Some(Parse(FieldsOf(written, row), rest))
  {
    hide *;
    if written == [] {
      NoFields(written, row, rest);
    } else {
      FirstField(written, row);
      FirstFieldParts(written, row, rest);
      DecodeField(written[0].typeLength, FieldBytes(written[0], row), EncodeFields(written[1..], row) + rest, |written|);
      DecodeFieldsOf(written[1..], row, rest);
    }
  }

  lemma DecodeTuple(head: seq<Byte>, body: seq<Byte>, count: nat, fields: seq<Field>, rest: seq<Byte>)
    requires |head| == 2 && count < TWO_15 && FromBig(head) == count
    requires DecodeFields(body, count) == Some(Parse(fields, rest))
    ensures DecodeTuples(head + body) ==
            match DecodeTuples(rest)
            case None => None
            case Some(tuples) => Some([fields] + tuples)
  {
    var b := head + body;
    assert b[..2] == head && b[2..] == body;
    hide FromBig, DecodeFields;
    DecodedIsShorter(body, count);
  }

  lemma RowParts(written: seq<Column>, row: seq<Byte>, rest: seq<Byte>)
    requires AllReadable(written, |row|) && |written| < TWO_15
    ensures EncodeRow(written, row) + rest == ToBig(|written|, 2) + (EncodeFields(written, row) + rest)
    ensures |ToBig(|written|, 2)| == 2 && FromBig(ToBig(|written|, 2)) == |written|
  {
    SmallBig(|written|, 2);
    hide ToBig, FromBig, EncodeFields;
    Assoc(ToBig(|written|, 2), EncodeFields(written, row), rest);
  }

  lemma DecodeRow(written: seq<Column>, row: seq<Byte>, rest: seq<Byte>)
    requires AllReadable(written, |row|) && AllSupported(written) && |written| < TWO_15
    ensures DecodeTuples(EncodeRow(written, row) + rest) ==
            match DecodeTuples(rest)
            case None => None
            case Some(tuples) => Some([FieldsOf(written, row)] + tuples)
  {
    hide *;
    RowParts(written, row, rest);
    DecodeFieldsOf(written, row, rest);
    DecodeTuple(ToBig(|written|, 2), EncodeFields(written, row) + rest, |written|, FieldsOf(written, row), rest);
  }

  lemma {:induction false} DecodeRows(written: seq<Column>, rows: seq<seq<Byte>>, rowSize: nat)
    requires AllReadable(written, rowSize) && AllSupported(written) && |written| < TWO_15
    requires forall i :: 0 <= i < |rows| ==> |rows[i]| == rowSize
    ensures DecodeTuples(EncodeRows(written, rows, rowSize)) == Some(TuplesOf(written, rows, rowSize))
  {
    hide EncodeRow, FieldsOf;
    if rows != [] {
      EncodeRowsCons(written, rows, rowSize);
      hide EncodeRows, DecodeTuples;
      DecodeRow(written, rows[0], EncodeRows(written, rows[1..], rowSize));
      DecodeRows(written, rows[1..], rowSize);
    }
  }

  /**
   Decoding the stream gives back one tuple per item and, in each, one field per written column, in
   order: for every table of supported columns and every number of items.
   */
  lemma DecodeUndoesEncode(written: seq<Column>, rows: seq<seq<Byte>>, rowSize: nat)
    requires Packed(written) && AllSupported(written) && TotalLength(written) == rowSize && |written| < TWO_15
    requires forall i :: 0 <= i < |rows| ==> |rows[i]| == rowSize
    ensures AllReadable(written, rowSize)
    ensures DecodeCopy(Header() + EncodeRows(written, rows, rowSize)) == Some(TuplesOf(written, rows, rowSize))
  {
    PackedIsReadable(written);
    DecodeRows(written, rows, rowSize);
    hide *;
    DecodeStream(EncodeRows(written, rows, rowSize));
  }

  /** What is sent behind the header for a table of supported columns is this long. */
  lemma SizeOfEncoding(written: seq<Column>, rows: seq<seq<Byte>>, rowSize: nat)
    requires Packed(written) && AllSupported(written) && TotalLength(written) == rowSize
    requires forall i :: 0 <= i < |rows| ==> |rows[i]| == rowSize
    ensures AllReadable(written, rowSize)
    ensures |EncodeRows(written, rows, rowSize)| == Times(|rows|, 2 + 4 * |written| + rowSize)
  {
    PackedIsReadable(written);
    SizeOfFields(written);
    EncodedLength(written, rows, rowSize);
    hide *;
    assert 2 + FieldsSize(written) == 2 + 4 * |written| + rowSize;
  }

  /** PGCOPY, a line feed, 255, a carriage return, a line feed and a zero; then no flags and no extension. */
  lemma HeaderIs()
    ensures Header() == [80, 71, 67, 79, 80, 89, 10, 255, 13, 10, 0, 0, 0, 0, 0, 0, 0, 0, 0]
  {
    assert ToBig(0, 4) == [0, 0, 0, 0] by {
      forall k | 0 <= k < 4
        ensures ToBig(0, 4)[k] == 0
      {
        BigIsPositional(0, 4, k);
      }
    }
  }

  /**
   What PgInsertData hands to PQputCopyData, in two pieces, when its buffer has room for what it writes. For
   a table of supported columns the receiver finds exactly the rows of `data`, field by field; with a
   column of another type it does not get a value for every column of every item.
   */
  method PgInsertData(columns: seq<Column>, count: nat, rowSize: nat, data: seq<Byte>, items: nat, bufSize: nat)
    returns (sent: seq<Byte>)
    requires AllReadable(Written(columns), rowSize) && count == |Written(columns)|
    requires |data| == Times(items, rowSize) && Times(items, 2 + FieldsSize(Written(columns))) <= bufSize
    ensures sent == Header() + EncodeRows(Written(columns), Rows(data, rowSize, items), rowSize)
    ensures sent[..19] == [80, 71, 67, 79, 80, 89, 10, 255, 13, 10, 0, 0, 0, 0, 0, 0, 0, 0, 0]
    ensures IsCatalogueTable(columns) ==>
              (Understood(Written(columns), items, DecodeCopy(sent)) <==> items == 0 || AllSupported(Written(columns)))
    ensures IsSupportedTable(columns, rowSize) ==>
              && DecodeCopy(sent) == Some(TuplesOf(Written(columns), Rows(data, rowSize, items), rowSize))
              && |sent| == 19 + Times(items, 2 + 4 * count + rowSize)
  {
    hide *;
    var ntwrkConvBuf := new Byte[bufSize];
    var convOffset := EncodeItems(ntwrkConvBuf, columns, count, rowSize, data, items);
    sent := Header() + ntwrkConvBuf[..convOffset];
    HeaderIs();
    Border(Header(), ntwrkConvBuf[..convOffset]);
    if IsCatalogueTable(columns) {
      CatalogueTable(columns);
      UnderstoodExactlyWhenHandled(Written(columns), Rows(data, rowSize, items), rowSize);
    }
    if IsSupportedTable(columns, rowSize) {
      SupportedTable(columns, rowSize);
      DecodeUndoesEncode(Written(columns), Rows(data, rowSize, items), rowSize);
      SizeOfEncoding(Written(columns), Rows(data, rowSize, items), rowSize);
    }
  }

  /** A table that a COPY stream can describe, with lengths from the catalogue. */
  predicate IsCatalogueTable(columns: seq<Column>) {
    CatalogueLengths(Written(columns)) && |Written(columns)| < TWO_15
  }

  lemma CatalogueTable(columns: seq<Column>)
    requires IsCatalogueTable(columns)
    ensures CatalogueLengths(Written(columns)) && |Written(columns)| < TWO_15
  {
  }

  /** A table of columns the encoder handles, as GetTableMetadata describes it. */
  predicate IsSupportedTable(columns: seq<Column>, rowSize: nat) {
    && Packed(Written(columns)) && AllSupported(Written(columns))
    && |Written(columns)| < TWO_15 && rowSize == TotalLength(Written(columns))
  }

  lemma SupportedTable(columns: seq<Column>, rowSize: nat)
    requires IsSupportedTable(columns, rowSize)
    ensures Packed(Written(columns)) && AllSupported(Written(columns))
    ensures |Written(columns)| < TWO_15 && rowSize == TotalLength(Written(columns))
  {
  }

  // ---- Exactly which tables the receiver understands ----

  /** The field is the value of a column of that length. */
  predicate FieldFits(column: Column, field: Field) {
    field.Value? && |field.bytes| == column.typeLength
  }

  predicate TupleFits(written: seq<Column>, tuple: seq<Field>) {
    |tuple| == |written| && forall i :: 0 <= i < |tuple| ==> FieldFits(written[i], tuple[i])
  }

  /** The receiver gets that many tuples with one value for each column, as long as the column announces. */
  predicate Understood(written: seq<Column>, items: nat, received: Option<seq<seq<Field>>>) {
    && received.Some? && |received.value| == items
    && forall i :: 0 <= i < items ==> TupleFits(written, received.value[i])
  }

  /** How many bytes a receiver reads for fields, and for tuples. */
  function FieldsLength(fields: seq<Field>): nat {
    if fields == [] then 0 else FieldLength(fields[0]) + FieldsLength(fields[1..])
  }

  function FieldLength(field: Field): nat {
    4 + if field.Null? then 0 else |field.bytes|
  }

  function TuplesLength(tuples: seq<seq<Field>>): nat {
    if tuples == [] then 0 else 2 + FieldsLength(tuples[0]) + TuplesLength(tuples[1..])
  }

  lemma {:induction false} FieldsFill(b: seq<Byte>, n: nat)
    ensures DecodeFields(b, n).Some? ==>
              FieldsLength(DecodeFields(b, n).value.fields) + |DecodeFields(b, n).value.rest| == |b|
    decreases n
  {
    if n > 0 && |b| >= 4 {
      var length := Signed32(FromBig(b[..4]));
      if -1 <= length <= |b| - 4 {
        var size := if length == -1 then 0 else length;
        FieldsFill(b[4 + size..], n - 1);
        hide FromBig, Signed32;
        var parse := DecodeFields(b[4 + size..], n - 1);
        if parse.Some? {
          var field := if length == -1 then Null else Value(b[4..4 + size]);
          assert ([field] + parse.value.fields)[1..] == parse.value.fields;
        }
      }
    }
  }

  lemma {:induction false} TuplesFill(b: seq<Byte>)
    ensures DecodeTuples(b).Some? ==> TuplesLength(DecodeTuples(b).value) <= |b|
    decreases |b|
  {
    if |b| >= 2 {
      var count := Signed16(FromBig(b[..2]));
      hide FromBig, Signed16, FieldsLength;
      if count >= 0 {
        FieldsFill(b[2..], count);
        DecodedIsShorter(b[2..], count);
        var parse := DecodeFields(b[2..], count);
        hide DecodeFields;
        if parse.Some? {
          TuplesFill(parse.value.rest);
          var more := DecodeTuples(parse.value.rest);
          if more.Some? {
            assert ([parse.value.fields] + more.value)[1..] == more.value;
          }
        }
      }
    }
  }

  lemma {:induction false} LengthOfFields(written: seq<Column>, fields: seq<Field>)
    requires TupleFits(written, fields)
    ensures FieldsLength(fields) == 4 * |written| + TotalLength(written)
  {
    if fields != [] {
      LengthOfFields(written[1..], fields[1..]);
      TotalOfFirst(written);
      assert FieldFits(written[0], fields[0]);
    }
  }

  lemma {:induction false} TotalOfFirst(written: seq<Column>)
    requires written != []
    ensures TotalLength(written) == written[0].typeLength + TotalLength(written[1..])
    decreases |written|
  {
    if |written| > 1 {
      var front, tail := written[..|written| - 1], written[1..];
      assert tail[..|tail| - 1] == front[1..];
      TotalOfFirst(front);
    }
  }

  lemma {:induction false} LengthOfTuples(written: seq<Column>, tuples: seq<seq<Field>>, size: nat)
    requires forall i :: 0 <= i < |tuples| ==> TupleFits(written, tuples[i])
    requires size == 2 + 4 * |written| + TotalLength(written)
    ensures TuplesLength(tuples) == Times(|tuples|, size)
  {
    if tuples == [] {
      TimesStep(0, 0, size);
    } else {
      LengthOfTuples(written, tuples[1..], size);
      LengthOfFields(written, tuples[0]);
      hide Times, FieldsLength, TupleFits;
      TimesStep(|tuples| - 1, |tuples|, size);
    }
  }

  /** Lengths as the catalogue gives them: of handled types what is written, of others any but zero, -1 for none. */
  predicate CatalogueLengths(written: seq<Column>) {
    forall i :: 0 <= i < |written| ==> CatalogueLength(written[i])
  }

  predicate CatalogueLength(column: Column) {
    if column.typeOid in TYPE_LENGTHS then column.typeLength == TYPE_LENGTHS[column.typeOid] else column.typeLength != 0
  }

  /** What is written for a row is as long as what is announced exactly when all types are handled. */
  lemma {:induction false} WrittenIsAnnounced(written: seq<Column>)
    requires CatalogueLengths(written) && Lengths(written)
    ensures FieldsSize(written) <= 4 * |written| + TotalLength(written)
    ensures FieldsSize(written) == 4 * |written| + TotalLength(written) <==> AllSupported(written)
  {
    if written != [] {
      WrittenIsAnnounced(written[..|written| - 1]);
      assert CatalogueLength(written[|written| - 1]) && written[|written| - 1].typeLength >= 0;
    }
  }

  lemma FittingLengths(written: seq<Column>, tuple: seq<Field>)
    ensures TupleFits(written, tuple) ==> Lengths(written)
  {
    assert forall i :: 0 <= i < |written| && |tuple| == |written| && FieldFits(written[i], tuple[i]) ==> written[i].typeLength >= 0;
  }

  /** A column of no fixed length announces no value. */
  lemma NoFixedLength(written: seq<Column>, items: nat, received: Option<seq<seq<Field>>>)
    requires !Lengths(written) && items > 0
    ensures !Understood(written, items, received) && !AllSupported(written)
  {
    if received.Some? && |received.value| == items {
      FittingLengths(written, received.value[0]);
    }
  }

  lemma UnderstoodTuples(written: seq<Column>, items: nat, tuples: seq<seq<Field>>)
    requires Understood(written, items, Some(tuples))
    ensures |tuples| == items && forall i :: 0 <= i < |tuples| ==> TupleFits(written, tuples[i])
  {
  }

  /** With a type that is not handled there are not enough bytes for all tuples. */
  lemma TooFewBytes(
      written: seq<Column>, rows: seq<seq<Byte>>, rowSize: nat, tuples: seq<seq<Field>>, announced: nat, sent: nat)
    requires AllReadable(written, rowSize) && forall i :: 0 <= i < |rows| ==> |rows[i]| == rowSize
    requires announced == 2 + 4 * |written| + TotalLength(written) && sent == 2 + FieldsSize(written) < announced
    requires rows != [] && DecodeTuples(EncodeRows(written, rows, rowSize)) == Some(tuples)
    ensures !Understood(written, |rows|, Some(tuples))
  {
    hide *;
    if Understood(written, |rows|, Some(tuples)) {
      UnderstoodTuples(written, |rows|, tuples);
      LengthOfTuples(written, tuples, announced);
      TuplesFill(EncodeRows(written, rows, rowSize));
      EncodedLength(written, rows, rowSize);
      MoreTimes(|rows|, sent, announced);
    }
  }

  lemma MoreTimes(n: nat, a: nat, b: nat)
    requires n > 0 && a < b
    ensures Times(n, a) < Times(n, b)
  {
    Distribute(a, b - a, n);
    MulMonotone(1, b - a, n);
  }

  lemma SupportedIsUnderstood(written: seq<Column>, rows: seq<seq<Byte>>, rowSize: nat)
    requires AllReadable(written, rowSize) && AllSupported(written)
    requires forall i :: 0 <= i < |rows| ==> |rows[i]| == rowSize
    ensures Understood(written, |rows|, Some(TuplesOf(written, rows, rowSize)))
  {
    forall i | 0 <= i < |rows|
      ensures TupleFits(written, TuplesOf(written, rows, rowSize)[i])
    {
      assert TuplesOf(written, rows, rowSize)[i] == FieldsOf(written, rows[i]);
    }
  }

  /**
   The receiver gets one tuple per item with one value per column if and only if there is no item or the
   encoder handles the types of all columns.
   */
  lemma UnderstoodExactlyWhenHandled(written: seq<Column>, rows: seq<seq<Byte>>, rowSize: nat)
    requires AllReadable(written, rowSize) && CatalogueLengths(written) && |written| < TWO_15
    requires forall i :: 0 <= i < |rows| ==> |rows[i]| == rowSize
    ensures Understood(written, |rows|, DecodeCopy(Header() + EncodeRows(written, rows, rowSize))) <==>
            rows == [] || AllSupported(written)
  {
    var body := EncodeRows(written, rows, rowSize);
    DecodeStream(body);
    if AllSupported(written) {
      DecodeRows(written, rows, rowSize);
      SupportedIsUnderstood(written, rows, rowSize);
    } else if rows == [] {
      assert DecodeTuples([]) == Some([]);
    } else if !Lengths(written) {
      NoFixedLength(written, |rows|, DecodeCopy(Header() + body));
    } else if DecodeTuples(body).Some? {
      WrittenIsAnnounced(written);
      hide *;
      TooFewBytes(written, rows, rowSize, DecodeTuples(body).value,
                  2 + 4 * |written| + TotalLength(written), 2 + FieldsSize(written));
    }
    hide DecodeCopy, DecodeTuples, EncodeRows, AllSupported, FieldsSize;
  }

  lemma OneDate(row: seq<Byte>)
    requires |row| == 4
    ensures var written := [Column(PG_DATE, 4, false, 0)];
            && AllReadable(written, 4) && AllReadable(written, |row|)
            && EncodeRows(written, [row], 4) == ToBig(1, 2) + ToBig(4, 4)
            && |ToBig(1, 2)| == 2 && |ToBig(4, 4)| == 4 && FromBig(ToBig(1, 2)) == 1 && FromBig(ToBig(4, 4)) == 4
  {
    var written := [Column(PG_DATE, 4, false, 0)];
    assert written[..0] == [] && [row][..0] == [];
    SmallBig(1, 2);
    SmallBig(4, 4);
    assert FieldBytes(written[0], row) == [];
    hide ToBig, FromBig, FieldBytes;
    assert EncodeFields(written, row) == ToBig(4, 4);
  }

  /** A tuple of one field of four bytes that are missing. */
  lemma CutTuple(head: seq<Byte>, length: seq<Byte>)
    requires |head| == 2 && |length| == 4 && FromBig(head) == 1 && FromBig(length) == 4
    ensures DecodeTuples(head + length) == None
  {
    var body := head + length;
    assert body[..2] == head && body[2..] == length && length[..4] == length;
    hide FromBig;
    assert DecodeFields(length, 1) == None;
  }

  /** One row of one date column, a type the encoder does not handle: the value is announced but not sent. */
  lemma UnhandledTypeBreaksStream(row: seq<Byte>)
    requires |row| == 4
    ensures DecodeCopy(Header() + EncodeRows([Column(PG_DATE, 4, false, 0)], [row], 4)) == None
  {
    OneDate(row);
    hide *;
    var written := [Column(PG_DATE, 4, false, 0)];
    DecodeStream(EncodeRows(written, [row], 4));
    CutTuple(ToBig(1, 2), ToBig(4, 4));
  }

  lemma PackedIsReadable(written: seq<Column>)
    requires Packed(written) && AllSupported(written)
    ensures TotalLength(written) >= 0 && AllReadable(written, TotalLength(written))
  {
    PackedInside(written);
    forall i | 0 <= i < |written|
      ensures Readable(written[i], TotalLength(written))
    {
      assert Inside(written[i], TotalLength(written));
    }
  }

  lemma DecodeStream(body: seq<Byte>)
    ensures DecodeCopy(Header() + body) == DecodeTuples(body)
  {
    SmallBig(0, 4);
    hide DecodeTuples, ToBig, FromBig;
    StreamParts(ToBig(0, 4), body);
  }

  lemma StreamParts(zero: seq<Byte>, body: seq<Byte>)
    requires |zero| == 4
    ensures var stream := SIGNATURE + zero + zero + body;
            && stream[..11] == SIGNATURE && stream[11..15] == zero && stream[15..19] == zero && stream[19..] == body
  {
  }

  /** The bytes of a signed 64-bit number on a little-endian host, least significant first. */
  predicate HoldsSigned64(b: seq<Byte>, t: int) {
    |b| == 8 && forall k :: 0 <= k < 8 ==> b[k] == Unsigned64(t) / Pow256(k) % 256
  }

  /** The bytes of a signed 64-bit number in network order, most significant first. */
  predicate SendsSigned64(b: seq<Byte>, t: int) {
    |b| == 8 && forall k :: 0 <= k < 8 ==> b[k] == Unsigned64(t) / Pow256(7 - k) % 256
  }

  /**
   What is sent for a column: as many bytes as the catalogue gives its type, and they are the host's bytes of
   the column the other way round. A timestamp, the host's Unix time, becomes the microseconds since
   2000-01-01, thirty years with seven leap days later, in network order.
   */
  lemma FieldsAreHostBytes(column: Column, row: seq<Byte>)
    requires Readable(column, |row|)
    ensures var width, field := |FieldBytes(column, row)|, FieldBytes(column, row);
            && width == (if column.typeOid in TYPE_LENGTHS then TYPE_LENGTHS[column.typeOid] else 0)
            && column.offset + width <= |row|
            && (column.typeOid != 1114 ==> forall k :: 0 <= k < width ==> field[k] == row[column.offset + width - 1 - k])
            && (column.typeOid == 1114 ==>
                  forall t | Convertible(t) && HoldsSigned64(row[column.offset..column.offset + 8], t) ::
                    SendsSigned64(field, (t - (30 * 365 + 7) * 86400) * 1000000))
  {
    WidthIsLength(column.typeOid);
    var width := Width(column.typeOid);
    var slice := row[column.offset..column.offset + width];
    if column.typeOid == 1114 {
      forall t | Convertible(t) && HoldsSigned64(slice, t)
        ensures SendsSigned64(FieldBytes(column, row), (t - (30 * 365 + 7) * 86400) * 1000000)
      {
        HostTime(slice, t);
        TimestampsAreMicroseconds(t);
        SentTime((t - (30 * 365 + 7) * 86400) * 1000000);
        hide ToBig, FromLittle, UnixToPgTimestamp, Unsigned64, Signed64;
      }
    } else {
      SwapReverses(slice);
      forall k | 0 <= k < width
        ensures FieldBytes(column, row)[k] == row[column.offset + width - 1 - k]
      {
        ReversedAt(slice, k);
      }
    }
  }

  lemma WidthIsLength(typeOid: int)
    ensures Width(typeOid) == if typeOid in TYPE_LENGTHS then TYPE_LENGTHS[typeOid] else 0
  {
  }

  lemma HostTime(b: seq<Byte>, t: int)
    requires HoldsSigned64(b, t) && InInt64(t)
    ensures Signed64(FromLittle(b)) == t
  {
    assert Pow256(4) == TWO_32 && Pow256(8) == TWO_64;
    forall k | 0 <= k < 8
      ensures ToLittle(Unsigned64(t), 8)[k] == b[k]
    {
      LittleIsPositional(Unsigned64(t), 8, k);
    }
    assert ToLittle(Unsigned64(t), 8) == b;
    LittleRoundTrip(Unsigned64(t), 8);
    hide ToLittle, FromLittle, Pow256;
  }

  lemma SentTime(t: int)
    ensures SendsSigned64(ToBig(Unsigned64(t), 8), t)
  {
    forall k | 0 <= k < 8
      ensures ToBig(Unsigned64(t), 8)[k] == Unsigned64(t) / Pow256(7 - k) % 256
    {
      BigIsPositional(Unsigned64(t), 8, k);
    }
    hide ToBig, Unsigned64, Pow256;
  }

  // ---- The other timestamp forms ----

  /** TimevalToPgTimestamp */
  function TimevalToPgTimestamp(seconds: int, micros: int): int {
    Wrap64(Wrap64(Wrap64(seconds * USECS_PER_SECOND) + micros) + (UNIX_EPOCH_JDATE - POSTGRES_EPOCH_JDATE) * USECS_PER_DAY)
  }

  /** TimespecToPgTimestamp: nanoseconds are cut, which for a normalised time is rounding down. */
  function TimespecToPgTimestamp(seconds: int, nanos: nat): int {
    TimevalToPgTimestamp(seconds, nanos / NSECS_PER_USEC)
  }

  lemma TimevalsAreMicroseconds(s: int, micros: nat)
    requires Convertible(s) && s < 9_223_372_036_854 && micros < 1_000_000
    ensures TimevalToPgTimestamp(s, micros) == (s - POSTGRES_EPOCH) * USECS_PER_SECOND + micros
  {
    var scaled := s * USECS_PER_SECOND;
    WrapIsIdentity(scaled);
    WrapIsIdentity(scaled + micros);
    WrapIsIdentity(scaled + micros + (UNIX_EPOCH_JDATE - POSTGRES_EPOCH_JDATE) * USECS_PER_DAY);
  }

  /** The three conversions agree on whole seconds and keep the order of normalised times. */
  lemma ConversionsKeepOrder(s: int, micros: nat, s': int, nanos': nat)
    requires Convertible(s) && Convertible(s') && micros < 1_000_000 && nanos' < 1_000_000_000
    requires s < 9_223_372_036_854 && s' < 9_223_372_036_854
    ensures TimevalToPgTimestamp(s, micros) == (s - POSTGRES_EPOCH) * USECS_PER_SECOND + micros
    ensures TimevalToPgTimestamp(s, 0) == TimespecToPgTimestamp(s, 0) == UnixToPgTimestamp(s)
    ensures s < s' || (s == s' && micros * 1000 <= nanos') ==>
              TimevalToPgTimestamp(s, micros) <= TimespecToPgTimestamp(s', nanos')
  {
    TimevalsAreMicroseconds(s, micros);
    TimevalsAreMicroseconds(s, 0);
    TimevalsAreMicroseconds(s', nanos' / NSECS_PER_USEC);
    TimestampsAreMicroseconds(s);
  }
}
