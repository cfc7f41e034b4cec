/**
 The messages said of bytes. For each message, what is written: the fields in the order of their
 tags, each as the Protocol Buffers Encoding specification has it, then the records that were kept
 as unknown; and what a record in front of an input does to a message it is parsed into. The
 tags, the wire types and the limit of two gigabytes stand here as numbers.
 */
module MessageBytes {
  import opened Wire
  import opened WireBytes
  import opened Codec
  import opened Fields
  import Pair = PairMessage
  import Column = ColumnMessage
  import RowData = RowDataMessage
  import RowChange = RowChangeMessage
  import Header = HeaderMessage
  import Entry = EntryMessage
  import MsgVal = MsgValMessage
  import PairIntDbl = PairIntDblMessage

  // ------------------------------------------------------- a field, as bytes

  /** A number in two's complement, of 64 bits whatever the width of the field. */
  function Number(tag: byte, v: int64): Bytes {
    [tag] + Varint(if v < 0 then v + 0x1_0000_0000_0000_0000 else v)
  }

  function NumberIfSet(tag: byte, v: int64): Bytes { if v == 0 then [] else Number(tag, v) }

  function NumberIfPresent(tag: byte, v: Option<int32>): Bytes {
    match v case None => [] case Some(x) => Number(tag, x)
  }

  function FlagIfSet(tag: byte, v: bool): Bytes { if v then [tag, 1] else [] }

  function FlagIfPresent(tag: byte, v: Option<bool>): Bytes {
    match v case None => [] case Some(x) => [tag, if x then 1 else 0]
  }

  function Text(tag: byte, s: Bytes): Bytes { [tag] + Varint(|s|) + s }

  function TextIfSet(tag: byte, s: Bytes): Bytes { if s == [] then [] else Text(tag, s) }

  /** The eight bytes of a double, the least significant first; the sign bit alone is -0.0. */
  function DoubleIfSet(tag: byte, bits: Bytes8): Bytes {
    if bits[..7] == [0, 0, 0, 0, 0, 0, 0] && (bits[7] == 0 || bits[7] == 128) then [] else [tag] + bits
  }

  function Each<T>(tag: byte, bytes: T -> Bytes, xs: seq<T>): Bytes {
    if xs == [] then [] else Each(tag, bytes, xs[..|xs| - 1]) + Text(tag, bytes(xs[|xs| - 1]))
  }

  lemma NothingWritten()
    ensures EncodeRecords([]) == []
  {
  }

  lemma OneRecord(r: Record)
    requires 1 <= r.number < 16
    ensures EncodeRecords([r]) == EncodeRecord(r) == [8 * r.number + WireType(r.value)] + EncodePayload(r.value)
  {
    assert [r][..0] == [];
    assert [] + EncodeRecord(r) == EncodeRecord(r);
    assert Varint(r.number * 8 + WireType(r.value)) == [8 * r.number + WireType(r.value)];
  }

  lemma IntBytes(n: nat, v: int64)
    requires 1 <= n < 16
    ensures EncodeRecords([IntRecord(n, v)]) == Number(8 * n, v)
  {
    OneRecord(IntRecord(n, v));
    hide EncodeRecords, Varint;
  }

  lemma IntFieldBytes(n: nat, v: int64)
    requires 1 <= n < 16
    ensures EncodeRecords(IntField(n, v)) == NumberIfSet(8 * n, v)
  {
    IntBytes(n, v);
    hide Number, IntRecord;
  }

  lemma IntOneofBytes(n: nat, v: Option<int32>)
    requires 1 <= n < 16
    ensures EncodeRecords(IntOneof(n, v)) == NumberIfPresent(8 * n, v)
  {
    if v.Some? { IntBytes(n, v.value); }
  }

  lemma FlagBytes(n: nat, v: bool)
    requires 1 <= n < 16
    ensures EncodeRecords([BoolRecord(n, v)]) == [8 * n, if v then 1 else 0]
  {
    OneRecord(BoolRecord(n, v));
    assert Varint(if v then 1 else 0) == [if v then 1 else 0];
    hide EncodeRecords, Varint;
  }

  lemma FlagFieldBytes(n: nat, v: bool)
    requires 1 <= n < 16
    ensures EncodeRecords(BoolField(n, v)) == FlagIfSet(8 * n, v)
  {
    FlagBytes(n, v);
    hide BoolRecord;
  }

  lemma FlagOneofBytes(n: nat, v: Option<bool>)
    requires 1 <= n < 16
    ensures EncodeRecords(BoolOneof(n, v)) == FlagIfPresent(8 * n, v)
  {
    if v.Some? { FlagBytes(n, v.value); }
  }

  lemma TextBytes(n: nat, s: Bytes)
    requires 1 <= n < 16
    ensures EncodeRecords([BytesRecord(n, s)]) == Text(8 * n + 2, s)
  {
    OneRecord(BytesRecord(n, s));
    hide EncodeRecords, Varint;
    ConcatAssociates([8 * n + 2], Varint(|s|), s);
  }

  lemma TextFieldBytes(n: nat, s: Bytes)
    requires 1 <= n < 16
    ensures EncodeRecords(BytesField(n, s)) == TextIfSet(8 * n + 2, s)
  {
    TextBytes(n, s);
    hide Text, BytesRecord;
  }

  lemma DoubleBytes(n: nat, bits: Bytes8)
    requires 1 <= n < 16
    ensures EncodeRecords([Fixed64Record(n, bits)]) == [8 * n + 1] + bits
  {
    OneRecord(Fixed64Record(n, bits));
    hide EncodeRecords;
  }

  lemma DoubleFieldBytes(n: nat, bits: Bytes8)
    requires 1 <= n < 16
    ensures EncodeRecords(DoubleField(n, bits)) == DoubleIfSet(8 * n + 1, bits)
  {
    DoubleBytes(n, bits);
    hide EncodeRecords;
    assert bits == bits[..7] + [bits[7]];
  }

  lemma {:induction false} EachBytes<T>(n: nat, bytes: T -> Bytes, xs: seq<T>)
    requires 1 <= n < 16
    ensures EncodeRecords(MessageFields(n, bytes, xs)) == Each(8 * n + 2, bytes, xs)
  {
    if xs != [] {
      var init, last := xs[..|xs| - 1], xs[|xs| - 1];
      EachBytes(n, bytes, init);
      TextBytes(n, bytes(last));
      EncodeConcat(MessageFields(n, bytes, init), [BytesRecord(n, bytes(last))]);
    }
  }

  // ------------------------------------------------------ an input, in parts

  lemma OneRecordParsed<M>(step: (M, Record) -> Option<M>, m: M, b: Bytes, r: Record, rest: Bytes)
    requires IsRecord(b, r)
    ensures ParseInto(step, m, b + rest) == match step(m, r)
                                            case None => None
                                            case Some(m1) => ParseInto(step, m1, rest)
  {
    assert (b + rest)[..|b|] == b && (b + rest)[|b|..] == rest;
    ReadsExactlyIf(b + rest, r, |b|);
    hide ReadRecord, ParseInto, IsRecord;
    assert b + rest != [];
    ParseUnrolls(step, m, b + rest);
  }

  /** An input with no record in front parses if it is empty, and else not. */
  lemma NoRecordParsed<M>(step: (M, Record) -> Option<M>, m: M, b: Bytes)
    requires forall n: nat, r: Record | n <= |b| :: !IsRecord(b[..n], r)
    ensures ParseInto(step, m, b) == if b == [] then Some(m) else None
  {
    if b != [] {
      ParseUnrolls(step, m, b);
      if ReadRecord(b).Some? { RecordWasRead(b); }
    }
  }

  // ----------------------------------------------------------- message Pair

  /** The bytes of a message. */
  function PairWritten(m: Pair.PairValue): Bytes {
    TextIfSet(10, m.key) + TextIfSet(18, m.value) + EncodeRecords(m.unknown)
  }

  lemma PairIsWritten(m: Pair.PairValue)
    ensures Pair.Encode(m) == PairWritten(m)
    ensures Pair.Serialize(m) == if |PairWritten(m)| < 0x8000_0000 then Some(PairWritten(m)) else None
  {
    hide EncodeRecords, Pair.Size, BytesField, TextIfSet;
    Pair.SizeIsLength(m);
    TextFieldBytes(1, m.key);
    TextFieldBytes(2, m.value);
    var s0 := BytesField(1, m.key);
    EncodeConcat(s0, BytesField(2, m.value));
    var s1 := s0 + BytesField(2, m.value);
    EncodeConcat(s1, m.unknown);
  }

  /** A record in front of the rest: a field takes its value, and any other record is kept. */
  lemma PairIsRead(m: Pair.PairValue, b: Bytes, r: Record, rest: Bytes)
    requires IsRecord(b, r)
    ensures r.number == 1 && r.value.LenValue? ==>
              Pair.ParseFrom(m, b + rest)
              == if ValidUtf8(r.value.data) then Pair.ParseFrom(m.(key := r.value.data), rest) else None
    ensures r.number == 2 && r.value.LenValue? ==>
              Pair.ParseFrom(m, b + rest)
              == if ValidUtf8(r.value.data) then Pair.ParseFrom(m.(value := r.value.data), rest) else None
    ensures !(r.value.LenValue? && r.number in {1, 2}) ==>
              Pair.ParseFrom(m, b + rest) == Pair.ParseFrom(m.(unknown := m.unknown + [r]), rest)
  {
    OneRecordParsed(Pair.Step, m, b, r, rest);
    hide ParseInto, ValidUtf8, ToInt32, ToInt64, IsRecord;
  }

  // --------------------------------------------------------- message Column

  lemma EachPair(n: nat, xs: seq<Pair.PairValue>)
    requires 1 <= n < 16
    ensures EncodeRecords(Pair.RecordsOfAll(n, xs)) == Each(8 * n + 2, Pair.Encode, xs)
  {
    hide Pair.Encode, Each, EncodeRecords;
    EachBytes(n, Pair.Encode, xs);
  }

  /** The bytes of a message. */
  function ColumnWritten(m: Column.ColumnValue): Bytes {
    NumberIfSet(8, m.index) + NumberIfSet(16, m.sqlType) + TextIfSet(26, m.name) + FlagIfSet(32, m.isKey) +
    FlagIfSet(40, m.updated) + FlagIfPresent(48, m.isNull) + Each(58, Pair.Encode, m.props) +
    TextIfSet(66, m.value) + NumberIfSet(72, m.length) + TextIfSet(82, m.mysqlType) + EncodeRecords(m.unknown)
  }

  lemma ColumnIsWritten(m: Column.ColumnValue)
    ensures Column.Encode(m) == ColumnWritten(m)
    ensures Column.Serialize(m) == if |ColumnWritten(m)| < 0x8000_0000 then Some(ColumnWritten(m)) else None
  {
    hide EncodeRecords, Column.Size, BoolField, BoolOneof, BytesField, IntField, Each, FlagIfPresent,
         FlagIfSet, NumberIfSet, TextIfSet, Pair.RecordsOfAll, Pair.Encode;
    Column.SizeIsLength(m);
    IntFieldBytes(1, m.index);
    IntFieldBytes(2, m.sqlType);
    TextFieldBytes(3, m.name);
    FlagFieldBytes(4, m.isKey);
    FlagFieldBytes(5, m.updated);
    FlagOneofBytes(6, m.isNull);
    EachPair(7, m.props);
    TextFieldBytes(8, m.value);
    IntFieldBytes(9, m.length);
    TextFieldBytes(10, m.mysqlType);
    var s0 := IntField(1, m.index);
    EncodeConcat(s0, IntField(2, m.sqlType));
    var s1 := s0 + IntField(2, m.sqlType);
    EncodeConcat(s1, BytesField(3, m.name));
    var s2 := s1 + BytesField(3, m.name);
    EncodeConcat(s2, BoolField(4, m.isKey));
    var s3 := s2 + BoolField(4, m.isKey);
    EncodeConcat(s3, BoolField(5, m.updated));
    var s4 := s3 + BoolField(5, m.updated);
    EncodeConcat(s4, BoolOneof(6, m.isNull));
    var s5 := s4 + BoolOneof(6, m.isNull);
    EncodeConcat(s5, Pair.RecordsOfAll(7, m.props));
    var s6 := s5 + Pair.RecordsOfAll(7, m.props);
    EncodeConcat(s6, BytesField(8, m.value));
    var s7 := s6 + BytesField(8, m.value);
    EncodeConcat(s7, IntField(9, m.length));
    var s8 := s7 + IntField(9, m.length);
    EncodeConcat(s8, BytesField(10, m.mysqlType));
    var s9 := s8 + BytesField(10, m.mysqlType);
    EncodeConcat(s9, m.unknown);
  }

  /** A record in front of the rest: a field takes its value, and any other record is kept. */
  lemma ColumnIsRead(m: Column.ColumnValue, b: Bytes, r: Record, rest: Bytes)
    requires IsRecord(b, r)
    ensures r.number == 1 && r.value.VarintValue? ==>
              Column.ParseFrom(m, b + rest) == Column.ParseFrom(m.(index := ToInt32(r.value.v)), rest)
    ensures r.number == 2 && r.value.VarintValue? ==>
              Column.ParseFrom(m, b + rest) == Column.ParseFrom(m.(sqlType := ToInt32(r.value.v)), rest)
    ensures r.number == 3 && r.value.LenValue? ==>
              Column.ParseFrom(m, b + rest)
              == if ValidUtf8(r.value.data) then Column.ParseFrom(m.(name := r.value.data), rest) else None
    ensures r.number == 4 && r.value.VarintValue? ==>
              Column.ParseFrom(m, b + rest) == Column.ParseFrom(m.(isKey := r.value.v != 0), rest)
    ensures r.number == 5 && r.value.VarintValue? ==>
              Column.ParseFrom(m, b + rest) == Column.ParseFrom(m.(updated := r.value.v != 0), rest)
    ensures r.number == 6 && r.value.VarintValue? ==>
              Column.ParseFrom(m, b + rest) == Column.ParseFrom(m.(isNull := Some(r.value.v != 0)), rest)
    ensures r.number == 7 && r.value.LenValue? ==>
              Column.ParseFrom(m, b + rest)
              == match Pair.Parse(r.value.data)
                 case None => None
                 case Some(x) => Column.ParseFrom(m.(props := m.props + [x]), rest)
    ensures r.number == 8 && r.value.LenValue? ==>
              Column.ParseFrom(m, b + rest)
              == if ValidUtf8(r.value.data) then Column.ParseFrom(m.(value := r.value.data), rest) else None
    ensures r.number == 9 && r.value.VarintValue? ==>
              Column.ParseFrom(m, b + rest) == Column.ParseFrom(m.(length := ToInt32(r.value.v)), rest)
    ensures r.number == 10 && r.value.LenValue? ==>
              Column.ParseFrom(m, b + rest)
              == if ValidUtf8(r.value.data) then Column.ParseFrom(m.(mysqlType := r.value.data), rest) else None
    ensures !(r.value.VarintValue? && r.number in {1, 2, 4, 5, 6, 9})
            && !(r.value.LenValue? && r.number in {3, 7, 8, 10}) ==>
              Column.ParseFrom(m, b + rest) == Column.ParseFrom(m.(unknown := m.unknown + [r]), rest)
  {
    OneRecordParsed(Column.Step, m, b, r, rest);
    hide ParseInto, ValidUtf8, ToInt32, ToInt64, IsRecord, Pair.ParseFrom;
  }

  // -------------------------------------------------------- message RowData

  lemma EachColumn(n: nat, xs: seq<Column.ColumnValue>)
    requires 1 <= n < 16
    ensures EncodeRecords(Column.RecordsOfAll(n, xs)) == Each(8 * n + 2, Column.Encode, xs)
  {
    hide Column.Encode, Each, EncodeRecords;
    EachBytes(n, Column.Encode, xs);
  }

  /** The bytes of a message. */
  function RowDataWritten(m: RowData.RowDataValue): Bytes {
    Each(10, Column.Encode, m.beforeColumns) + Each(18, Column.Encode, m.afterColumns) +
    Each(26, Pair.Encode, m.props) + EncodeRecords(m.unknown)
  }

  lemma RowDataIsWritten(m: RowData.RowDataValue)
    ensures RowData.Encode(m) == RowDataWritten(m)
    ensures RowData.Serialize(m) == if |RowDataWritten(m)| < 0x8000_0000 then Some(RowDataWritten(m)) else None
  {
    hide EncodeRecords, RowData.Size, Each, Column.RecordsOfAll, Column.Encode, Pair.RecordsOfAll,
         Pair.Encode;
    RowData.SizeIsLength(m);
    EachColumn(1, m.beforeColumns);
    EachColumn(2, m.afterColumns);
    EachPair(3, m.props);
    var s0 := Column.RecordsOfAll(1, m.beforeColumns);
    EncodeConcat(s0, Column.RecordsOfAll(2, m.afterColumns));
    var s1 := s0 + Column.RecordsOfAll(2, m.afterColumns);
    EncodeConcat(s1, Pair.RecordsOfAll(3, m.props));
    var s2 := s1 + Pair.RecordsOfAll(3, m.props);
    EncodeConcat(s2, m.unknown);
  }

  /** A record in front of the rest: a field takes its value, and any other record is kept. */
  lemma RowDataIsRead(m: RowData.RowDataValue, b: Bytes, r: Record, rest: Bytes)
    requires IsRecord(b, r)
    ensures r.number == 1 && r.value.LenValue? ==>
              RowData.ParseFrom(m, b + rest)
              == match Column.Parse(r.value.data)
                 case None => None
                 case Some(x) => RowData.ParseFrom(m.(beforeColumns := m.beforeColumns + [x]), rest)
    ensures r.number == 2 && r.value.LenValue? ==>
              RowData.ParseFrom(m, b + rest)
              == match Column.Parse(r.value.data)
                 case None => None
                 case Some(x) => RowData.ParseFrom(m.(afterColumns := m.afterColumns + [x]), rest)
    ensures r.number == 3 && r.value.LenValue? ==>
              RowData.ParseFrom(m, b + rest)
              == match Pair.Parse(r.value.data)
                 case None => None
                 case Some(x) => RowData.ParseFrom(m.(props := m.props + [x]), rest)
    ensures !(r.value.LenValue? && r.number in {1, 2, 3}) ==>
              RowData.ParseFrom(m, b + rest) == RowData.ParseFrom(m.(unknown := m.unknown + [r]), rest)
  {
    OneRecordParsed(RowData.Step, m, b, r, rest);
    hide ParseInto, ValidUtf8, ToInt32, ToInt64, IsRecord, Column.ParseFrom, Pair.ParseFrom;
  }

  // ------------------------------------------------------ message RowChange

  lemma EachRowData(n: nat, xs: seq<RowData.RowDataValue>)
    requires 1 <= n < 16
    ensures EncodeRecords(RowData.RecordsOfAll(n, xs)) == Each(8 * n + 2, RowData.Encode, xs)
  {
    hide RowData.Encode, Each, EncodeRecords;
    EachBytes(n, RowData.Encode, xs);
  }

  /** The bytes of a message. */
  function RowChangeWritten(m: RowChange.RowChangeValue): Bytes {
    NumberIfSet(8, m.tableId) + NumberIfPresent(16, m.eventType) + FlagIfPresent(80, m.isDdl) +
    TextIfSet(90, m.sql) + Each(98, RowData.Encode, m.rowDatas) + Each(106, Pair.Encode, m.props) +
    TextIfSet(114, m.ddlSchemaName) + EncodeRecords(m.unknown)
  }

  lemma RowChangeIsWritten(m: RowChange.RowChangeValue)
    ensures RowChange.Encode(m) == RowChangeWritten(m)
    ensures RowChange.Serialize(m)
         == if |RowChangeWritten(m)| < 0x8000_0000 then Some(RowChangeWritten(m)) else None
  {
    hide EncodeRecords, RowChange.Size, BoolOneof, BytesField, IntField, IntOneof, Each,
         FlagIfPresent, NumberIfPresent, NumberIfSet, TextIfSet, Pair.RecordsOfAll, Pair.Encode,
         RowData.RecordsOfAll, RowData.Encode;
    RowChange.SizeIsLength(m);
    IntFieldBytes(1, m.tableId);
    IntOneofBytes(2, m.eventType);
    FlagOneofBytes(10, m.isDdl);
    TextFieldBytes(11, m.sql);
    EachRowData(12, m.rowDatas);
    EachPair(13, m.props);
    TextFieldBytes(14, m.ddlSchemaName);
    var s0 := IntField(1, m.tableId);
    EncodeConcat(s0, IntOneof(2, m.eventType));
    var s1 := s0 + IntOneof(2, m.eventType);
    EncodeConcat(s1, BoolOneof(10, m.isDdl));
    var s2 := s1 + BoolOneof(10, m.isDdl);
    EncodeConcat(s2, BytesField(11, m.sql));
    var s3 := s2 + BytesField(11, m.sql);
    EncodeConcat(s3, RowData.RecordsOfAll(12, m.rowDatas));
    var s4 := s3 + RowData.RecordsOfAll(12, m.rowDatas);
    EncodeConcat(s4, Pair.RecordsOfAll(13, m.props));
    var s5 := s4 + Pair.RecordsOfAll(13, m.props);
    EncodeConcat(s5, BytesField(14, m.ddlSchemaName));
    var s6 := s5 + BytesField(14, m.ddlSchemaName);
    EncodeConcat(s6, m.unknown);
  }

  /** A record in front of the rest: a field takes its value, and any other record is kept. */
  lemma RowChangeIsRead(m: RowChange.RowChangeValue, b: Bytes, r: Record, rest: Bytes)
    requires IsRecord(b, r)
    ensures r.number == 1 && r.value.VarintValue? ==>
              RowChange.ParseFrom(m, b + rest) == RowChange.ParseFrom(m.(tableId := ToInt64(r.value.v)), rest)
    ensures r.number == 2 && r.value.VarintValue? ==>
              RowChange.ParseFrom(m, b + rest)
              == RowChange.ParseFrom(m.(eventType := Some(ToInt32(r.value.v))), rest)
    ensures r.number == 10 && r.value.VarintValue? ==>
              RowChange.ParseFrom(m, b + rest) == RowChange.ParseFrom(m.(isDdl := Some(r.value.v != 0)), rest)
    ensures r.number == 11 && r.value.LenValue? ==>
              RowChange.ParseFrom(m, b + rest)
              == if ValidUtf8(r.value.data) then RowChange.ParseFrom(m.(sql := r.value.data), rest) else None
    ensures r.number == 12 && r.value.LenValue? ==>
              RowChange.ParseFrom(m, b + rest)
              == match RowData.Parse(r.value.data)
                 case None => None
                 case Some(x) => RowChange.ParseFrom(m.(rowDatas := m.rowDatas + [x]), rest)
    ensures r.number == 13 && r.value.LenValue? ==>
              RowChange.ParseFrom(m, b + rest)
              == match Pair.Parse(r.value.data)
                 case None => None
                 case Some(x) => RowChange.ParseFrom(m.(props := m.props + [x]), rest)
    ensures r.number == 14 && r.value.LenValue? ==>
              RowChange.ParseFrom(m, b + rest)
              == if ValidUtf8(r.value.data) then RowChange.ParseFrom(m.(ddlSchemaName := r.value.data), rest) else None
    ensures !(r.value.VarintValue? && r.number in {1, 2, 10})
            && !(r.value.LenValue? && r.number in {11, 12, 13, 14}) ==>
              RowChange.ParseFrom(m, b + rest) == RowChange.ParseFrom(m.(unknown := m.unknown + [r]), rest)
  {
    OneRecordParsed(RowChange.Step, m, b, r, rest);
    hide ParseInto, ValidUtf8, ToInt32, ToInt64, IsRecord, Pair.ParseFrom, RowData.ParseFrom;
  }

  // --------------------------------------------------------- message Header

  /** The bytes of a message. */
  function HeaderWritten(m: Header.HeaderValue): Bytes {
    NumberIfPresent(8, m.version) + TextIfSet(18, m.logfileName) + NumberIfSet(24, m.logfileOffset) +
    NumberIfSet(32, m.serverId) + TextIfSet(42, m.serverenCode) + NumberIfSet(48, m.executeTime) +
    NumberIfPresent(56, m.sourceType) + TextIfSet(66, m.schemaName) + TextIfSet(74, m.tableName) +
    NumberIfSet(80, m.eventLength) + NumberIfPresent(88, m.eventType) + Each(98, Pair.Encode, m.props) +
    TextIfSet(106, m.gtid) + EncodeRecords(m.unknown)
  }

  lemma HeaderIsWritten(m: Header.HeaderValue)
    ensures Header.Encode(m) == HeaderWritten(m)
    ensures Header.Serialize(m) == if |HeaderWritten(m)| < 0x8000_0000 then Some(HeaderWritten(m)) else None
  {
    hide EncodeRecords, Header.Size, BytesField, IntField, IntOneof, Each, NumberIfPresent,
         NumberIfSet, TextIfSet, Pair.RecordsOfAll, Pair.Encode;
    Header.SizeIsLength(m);
    IntOneofBytes(1, m.version);
    TextFieldBytes(2, m.logfileName);
    IntFieldBytes(3, m.logfileOffset);
    IntFieldBytes(4, m.serverId);
    TextFieldBytes(5, m.serverenCode);
    IntFieldBytes(6, m.executeTime);
    IntOneofBytes(7, m.sourceType);
    TextFieldBytes(8, m.schemaName);
    TextFieldBytes(9, m.tableName);
    IntFieldBytes(10, m.eventLength);
    IntOneofBytes(11, m.eventType);
    EachPair(12, m.props);
    TextFieldBytes(13, m.gtid);
    var s0 := IntOneof(1, m.version);
    EncodeConcat(s0, BytesField(2, m.logfileName));
    var s1 := s0 + BytesField(2, m.logfileName);
    EncodeConcat(s1, IntField(3, m.logfileOffset));
    var s2 := s1 + IntField(3, m.logfileOffset);
    EncodeConcat(s2, IntField(4, m.serverId));
    var s3 := s2 + IntField(4, m.serverId);
    EncodeConcat(s3, BytesField(5, m.serverenCode));
    var s4 := s3 + BytesField(5, m.serverenCode);
    EncodeConcat(s4, IntField(6, m.executeTime));
    var s5 := s4 + IntField(6, m.executeTime);
    EncodeConcat(s5, IntOneof(7, m.sourceType));
    var s6 := s5 + IntOneof(7, m.sourceType);
    EncodeConcat(s6, BytesField(8, m.schemaName));
    var s7 := s6 + BytesField(8, m.schemaName);
    EncodeConcat(s7, BytesField(9, m.tableName));
    var s8 := s7 + BytesField(9, m.tableName);
    EncodeConcat(s8, IntField(10, m.eventLength));
    var s9 := s8 + IntField(10, m.eventLength);
    EncodeConcat(s9, IntOneof(11, m.eventType));
    var s10 := s9 + IntOneof(11, m.eventType);
    EncodeConcat(s10, Pair.RecordsOfAll(12, m.props));
    var s11 := s10 + Pair.RecordsOfAll(12, m.props);
    EncodeConcat(s11, BytesField(13, m.gtid));
    var s12 := s11 + BytesField(13, m.gtid);
    EncodeConcat(s12, m.unknown);
  }

  /** A record in front of the rest: a field takes its value, and any other record is kept. */
  lemma HeaderIsRead(m: Header.HeaderValue, b: Bytes, r: Record, rest: Bytes)
    requires IsRecord(b, r)
    ensures r.number == 1 && r.value.VarintValue? ==>
              Header.ParseFrom(m, b + rest) == Header.ParseFrom(m.(version := Some(ToInt32(r.value.v))), rest)
    ensures r.number == 2 && r.value.LenValue? ==>
              Header.ParseFrom(m, b + rest)
              == if ValidUtf8(r.value.data) then Header.ParseFrom(m.(logfileName := r.value.data), rest) else None
    ensures r.number == 3 && r.value.VarintValue? ==>
              Header.ParseFrom(m, b + rest) == Header.ParseFrom(m.(logfileOffset := ToInt64(r.value.v)), rest)
    ensures r.number == 4 && r.value.VarintValue? ==>
              Header.ParseFrom(m, b + rest) == Header.ParseFrom(m.(serverId := ToInt64(r.value.v)), rest)
    ensures r.number == 5 && r.value.LenValue? ==>
              Header.ParseFrom(m, b + rest)
              == if ValidUtf8(r.value.data) then Header.ParseFrom(m.(serverenCode := r.value.data), rest) else None
    ensures r.number == 6 && r.value.VarintValue? ==>
              Header.ParseFrom(m, b + rest) == Header.ParseFrom(m.(executeTime := ToInt64(r.value.v)), rest)
    ensures r.number == 7 && r.value.VarintValue? ==>
              Header.ParseFrom(m, b + rest)
              == Header.ParseFrom(m.(sourceType := Some(ToInt32(r.value.v))), rest)
    ensures r.number == 8 && r.value.LenValue? ==>
              Header.ParseFrom(m, b + rest)
              == if ValidUtf8(r.value.data) then Header.ParseFrom(m.(schemaName := r.value.data), rest) else None
    ensures r.number == 9 && r.value.LenValue? ==>
              Header.ParseFrom(m, b + rest)
              == if ValidUtf8(r.value.data) then Header.ParseFrom(m.(tableName := r.value.data), rest) else None
    ensures r.number == 10 && r.value.VarintValue? ==>
              Header.ParseFrom(m, b + rest) == Header.ParseFrom(m.(eventLength := ToInt64(r.value.v)), rest)
    ensures r.number == 11 && r.value.VarintValue? ==>
              Header.ParseFrom(m, b + rest) == Header.ParseFrom(m.(eventType := Some(ToInt32(r.value.v))), rest)
    ensures r.number == 12 && r.value.LenValue? ==>
              Header.ParseFrom(m, b + rest)
              == match Pair.Parse(r.value.data)
                 case None => None
                 case Some(x) => Header.ParseFrom(m.(props := m.props + [x]), rest)
    ensures r.number == 13 && r.value.LenValue? ==>
              Header.ParseFrom(m, b + rest)
              == if ValidUtf8(r.value.data) then Header.ParseFrom(m.(gtid := r.value.data), rest) else None
    ensures !(r.value.VarintValue? && r.number in {1, 3, 4, 6, 7, 10, 11})
            && !(r.value.LenValue? && r.number in {2, 5, 8, 9, 12, 13}) ==>
              Header.ParseFrom(m, b + rest) == Header.ParseFrom(m.(unknown := m.unknown + [r]), rest)
  {
    OneRecordParsed(Header.Step, m, b, r, rest);
    hide ParseInto, ValidUtf8, ToInt32, ToInt64, IsRecord, Pair.ParseFrom;
  }

  // ---------------------------------------------------------- message Entry

  lemma MemberBytes(n: nat, v: Option<Header.HeaderValue>)
    requires 1 <= n < 16
    ensures EncodeRecords(Header.RecordsOfMember(n, v))
         == if v.None? then [] else Text(8 * n + 2, Header.Encode(v.value))
  {
    hide Header.Encode, EncodeRecord;
    if v.Some? { TextBytes(n, Header.Encode(v.value)); }
  }

  /** The bytes of a message. */
  function EntryWritten(m: Entry.EntryValue): Bytes {
    (if m.header.None? then [] else Text(10, Header.Encode(m.header.value))) +
    NumberIfPresent(16, m.entryType) + TextIfSet(26, m.storeValue) + EncodeRecords(m.unknown)
  }

  lemma EntryIsWritten(m: Entry.EntryValue)
    ensures Entry.Encode(m) == EntryWritten(m)
    ensures Entry.Serialize(m) == if |EntryWritten(m)| < 0x8000_0000 then Some(EntryWritten(m)) else None
  {
    hide EncodeRecords, Entry.Size, BytesField, IntOneof, NumberIfPresent, Text, TextIfSet,
         Header.RecordsOfMember, Header.Encode;
    Entry.SizeIsLength(m);
    MemberBytes(1, m.header);
    IntOneofBytes(2, m.entryType);
    TextFieldBytes(3, m.storeValue);
    var s0 := Header.RecordsOfMember(1, m.header);
    EncodeConcat(s0, IntOneof(2, m.entryType));
    var s1 := s0 + IntOneof(2, m.entryType);
    EncodeConcat(s1, BytesField(3, m.storeValue));
    var s2 := s1 + BytesField(3, m.storeValue);
    EncodeConcat(s2, m.unknown);
  }

  /** A record in front of the rest: a field takes its value, and any other record is kept. */
  lemma EntryIsRead(m: Entry.EntryValue, b: Bytes, r: Record, rest: Bytes)
    requires IsRecord(b, r)
    ensures r.number == 1 && r.value.LenValue? ==>
              Entry.ParseFrom(m, b + rest)
              == match Header.ParseFrom(if m.header.Some? then m.header.value else Header.EMPTY, r.value.data)
                 case None => None
                 case Some(h) => Entry.ParseFrom(m.(header := Some(h)), rest)
    ensures r.number == 2 && r.value.VarintValue? ==>
              Entry.ParseFrom(m, b + rest) == Entry.ParseFrom(m.(entryType := Some(ToInt32(r.value.v))), rest)
    ensures r.number == 3 && r.value.LenValue? ==>
              Entry.ParseFrom(m, b + rest) == Entry.ParseFrom(m.(storeValue := r.value.data), rest)
    ensures !(r.value.VarintValue? && r.number in {2})
            && !(r.value.LenValue? && r.number in {1, 3}) ==>
              Entry.ParseFrom(m, b + rest) == Entry.ParseFrom(m.(unknown := m.unknown + [r]), rest)
  {
    OneRecordParsed(Entry.Step, m, b, r, rest);
    hide ParseInto, ValidUtf8, ToInt32, ToInt64, IsRecord, Header.ParseFrom;
  }

  // ----------------------------------------------------- message PairIntDbl

  /** The bytes of a message. */
  function PairIntDblWritten(m: PairIntDbl.PairIntDblValue): Bytes {
    NumberIfSet(8, m.key) + DoubleIfSet(17, m.val) + EncodeRecords(m.unknown)
  }

  lemma PairIntDblIsWritten(m: PairIntDbl.PairIntDblValue)
    ensures PairIntDbl.Encode(m) == PairIntDblWritten(m)
    ensures PairIntDbl.Serialize(m)
         == if |PairIntDblWritten(m)| < 0x8000_0000 then Some(PairIntDblWritten(m)) else None
  {
    hide EncodeRecords, PairIntDbl.Size, DoubleField, IntField, DoubleIfSet, NumberIfSet;
    PairIntDbl.SizeIsLength(m);
    IntFieldBytes(1, m.key);
    DoubleFieldBytes(2, m.val);
    var s0 := IntField(1, m.key);
    EncodeConcat(s0, DoubleField(2, m.val));
    var s1 := s0 + DoubleField(2, m.val);
    EncodeConcat(s1, m.unknown);
  }

  /** A record in front of the rest: a field takes its value, and any other record is kept. */
  lemma PairIntDblIsRead(m: PairIntDbl.PairIntDblValue, b: Bytes, r: Record, rest: Bytes)
    requires IsRecord(b, r)
    ensures r.number == 1 && r.value.VarintValue? ==>
              PairIntDbl.ParseFrom(m, b + rest) == PairIntDbl.ParseFrom(m.(key := ToInt64(r.value.v)), rest)
    ensures r.number == 2 && r.value.Fixed64Value? ==>
              PairIntDbl.ParseFrom(m, b + rest) == PairIntDbl.ParseFrom(m.(val := r.value.bits), rest)
    ensures !(r.value.VarintValue? && r.number in {1})
            && !(r.value.Fixed64Value? && r.number in {2}) ==>
              PairIntDbl.ParseFrom(m, b + rest) == PairIntDbl.ParseFrom(m.(unknown := m.unknown + [r]), rest)
  {
    OneRecordParsed(PairIntDbl.Step, m, b, r, rest);
    hide ParseInto, ValidUtf8, ToInt32, ToInt64, IsRecord;
  }

  // ------------------------------------------------------------ message MsgVal

  /** The bytes of a message: the member that is set, its default included. */
  function MsgValWritten(m: MsgVal.MsgValValue): Bytes {
    (match m.member
     case NotSet => []
     case I32(x) => Number(8, x)
     case I64(x) => Number(16, x)
     case F64(bits) => [25] + bits
     case Str(s) => Text(34, s)) +
    EncodeRecords(m.unknown)
  }

  lemma MsgValIsWritten(m: MsgVal.MsgValValue)
    ensures MsgVal.Encode(m) == MsgValWritten(m)
    ensures MsgVal.Serialize(m) == if |MsgValWritten(m)| < 0x8000_0000 then Some(MsgValWritten(m)) else None
  {
    hide EncodeRecords, Number, Text, MsgVal.Size;
    MsgVal.SizeIsLength(m);
    EncodeConcat(MsgVal.KnownRecords(m), m.unknown);
    match m.member {
      case NotSet => NothingWritten();
      case I32(x) => IntBytes(1, x);
      case I64(x) => IntBytes(2, x);
      case F64(bits) => DoubleBytes(3, bits);
      case Str(s) => TextBytes(4, s);
    }
  }

  /** A record in front of the rest: a member takes the place of whatever was set. */
  lemma MsgValIsRead(m: MsgVal.MsgValValue, b: Bytes, r: Record, rest: Bytes)
    requires IsRecord(b, r)
    ensures r.number == 1 && r.value.VarintValue? ==>
              MsgVal.ParseFrom(m, b + rest)
              == MsgVal.ParseFrom(m.(member := MsgVal.I32(ToInt32(r.value.v))), rest)
    ensures r.number == 2 && r.value.VarintValue? ==>
              MsgVal.ParseFrom(m, b + rest)
              == MsgVal.ParseFrom(m.(member := MsgVal.I64(ToInt64(r.value.v))), rest)
    ensures r.number == 3 && r.value.Fixed64Value? ==>
              MsgVal.ParseFrom(m, b + rest)
              == MsgVal.ParseFrom(m.(member := MsgVal.F64(r.value.bits)), rest)
    ensures r.number == 4 && r.value.LenValue? ==>
              MsgVal.ParseFrom(m, b + rest)
              == if ValidUtf8(r.value.data)
                 then MsgVal.ParseFrom(m.(member := MsgVal.Str(r.value.data)), rest)
                 else None
    ensures !(r.value.VarintValue? && r.number in {1, 2}) && !(r.value.Fixed64Value? && r.number == 3)
            && !(r.value.LenValue? && r.number == 4) ==>
              MsgVal.ParseFrom(m, b + rest) == MsgVal.ParseFrom(m.(unknown := m.unknown + [r]), rest)
  {
    OneRecordParsed(MsgVal.Step, m, b, r, rest);
    hide ParseInto, ValidUtf8, ToInt32, ToInt64, IsRecord;
  }
}
