/** Message RowChange: the rows one change touched. The root of the deepest tree. */
module RowChangeMessage {
  import opened Wire
  import opened Codec
  import opened Fields
  import opened CodedStream
  import RowDataMessage
  import ColumnMessage
  import PairMessage

  /** The members of the message; its sub-messages are values or nodes. */
  datatype RowChangeFields<R, P> = RowChangeFields(
    tableId: int64,
    eventType: Option<int32>,
    isDdl: Option<bool>,
    sql: Bytes,
    rowDatas: seq<R>,
    props: seq<P>,
    ddlSchemaName: Bytes,
    unknown: seq<Record>)

  type RowChangeValue = RowChangeFields<RowDataMessage.RowDataValue, PairMessage.PairValue>

  const EMPTY: RowChangeValue := RowChangeFields(0, None, None, [], [], [], [], [])

  // ---------------------------------------------------- what the codec means

  /** The records the parser stores in a field; all others it keeps as unknown. */
  predicate Known(r: Record) {
    match r.number
    case 1 => r.value.VarintValue?
    case 2 => r.value.VarintValue?
    case 10 => r.value.VarintValue?
    case 11 => r.value.LenValue?
    case 12 => r.value.LenValue?
    case 13 => r.value.LenValue?
    case 14 => r.value.LenValue?
    case _ => false
  }

  /** A record that does not stop the parser: a string must be UTF-8, a sub-message must parse. */
  predicate Acceptable(r: Record) {
    match r.number
    case 11 => r.value.LenValue? ==> ValidUtf8(r.value.data)
    case 12 => r.value.LenValue? ==> RowDataMessage.Parse(r.value.data).Some?
    case 13 => r.value.LenValue? ==> PairMessage.Parse(r.value.data).Some?
    case 14 => r.value.LenValue? ==> ValidUtf8(r.value.data)
    case _ => true
  }

  function Step(m: RowChangeValue, r: Record): Option<RowChangeValue> {
    if !Known(r) then Some(m.(unknown := m.unknown + [r]))
    else
      match r.number
      case 1 => Some(m.(tableId := ToInt64(r.value.v)))
      case 2 => Some(m.(eventType := Some(ToInt32(r.value.v))))
      case 10 => Some(m.(isDdl := Some(r.value.v != 0)))
      case 11 => if ValidUtf8(r.value.data) then Some(m.(sql := r.value.data)) else None
      case 12 =>
        (match RowDataMessage.Parse(r.value.data)
         case None => None
         case Some(x) => Some(m.(rowDatas := m.rowDatas + [x])))
      case 13 =>
        (match PairMessage.Parse(r.value.data)
         case None => None
         case Some(x) => Some(m.(props := m.props + [x])))
      case _ => if ValidUtf8(r.value.data) then Some(m.(ddlSchemaName := r.value.data)) else None
  }

  /** The records of the fields, in the order they are written. */
  function KnownRecords(m: RowChangeValue): seq<Record> {
    IntField(1, m.tableId) + IntOneof(2, m.eventType) + BoolOneof(10, m.isDdl) + BytesField(11, m.sql) +
    RowDataMessage.RecordsOfAll(12, m.rowDatas) + PairMessage.RecordsOfAll(13, m.props) +
    BytesField(14, m.ddlSchemaName)
  }

  function Records(m: RowChangeValue): seq<Record> { KnownRecords(m) + m.unknown }

  function Encode(m: RowChangeValue): Bytes { EncodeRecords(Records(m)) }

  /** Summed in the order of ByteSizeLong, which is not the order of emission. */
  function Size(m: RowChangeValue): nat {
    RecordsSize(m.unknown) + RowDataMessage.SizeOfAll(m.rowDatas) + PairMessage.SizeOfAll(m.props) +
    BytesFieldSize(m.sql) + BytesFieldSize(m.ddlSchemaName) + IntFieldSize(m.tableId) +
    IntOneofSize(m.eventType) + BoolOneofSize(m.isDdl)
  }

  function Merge(x: RowChangeValue, y: RowChangeValue): RowChangeValue {
    RowChangeFields(
      tableId := MergeInt64(x.tableId, y.tableId),
      eventType := MergeOneof(x.eventType, y.eventType),
      isDdl := MergeOneof(x.isDdl, y.isDdl),
      sql := MergeBytes(x.sql, y.sql),
      rowDatas := x.rowDatas + y.rowDatas,
      props := x.props + y.props,
      ddlSchemaName := MergeBytes(x.ddlSchemaName, y.ddlSchemaName),
      unknown := x.unknown + y.unknown)
  }

  /** The messages a parser can produce. */
  ghost predicate Valid(m: RowChangeValue) {
    && ValidUtf8(m.sql)
    && ValidUtf8(m.ddlSchemaName)
    && (forall x :: x in m.rowDatas ==> RowDataMessage.Valid(x))
    && (forall x :: x in m.props ==> PairMessage.Valid(x))
    && UnknownTo(Known, m.unknown)
  }

  /** Parsing b into m: the fold of Step over the records of b. */
  function ParseFrom(m: RowChangeValue, b: Bytes): Option<RowChangeValue> { ParseInto(Step, m, b) }

  function Parse(b: Bytes): Option<RowChangeValue> { ParseFrom(EMPTY, b) }

  /** A message over the two-gigabyte limit of the library is not serialised. */
  function Serialize(m: RowChangeValue): Option<Bytes> {
    if Size(m) <= INT_MAX then Some(Encode(m)) else None
  }

  // -------------------------------------------------------------------- laws

  lemma SizeIsLength(m: RowChangeValue)
    ensures |Encode(m)| == Size(m)
  {
    hide RecordsSize, EncodeRecords, Varint, VarintSize;
    hide RowDataMessage.RecordsOfAll, RowDataMessage.SizeOfAll;
    hide PairMessage.RecordsOfAll, PairMessage.SizeOfAll;
    hide IntField, BoolField, BytesField, IntOneof, BoolOneof;
    hide IntFieldSize, BoolFieldSize, BytesFieldSize, IntOneofSize, BoolOneofSize;
    IntFieldLength(1, m.tableId);
    var s0 := IntField(1, m.tableId);
    IntOneofLength(2, m.eventType);
    RecordsSizeConcat(s0, IntOneof(2, m.eventType));
    var s1 := s0 + IntOneof(2, m.eventType);
    BoolOneofLength(10, m.isDdl);
    RecordsSizeConcat(s1, BoolOneof(10, m.isDdl));
    var s2 := s1 + BoolOneof(10, m.isDdl);
    BytesFieldLength(11, m.sql);
    RecordsSizeConcat(s2, BytesField(11, m.sql));
    var s3 := s2 + BytesField(11, m.sql);
    RowDataMessage.SizeOfAllIsLength(12, m.rowDatas);
    RecordsSizeConcat(s3, RowDataMessage.RecordsOfAll(12, m.rowDatas));
    var s4 := s3 + RowDataMessage.RecordsOfAll(12, m.rowDatas);
    PairMessage.SizeOfAllIsLength(13, m.props);
    RecordsSizeConcat(s4, PairMessage.RecordsOfAll(13, m.props));
    var s5 := s4 + PairMessage.RecordsOfAll(13, m.props);
    BytesFieldLength(14, m.ddlSchemaName);
    RecordsSizeConcat(s5, BytesField(14, m.ddlSchemaName));
    var s6 := s5 + BytesField(14, m.ddlSchemaName);
    RecordsSizeConcat(s6, m.unknown);
    RecordsSizeIsLength(Records(m));
  }

  lemma {:induction false} ReplayRowDatas(x: RowChangeValue, ys: seq<RowDataMessage.RowDataValue>)
    requires forall y :: y in ys ==> RowDataMessage.Valid(y) && RowDataMessage.Size(y) <= INT_MAX
    ensures Fold(Step, x, RowDataMessage.RecordsOfAll(12, ys)) == Some(x.(rowDatas := x.rowDatas + ys))
    decreases |ys|
  {
    hide Fold, RowDataMessage.Encode, RowDataMessage.Valid, RowDataMessage.Merge, RowDataMessage.ParseFrom,
         RowDataMessage.RecordsOfAll;
    if ys == [] {
      RowDataMessage.AllOfNothing(12, ys);
      FoldNothing(Step, x);
      assert ys[..0] == ys && x.rowDatas + ys == x.rowDatas;
    } else {
      var init, last := ys[..|ys| - 1], ys[|ys| - 1];
      var x1, r := x.(rowDatas := x.rowDatas + init), BytesRecord(12, RowDataMessage.Encode(last));
      ReplayRowDatas(x, init);
      RowDataMessage.AllPrefix(12, ys, |ys| - 1);
      RowDataMessage.ParseEncoded(RowDataMessage.EMPTY, last);
      RowDataMessage.MergeLaws(last, last, last);
      FoldOne(Step, x1, r);
      Rejoined(x.rowDatas, ys);
      FoldThen(Step, x, RowDataMessage.RecordsOfAll(12, init), x1, [r], x.(rowDatas := x.rowDatas + ys));
    }
  }

  lemma {:induction false} ReplayProps(x: RowChangeValue, ys: seq<PairMessage.PairValue>)
    requires forall y :: y in ys ==> PairMessage.Valid(y) && PairMessage.Size(y) <= INT_MAX
    ensures Fold(Step, x, PairMessage.RecordsOfAll(13, ys)) == Some(x.(props := x.props + ys))
    decreases |ys|
  {
    hide Fold, PairMessage.Encode, PairMessage.Valid, PairMessage.Merge, PairMessage.ParseFrom,
         PairMessage.RecordsOfAll;
    if ys == [] {
      PairMessage.AllOfNothing(13, ys);
      FoldNothing(Step, x);
      assert ys[..0] == ys && x.props + ys == x.props;
    } else {
      var init, last := ys[..|ys| - 1], ys[|ys| - 1];
      var x1, r := x.(props := x.props + init), BytesRecord(13, PairMessage.Encode(last));
      ReplayProps(x, init);
      PairMessage.AllPrefix(13, ys, |ys| - 1);
      PairMessage.ParseEncoded(PairMessage.EMPTY, last);
      PairMessage.MergeLaws(last, last, last);
      FoldOne(Step, x1, r);
      Rejoined(x.props, ys);
      FoldThen(Step, x, PairMessage.RecordsOfAll(13, init), x1, [r], x.(props := x.props + ys));
    }
  }

  lemma ReplayUnknown(x: RowChangeValue, us: seq<Record>)
    requires UnknownTo(Known, us)
    ensures Fold(Step, x, us) == Some(x.(unknown := x.unknown + us))
  {
    var append := (m: RowChangeValue, rs: seq<Record>) => m.(unknown := m.unknown + rs);
    forall m: RowChangeValue, a: seq<Record>, b: seq<Record> ensures append(append(m, a), b) == append(m, a + b) {
      assert (m.unknown + a) + b == m.unknown + (a + b);
    }
    forall m: RowChangeValue ensures append(m, []) == m {
      assert m.unknown + [] == m.unknown;
    }
    FoldAppends(Step, Known, append, x, us);
  }

  lemma ReplayTableId(x: RowChangeValue, v: int64)
    ensures Fold(Step, x, IntField(1, v)) == Some(x.(tableId := MergeInt64(x.tableId, v)))
  {
    hide Fold, ValidUtf8;
    Int64Inverts(v);
    FoldIntField(Step, x, 1, v);
  }

  lemma ReplayEventType(x: RowChangeValue, v: Option<int32>)
    ensures Fold(Step, x, IntOneof(2, v)) == Some(x.(eventType := MergeOneof(x.eventType, v)))
  {
    hide Fold, ValidUtf8;
    if v.Some? { Int32Inverts(v.value); }
    FoldIntOneof(Step, x, 2, v);
  }

  lemma ReplayIsDdl(x: RowChangeValue, v: Option<bool>)
    ensures Fold(Step, x, BoolOneof(10, v)) == Some(x.(isDdl := MergeOneof(x.isDdl, v)))
  {
    hide Fold, ValidUtf8;
    FoldBoolOneof(Step, x, 10, v);
  }

  lemma ReplaySql(x: RowChangeValue, v: Bytes)
    requires ValidUtf8(v)
    ensures Fold(Step, x, BytesField(11, v)) == Some(x.(sql := MergeBytes(x.sql, v)))
  {
    hide Fold, ValidUtf8;
    FoldBytesField(Step, x, 11, v);
  }

  lemma ReplayDdlSchemaName(x: RowChangeValue, v: Bytes)
    requires ValidUtf8(v)
    ensures Fold(Step, x, BytesField(14, v)) == Some(x.(ddlSchemaName := MergeBytes(x.ddlSchemaName, v)))
  {
    hide Fold, ValidUtf8;
    FoldBytesField(Step, x, 14, v);
  }

  /** Replaying the records of y is merging y. */
  lemma Replay(x: RowChangeValue, y: RowChangeValue)
    requires Valid(y)
    requires forall c :: c in y.rowDatas ==> RowDataMessage.Size(c) <= INT_MAX
    requires forall c :: c in y.props ==> PairMessage.Size(c) <= INT_MAX
    ensures Fold(Step, x, Records(y)) == Some(Merge(x, y))
  {
    hide MergeInt32, MergeInt64, MergeBool, MergeBytes, MergeOneof;
    hide RowDataMessage.RecordsOfAll;
    hide PairMessage.RecordsOfAll;
    hide Step, Fold, ValidUtf8, UnknownTo, IntField, BoolField, BytesField, IntOneof, BoolOneof;
    var x1 := x.(tableId := MergeInt64(x.tableId, y.tableId));
    ReplayTableId(x, y.tableId);
    var s1 := IntField(1, y.tableId);
    var x2 := x1.(eventType := MergeOneof(x1.eventType, y.eventType));
    ReplayEventType(x1, y.eventType);
    FoldThen(Step, x, s1, x1, IntOneof(2, y.eventType), x2);
    var s2 := s1 + IntOneof(2, y.eventType);
    var x3 := x2.(isDdl := MergeOneof(x2.isDdl, y.isDdl));
    ReplayIsDdl(x2, y.isDdl);
    FoldThen(Step, x, s2, x2, BoolOneof(10, y.isDdl), x3);
    var s3 := s2 + BoolOneof(10, y.isDdl);
    var x4 := x3.(sql := MergeBytes(x3.sql, y.sql));
    ReplaySql(x3, y.sql);
    FoldThen(Step, x, s3, x3, BytesField(11, y.sql), x4);
    var s4 := s3 + BytesField(11, y.sql);
    var x5 := x4.(rowDatas := x4.rowDatas + y.rowDatas);
    ReplayRowDatas(x4, y.rowDatas);
    FoldThen(Step, x, s4, x4, RowDataMessage.RecordsOfAll(12, y.rowDatas), x5);
    var s5 := s4 + RowDataMessage.RecordsOfAll(12, y.rowDatas);
    var x6 := x5.(props := x5.props + y.props);
    ReplayProps(x5, y.props);
    FoldThen(Step, x, s5, x5, PairMessage.RecordsOfAll(13, y.props), x6);
    var s6 := s5 + PairMessage.RecordsOfAll(13, y.props);
    var x7 := x6.(ddlSchemaName := MergeBytes(x6.ddlSchemaName, y.ddlSchemaName));
    ReplayDdlSchemaName(x6, y.ddlSchemaName);
    FoldThen(Step, x, s6, x6, BytesField(14, y.ddlSchemaName), x7);
    var s7 := s6 + BytesField(14, y.ddlSchemaName);
    ReplayUnknown(x7, y.unknown);
    FoldThen(Step, x, s7, x7, y.unknown, Merge(x, y));
  }

  lemma ParseEncoded(x: RowChangeValue, y: RowChangeValue)
    requires Valid(y) && Size(y) <= INT_MAX
    ensures ParseFrom(x, Encode(y)) == Some(Merge(x, y))
  {
    SizeIsLength(y);
    RecordsSizeIsLength(Records(y));
    PartsFit(y);
    RecordsHaveNumbers(y);
    hide Fold, EncodeRecords, RecordsSize, Records, Size, Valid, Merge;
    SmallRecordsAreValid(Records(y));
    Codec.ParseEncoded(Step, x, Records(y));
    Replay(x, y);
  }

  lemma PartsFit(m: RowChangeValue)
    ensures forall c :: c in m.rowDatas ==> RowDataMessage.Size(c) <= Size(m)
    ensures forall c :: c in m.props ==> PairMessage.Size(c) <= Size(m)
  {
    hide RecordsSize, VarintSize;
    hide RowDataMessage.SizeOfAll, RowDataMessage.Size;
    hide PairMessage.SizeOfAll, PairMessage.Size;
    forall c | c in m.rowDatas ensures RowDataMessage.Size(c) <= Size(m) {
      RowDataMessage.ElementFits(m.rowDatas, c);
    }
    forall c | c in m.props ensures PairMessage.Size(c) <= Size(m) {
      PairMessage.ElementFits(m.props, c);
    }
  }

  /** Every record written for a field is one the parser stores in a field. */
  lemma KnownRecordsAreKnown(m: RowChangeValue)
    ensures AllKnown(Known, KnownRecords(m))
  {
    hide RowDataMessage.RecordsOfAll, RowDataMessage.Encode;
    hide PairMessage.RecordsOfAll, PairMessage.Encode;
    IntFieldKnown(Known, 1, m.tableId);
    IntOneofKnown(Known, 2, m.eventType);
    BoolOneofKnown(Known, 10, m.isDdl);
    BytesFieldKnown(Known, 11, m.sql);
    RowDataMessage.RecordsOfAllKnown(Known, 12, m.rowDatas);
    PairMessage.RecordsOfAllKnown(Known, 13, m.props);
    BytesFieldKnown(Known, 14, m.ddlSchemaName);
    hide AllKnown, Known, IntField, BoolField, BytesField, IntOneof, BoolOneof;
    var s0 := IntField(1, m.tableId);
    AllKnownConcat(Known, s0, IntOneof(2, m.eventType));
    var s1 := s0 + IntOneof(2, m.eventType);
    AllKnownConcat(Known, s1, BoolOneof(10, m.isDdl));
    var s2 := s1 + BoolOneof(10, m.isDdl);
    AllKnownConcat(Known, s2, BytesField(11, m.sql));
    var s3 := s2 + BytesField(11, m.sql);
    AllKnownConcat(Known, s3, RowDataMessage.RecordsOfAll(12, m.rowDatas));
    var s4 := s3 + RowDataMessage.RecordsOfAll(12, m.rowDatas);
    AllKnownConcat(Known, s4, PairMessage.RecordsOfAll(13, m.props));
    var s5 := s4 + PairMessage.RecordsOfAll(13, m.props);
    AllKnownConcat(Known, s5, BytesField(14, m.ddlSchemaName));
  }

  lemma RecordsHaveNumbers(m: RowChangeValue)
    requires Valid(m)
    ensures forall i :: 0 <= i < |Records(m)| ==> 1 <= Records(m)[i].number < 0x2000_0000
  {
    KnownRecordsAreKnown(m);
    hide KnownRecords, Known;
  }

  lemma MergeLaws(x: RowChangeValue, y: RowChangeValue, z: RowChangeValue)
    ensures Merge(EMPTY, x) == x
    ensures Merge(x, EMPTY) == x
    ensures Merge(Merge(x, y), z) == Merge(x, Merge(y, z))
  {
    assert (x.rowDatas + y.rowDatas) + z.rowDatas == x.rowDatas + (y.rowDatas + z.rowDatas)
           && [] + x.rowDatas == x.rowDatas == x.rowDatas + [];
    assert (x.props + y.props) + z.props == x.props + (y.props + z.props) && [] + x.props == x.props == x.props + [];
    assert (x.unknown + y.unknown) + z.unknown == x.unknown + (y.unknown + z.unknown)
           && [] + x.unknown == x.unknown == x.unknown + [];
  }

  lemma StepKeeps(x: RowChangeValue, r: Record)
    requires ValidRecord(r) && Step(x, r).Some?
    ensures Valid(x) ==> Valid(Step(x, r).value)
    ensures Step(x, r).value.unknown == x.unknown + (if Known(r) then [] else [r])
  {
    if r.number == 12 && r.value.LenValue? {
      RowDataMessage.EmptyIsValid();
      RowDataMessage.ParseIsValid(RowDataMessage.EMPTY, r.value.data);
    }
    if r.number == 13 && r.value.LenValue? {
      PairMessage.EmptyIsValid();
      PairMessage.ParseIsValid(PairMessage.EMPTY, r.value.data);
    }
    hide RowDataMessage.Parse, RowDataMessage.Valid;
    hide PairMessage.Parse, PairMessage.Valid;
    hide ValidUtf8;
  }

  lemma StepAccepts(m: RowChangeValue, r: Record)
    ensures Step(m, r).Some? <==> Acceptable(r)
  {
    hide ValidUtf8, RowDataMessage.Parse, PairMessage.Parse;
  }

  /** A byte string parses exactly if it splits into records of which each is acceptable. */
  lemma ParsesExactlyIf(m: RowChangeValue, b: Bytes)
    ensures ParseFrom(m, b).Some? <==>
              DecodeRecords(b).Some? && forall r :: r in DecodeRecords(b).value ==> Acceptable(r)
  {
    forall x: RowChangeValue, r: Record ensures Step(x, r).Some? <==> Acceptable(r) { StepAccepts(x, r); }
    hide Step, Acceptable;
    if DecodeRecords(b).Some? { FoldSucceeds(Step, Acceptable, m, DecodeRecords(b).value); }
  }

  lemma EmptyIsValid()
    ensures Valid(EMPTY)
  {
  }

  lemma ParseIsValid(x: RowChangeValue, b: Bytes)
    requires ParseFrom(x, b).Some?
    ensures Valid(x) ==> Valid(ParseFrom(x, b).value)
    ensures ParseFrom(x, b).value.unknown == x.unknown + Unknowns(Known, DecodeRecords(b).value)
  {
    SplitIsBounded(b);
    var unknownOf, valid := (m: RowChangeValue) => m.unknown, (m: RowChangeValue) => Valid(m);
    forall m: RowChangeValue, r: Record | ValidRecord(r) ensures Keeps(Step, Known, unknownOf, valid, m, r) {
      if Step(m, r).Some? { StepKeeps(m, r); }
    }
    hide Step, Valid, Known, Keeps;
    FoldKeeps(Step, Known, unknownOf, valid, x, DecodeRecords(b).value);
  }

  /** What was serialised parses back to the same message exactly if the message is valid. */
  lemma RoundTrip(m: RowChangeValue)
    requires Serialize(m).Some?
    ensures Parse(Serialize(m).value) == Some(m) <==> Valid(m)
  {
    hide ParseFrom, Encode, Size, Valid, Merge;
    if Valid(m) { ParseEncoded(EMPTY, m); MergeLaws(m, m, m); }
    EmptyIsValid();
    if Parse(Encode(m)).Some? { ParseIsValid(EMPTY, Encode(m)); }
  }

  /** Parsing one serialisation after another is merging the messages. */
  lemma MergeLaw(x: RowChangeValue, y: RowChangeValue)
    requires Valid(x) && Valid(y) && Serialize(x).Some? && Serialize(y).Some?
    ensures Parse(Serialize(x).value + Serialize(y).value) == Some(Merge(x, y))
  {
    hide ParseInto, Encode, Size, Valid, Merge;
    ParseEncoded(EMPTY, x);
    MergeLaws(x, x, x);
    ParseEncoded(x, y);
    ParseConcat(Step, EMPTY, Encode(x), Encode(y));
  }

  /** Whatever parses is re-serialised to bytes that parse to the same message: the records of
      the fields, then every record of the input the parser did not recognise, in order. */
  lemma ForwardCompatible(b: Bytes)
    requires Parse(b).Some? && Serialize(Parse(b).value).Some?
    ensures var m := Parse(b).value;
            && Parse(Serialize(m).value) == Some(m)
            && DecodeRecords(Serialize(m).value)
            == Some(KnownRecords(m) + Unknowns(Known, DecodeRecords(b).value))
            && AllKnown(Known, KnownRecords(m))
  {
    var m := Parse(b).value;
    EmptyIsValid();
    ParseIsValid(EMPTY, b);
    RoundTrip(m);
    KnownRecordsAreKnown(m);
    RecordsHaveNumbers(m);
    SizeIsLength(m);
    RecordsSizeIsLength(Records(m));
    hide EncodeRecords, DecodeRecords, RecordsSize, Size, Valid, KnownRecords, ParseFrom, Unknowns, Known;
    SmallRecordsAreValid(Records(m));
    DecodeInverts(Records(m));
    assert [] + Unknowns(Known, DecodeRecords(b).value) == Unknowns(Known, DecodeRecords(b).value);
  }

  // ------------------------------------------ parsing any bytes, and merging

  /** Every implicit-presence field whose last record holds the default is at its default in x. */
  predicate KeepsDefaults(x: RowChangeValue, rs: seq<Record>) {
    && (LastInt64(Known, 1, rs) == Some(0) ==> x.tableId == 0)
    && (LastBytes(Known, 11, rs) == Some([]) ==> x.sql == [])
    && (LastBytes(Known, 14, rs) == Some([]) ==> x.ddlSchemaName == [])
  }

  /** Where records that fold to y from the empty message fold to z from x: a singular field is that
      of its last record, or as before if it has none; a list is extended by its sub-messages. */
  ghost predicate Overlays(x: RowChangeValue, y: RowChangeValue, z: RowChangeValue, rs: seq<Record>) {
    && y.tableId == OrElse(LastInt64(Known, 1, rs), EMPTY.tableId)
        && z.tableId == OrElse(LastInt64(Known, 1, rs), x.tableId)
    && y.eventType == LastInt32(Known, 2, rs) && z.eventType == MergeOneof(x.eventType, y.eventType)
    && y.isDdl == LastBool(Known, 10, rs) && z.isDdl == MergeOneof(x.isDdl, y.isDdl)
    && y.sql == OrElse(LastBytes(Known, 11, rs), EMPTY.sql) && z.sql == OrElse(LastBytes(Known, 11, rs), x.sql)
    && y.ddlSchemaName == OrElse(LastBytes(Known, 14, rs), EMPTY.ddlSchemaName)
        && z.ddlSchemaName == OrElse(LastBytes(Known, 14, rs), x.ddlSchemaName)
    && RowDataMessage.ParsedAll(AllOf(Known, 12, rs), y.rowDatas) && z.rowDatas == x.rowDatas + y.rowDatas
    && PairMessage.ParsedAll(AllOf(Known, 13, rs), y.props) && z.props == x.props + y.props
    && z.unknown == x.unknown + y.unknown
  }

  /** The last record of every field, and the records of every list, with one record more. */
  lemma FieldsUnroll(rs: seq<Record>)
    requires rs != []
    ensures var init, r := rs[..|rs| - 1], rs[|rs| - 1];
            var n := if Known(r) then r.number else 0;
            && LastInt64(Known, 1, rs) == (if n == 1 then Some(ToInt64(r.value.v)) else LastInt64(Known, 1, init))
            && LastInt32(Known, 2, rs) == (if n == 2 then Some(ToInt32(r.value.v)) else LastInt32(Known, 2, init))
            && LastBool(Known, 10, rs) == (if n == 10 then Some(r.value.v != 0) else LastBool(Known, 10, init))
            && LastBytes(Known, 11, rs) == (if n == 11 then Some(r.value.data) else LastBytes(Known, 11, init))
            && LastBytes(Known, 14, rs) == (if n == 14 then Some(r.value.data) else LastBytes(Known, 14, init))
            && AllOf(Known, 12, rs) == (if n == 12 then AllOf(Known, 12, init) + [r] else AllOf(Known, 12, init))
            && AllOf(Known, 13, rs) == (if n == 13 then AllOf(Known, 13, init) + [r] else AllOf(Known, 13, init))
  {
    LastInt64Unrolls(Known, 1, rs);
    LastInt32Unrolls(Known, 2, rs);
    LastBoolUnrolls(Known, 10, rs);
    LastBytesUnrolls(Known, 11, rs);
    LastBytesUnrolls(Known, 14, rs);
    hide LastInt64, LastInt32, LastBool, LastBytes, ToInt32, ToInt64;
  }

  lemma UnknownOverlays(x: RowChangeValue, y: RowChangeValue, z: RowChangeValue, rs: seq<Record>)
    requires rs != [] && Overlays(x, y, z, rs[..|rs| - 1]) && Step(y, rs[|rs| - 1]).Some?
    requires !Known(rs[|rs| - 1])
    ensures Step(z, rs[|rs| - 1]).Some?
    ensures Overlays(x, Step(y, rs[|rs| - 1]).value, Step(z, rs[|rs| - 1]).value, rs)
  {
    FieldsUnroll(rs);
    hide LastInt64, LastInt32, LastBool, LastBytes, AllOf, ToInt32, ToInt64, ValidUtf8, RowDataMessage.Parse,
         RowDataMessage.ParsedAll, PairMessage.Parse, PairMessage.ParsedAll;
  }

  lemma VarintOverlays(x: RowChangeValue, y: RowChangeValue, z: RowChangeValue, rs: seq<Record>)
    requires rs != [] && Overlays(x, y, z, rs[..|rs| - 1]) && Step(y, rs[|rs| - 1]).Some?
    requires Known(rs[|rs| - 1]) && rs[|rs| - 1].value.VarintValue?
    ensures Step(z, rs[|rs| - 1]).Some?
    ensures Overlays(x, Step(y, rs[|rs| - 1]).value, Step(z, rs[|rs| - 1]).value, rs)
  {
    FieldsUnroll(rs);
    hide LastInt64, LastInt32, LastBool, LastBytes, AllOf, ToInt32, ToInt64, ValidUtf8, RowDataMessage.Parse,
         RowDataMessage.ParsedAll, PairMessage.Parse, PairMessage.ParsedAll;
    var r := rs[|rs| - 1];
    var y1, z1 := Step(y, r).value, Step(z, r).value;
    match r.number {
      case 1 => assert y1 == y.(tableId := ToInt64(r.value.v)) && z1 == z.(tableId := ToInt64(r.value.v));
      case 2 => assert y1 == y.(eventType := Some(ToInt32(r.value.v)))
          && z1 == z.(eventType := Some(ToInt32(r.value.v)));
      case _ => assert y1 == y.(isDdl := Some(r.value.v != 0)) && z1 == z.(isDdl := Some(r.value.v != 0));
    }
  }

  lemma BytesOverlays(x: RowChangeValue, y: RowChangeValue, z: RowChangeValue, rs: seq<Record>)
    requires rs != [] && Overlays(x, y, z, rs[..|rs| - 1]) && Step(y, rs[|rs| - 1]).Some?
    requires Known(rs[|rs| - 1]) && rs[|rs| - 1].value.LenValue? && rs[|rs| - 1].number !in {12, 13}
    ensures Step(z, rs[|rs| - 1]).Some?
    ensures Overlays(x, Step(y, rs[|rs| - 1]).value, Step(z, rs[|rs| - 1]).value, rs)
  {
    FieldsUnroll(rs);
    hide LastInt64, LastInt32, LastBool, LastBytes, AllOf, ToInt32, ToInt64, ValidUtf8, RowDataMessage.Parse,
         RowDataMessage.ParsedAll, PairMessage.Parse, PairMessage.ParsedAll;
    var r := rs[|rs| - 1];
    var y1, z1 := Step(y, r).value, Step(z, r).value;
    match r.number {
      case 11 => assert y1 == y.(sql := r.value.data) && z1 == z.(sql := r.value.data);
      case _ => assert y1 == y.(ddlSchemaName := r.value.data) && z1 == z.(ddlSchemaName := r.value.data);
    }
  }

  lemma ListOverlays(x: RowChangeValue, y: RowChangeValue, z: RowChangeValue, rs: seq<Record>)
    requires rs != [] && Overlays(x, y, z, rs[..|rs| - 1]) && Step(y, rs[|rs| - 1]).Some?
    requires Known(rs[|rs| - 1]) && rs[|rs| - 1].number in {12, 13}
    ensures Step(z, rs[|rs| - 1]).Some?
    ensures Overlays(x, Step(y, rs[|rs| - 1]).value, Step(z, rs[|rs| - 1]).value, rs)
  {
    FieldsUnroll(rs);
    hide LastInt64, LastInt32, LastBool, LastBytes, AllOf, ToInt32, ToInt64, ValidUtf8, RowDataMessage.Parse,
         RowDataMessage.ParsedAll, PairMessage.Parse, PairMessage.ParsedAll;
    var init, r := rs[..|rs| - 1], rs[|rs| - 1];
    if r.number == 12 {
      var p := RowDataMessage.Parse(r.value.data).value;
      RowDataMessage.OneMoreParsed(AllOf(Known, 12, init), y.rowDatas, r, p);
      assert x.rowDatas + (y.rowDatas + [p]) == (x.rowDatas + y.rowDatas) + [p];
    }
    if r.number == 13 {
      var p := PairMessage.Parse(r.value.data).value;
      PairMessage.OneMoreParsed(AllOf(Known, 13, init), y.props, r, p);
      assert x.props + (y.props + [p]) == (x.props + y.props) + [p];
    }
  }

  lemma StepOverlays(x: RowChangeValue, y: RowChangeValue, z: RowChangeValue, rs: seq<Record>)
    requires rs != [] && Overlays(x, y, z, rs[..|rs| - 1]) && Step(y, rs[|rs| - 1]).Some?
    ensures Step(z, rs[|rs| - 1]).Some?
    ensures Overlays(x, Step(y, rs[|rs| - 1]).value, Step(z, rs[|rs| - 1]).value, rs)
  {
    var r := rs[|rs| - 1];
    hide Overlays, Step;
    if !Known(r) {
      UnknownOverlays(x, y, z, rs);
    } else if r.value.VarintValue? {
      VarintOverlays(x, y, z, rs);
    } else if r.number in {12, 13} {
      ListOverlays(x, y, z, rs);
    } else {
      BytesOverlays(x, y, z, rs);
    }
  }

  /** Last One Wins: what any records do to x, told by what they do to the empty message. */
  lemma {:induction false} LastOneWins(x: RowChangeValue, rs: seq<Record>)
    requires Fold(Step, EMPTY, rs).Some?
    ensures Fold(Step, x, rs).Some?
    ensures Overlays(x, Fold(Step, EMPTY, rs).value, Fold(Step, x, rs).value, rs)
    decreases |rs|
  {
    if rs == [] {
      assert x.rowDatas + [] == x.rowDatas;
      assert x.props + [] == x.props;
      assert x.unknown + [] == x.unknown;
    } else {
      var init := rs[..|rs| - 1];
      FoldLast(Step, EMPTY, rs);
      FoldLast(Step, x, rs);
      hide Step, Overlays, Fold;
      LastOneWins(x, init);
      StepOverlays(x, Fold(Step, EMPTY, init).value, Fold(Step, x, init).value, rs);
    }
  }

  /** Folding records into x is merging what they fold to, exactly if x keeps the defaults they
      spell out: a default that is spelled out overwrites, and a merge overlooks it. */
  lemma FoldsLikeMerged(x: RowChangeValue, rs: seq<Record>)
    requires Fold(Step, EMPTY, rs).Some?
    ensures Fold(Step, x, rs) == Some(Merge(x, Fold(Step, EMPTY, rs).value)) <==> KeepsDefaults(x, rs)
  {
    LastOneWins(x, rs);
    hide LastInt64, LastInt32, LastBool, LastBytes, Fold, RowDataMessage.ParsedAll, PairMessage.ParsedAll, AllOf;
  }

  /** Parsing b into x is merging the parse of b, exactly if x keeps the defaults b spells out. */
  lemma MergesLikeParsed(x: RowChangeValue, b: Bytes)
    requires Parse(b).Some?
    ensures ParseFrom(x, b) == Some(Merge(x, Parse(b).value)) <==> KeepsDefaults(x, DecodeRecords(b).value)
  {
    FoldsLikeMerged(x, DecodeRecords(b).value);
    hide Merge, KeepsDefaults, Fold;
  }

  /** The merge law on any bytes that parse. */
  lemma ConcatMerges(a: Bytes, b: Bytes)
    requires Parse(a).Some? && Parse(b).Some?
    ensures Parse(a + b) == Some(Merge(Parse(a).value, Parse(b).value))
       <==> KeepsDefaults(Parse(a).value, DecodeRecords(b).value)
  {
    MergesLikeParsed(Parse(a).value, b);
    hide ParseInto, Merge, KeepsDefaults;
    ParseConcat(Step, EMPTY, a, b);
  }

  // --------------------------------------------------------- nodes of a tree

  /** The members and the cached size. */
  type RowChangeNode = Node<RowChangeFields<RowDataMessage.RowDataNode, PairMessage.PairNode>>

  function ValueOf(c: RowChangeFields<RowDataMessage.RowDataNode, PairMessage.PairNode>): RowChangeValue {
    RowChangeFields(
      c.tableId, c.eventType, c.isDdl, c.sql, RowDataMessage.ValuesOf(c.rowDatas),
      PairMessage.ValuesOf(c.props), c.ddlSchemaName, c.unknown)
  }

  /** Every cached size in the tree is the size of what it caches. */
  ghost predicate Sized(n: RowChangeNode) {
    && n.cachedSize == ToCachedSize(Size(ValueOf(n.contents)))
    && RowDataMessage.AllSized(n.contents.rowDatas)
    && PairMessage.AllSized(n.contents.props)
  }

  lemma PartsReady(n: RowChangeNode)
    requires Sized(n) && Size(ValueOf(n.contents)) <= INT_MAX
    ensures RowDataMessage.Ready(n.contents.rowDatas)
    ensures PairMessage.Ready(n.contents.props)
  {
    PartsFit(ValueOf(n.contents));
    hide RowDataMessage.Size, RowDataMessage.Sized, RowDataMessage.ValueOf, RowDataMessage.ValuesOf;
    hide PairMessage.Size, PairMessage.Sized, PairMessage.ValueOf, PairMessage.ValuesOf;
    hide Size, ToCachedSize;
    assert forall i :: 0 <= i < |n.contents.rowDatas| ==>
             RowDataMessage.ValuesOf(n.contents.rowDatas)[i] in ValueOf(n.contents).rowDatas;
    assert forall i :: 0 <= i < |n.contents.props| ==>
             PairMessage.ValuesOf(n.contents.props)[i] in ValueOf(n.contents).props;
  }

  // ------------------------------------------------------ the mutable message

  /** What the loop does with the record after a tag: ok says whether it goes on, from m1 and rest1. */
  ghost predicate Merges(tag: nat, m0: RowChangeValue, rest0: Bytes, ok: bool, m1: RowChangeValue, rest1: Bytes)
    requires tag < TWO32
  {
    MergedRecord(Step, tag, m0, rest0, ok, m1, rest1)
  }

  lemma Turns(m: RowChangeValue, b: Bytes, tag: nat, n: nat, ok: bool, m1: RowChangeValue, rest1: Bytes)
    requires b != [] && ReadTag(b) == Some((tag, n))
    requires Merges(tag, m, b[n..], ok, m1, rest1)
    ensures ok ==> ParseFrom(m, b) == ParseFrom(m1, rest1) && |rest1| < |b|
    ensures !ok ==> ParseFrom(m, b) == None
  {
    hide ReadTag, ReadAfterTag, ParseInto, Step;
    LoopTurns(Step, m, b, tag, n, ok, m1, rest1);
  }

  /** The loop stops at tag 0: rightly at the end of the window, wrongly anywhere else. */
  lemma Stops(m: RowChangeValue, b: Bytes)
    requires b == [] || ReadTag(b) == None || ReadTag(b).value.0 == 0
    ensures ParseFrom(m, b) == if b == [] then Some(m) else None
  {
    hide ParseInto;
    LoopStops(Step, m, b);
  }

  class RowChange {
    var tableId: int64
    var eventType: Option<int32>
    var isDdl: Option<bool>
    var sql: Bytes
    var rowDatas: seq<RowDataMessage.RowDataNode>
    var props: seq<PairMessage.PairNode>
    var ddlSchemaName: Bytes
    var unknown: seq<Record>
    var cachedSize: int32

    function Contents(): RowChangeFields<RowDataMessage.RowDataNode, PairMessage.PairNode>
      reads this
    {
      RowChangeFields(tableId, eventType, isDdl, sql, rowDatas, props, ddlSchemaName, unknown)
    }

    function AsNode(): RowChangeNode
      reads this
    {
      Node(Contents(), cachedSize)
    }

    ghost function Value(): RowChangeValue
      reads this
    {
      ValueOf(AsNode().contents)
    }

    constructor ()
      ensures Value() == EMPTY
    {
      tableId := 0;
      eventType := None;
      isDdl := None;
      sql := [];
      rowDatas := [];
      props := [];
      ddlSchemaName := [];
      unknown := [];
      cachedSize := 0;
    }

    constructor Copy(from: RowChange)
      ensures Value() == from.Value()
    {
      RowDataMessage.ValuesOfNothing();
      PairMessage.ValuesOfNothing();
      hide RowDataMessage.ValuesOf, RowDataMessage.ValueOf;
      hide PairMessage.ValuesOf, PairMessage.ValueOf;
      var rowDatasCopy := RowDataMessage.MergeAll([], from.rowDatas);
      var propsCopy := PairMessage.MergeAll([], from.props);
      assert RowDataMessage.ValuesOf(rowDatasCopy) == RowDataMessage.ValuesOf(from.rowDatas);
      assert PairMessage.ValuesOf(propsCopy) == PairMessage.ValuesOf(from.props);
      unknown := from.unknown;
      rowDatas := rowDatasCopy;
      props := propsCopy;
      sql := if |from.sql| > 0 then from.sql else [];
      ddlSchemaName := if |from.ddlSchemaName| > 0 then from.ddlSchemaName else [];
      tableId := from.tableId;
      eventType := from.eventType;
      isDdl := from.isDdl;
      cachedSize := 0;
    }

    /** The event type, or 0 if it is absent. */
    function EventType(): (v: int32)
      reads this
      ensures v == if Value().eventType.Some? then Value().eventType.value else 0
    {
      if eventType.Some? then eventType.value else 0
    }

    method Clear()
      modifies this
      ensures Value() == EMPTY
    {
      rowDatas := [];
      props := [];
      ClearStrings();
      ClearScalars();
      ClearPresence();
      unknown := [];
    }

    /** Clears the string members. */
    method ClearStrings()
      modifies this
      ensures cachedSize == old(cachedSize)
      ensures Contents() == old(Contents()).(sql := [], ddlSchemaName := [])
    {
      sql := [];
      ddlSchemaName := [];
    }

    /** Clears the implicit-presence numbers and flags. */
    method ClearScalars()
      modifies this
      ensures cachedSize == old(cachedSize)
      ensures Contents() == old(Contents()).(tableId := 0)
    {
      tableId := 0;
    }

    /** Clears the oneofs. */
    method ClearPresence()
      modifies this
      ensures cachedSize == old(cachedSize)
      ensures Contents() == old(Contents()).(eventType := None, isDdl := None)
    {
      eventType := None;
      isDdl := None;
    }

    method MergeFrom(from: RowChange)
      requires from != this
      modifies this
      ensures Value() == Merge(old(Value()), from.Value())
    {
      hide MergeInt64, MergeOneof, MergeBytes;
      hide RowDataMessage.ValuesOf;
      hide PairMessage.ValuesOf;
      var c := from.Contents();
      unknown := unknown + c.unknown;
      rowDatas := RowDataMessage.MergeAll(rowDatas, c.rowDatas);
      props := PairMessage.MergeAll(props, c.props);
      MergeStrings(c);
      MergeScalars(c);
      MergePresence(c);
    }

    /** Merges the string members. */
    method MergeStrings(c: RowChangeFields<RowDataMessage.RowDataNode, PairMessage.PairNode>)
      modifies this
      ensures cachedSize == old(cachedSize)
      ensures Contents() == old(Contents()).(sql := MergeBytes(old(sql), c.sql),
          ddlSchemaName := MergeBytes(old(ddlSchemaName), c.ddlSchemaName))
    {
      hide MergeBytes;
      sql := MergeBytes(sql, c.sql);
      ddlSchemaName := MergeBytes(ddlSchemaName, c.ddlSchemaName);
    }

    /** Merges the implicit-presence numbers and flags. */
    method MergeScalars(c: RowChangeFields<RowDataMessage.RowDataNode, PairMessage.PairNode>)
      modifies this
      ensures cachedSize == old(cachedSize)
      ensures Contents() == old(Contents()).(tableId := MergeInt64(old(tableId), c.tableId))
    {
      hide MergeInt64;
      tableId := MergeInt64(tableId, c.tableId);
    }

    /** Merges the oneofs. */
    method MergePresence(c: RowChangeFields<RowDataMessage.RowDataNode, PairMessage.PairNode>)
      modifies this
      ensures cachedSize == old(cachedSize)
      ensures Contents() == old(Contents()).(eventType := MergeOneof(old(eventType), c.eventType),
          isDdl := MergeOneof(old(isDdl), c.isDdl))
    {
      hide MergeOneof;
      eventType := MergeOneof(eventType, c.eventType);
      isDdl := MergeOneof(isDdl, c.isDdl);
    }

    method CopyFrom(from: RowChange)
      modifies this
      ensures Value() == old(from.Value())
    {
      if from == this { return; }
      hide Merge;
      Clear();
      MergeFrom(from);
      MergeLaws(from.Value(), EMPTY, EMPTY);
    }

    method MergePartialFromCodedStream(input: CodedInputStream) returns (ok: bool)
      requires input.Valid()
      modifies this, input
      ensures input.Valid() && (ok ==> input.limit == old(input.limit))
      ensures ok && input.legitimateEnd ==> input.Rest() == []
      ensures (if ok && input.legitimateEnd then Some(Value()) else None)
           == ParseFrom(old(Value()), old(input.Rest()))
    {
      hide Merges, ReadTag, ParseFrom, Value, CodedInputStream.Rest;
      while true
        invariant input.Valid() && input.limit == old(input.limit)
        invariant ParseFrom(Value(), input.Rest()) == ParseFrom(old(Value()), old(input.Rest()))
        decreases |input.Rest()|
      {
        ghost var m, rest := Value(), input.Rest();
        var tag, known := input.ReadTagWithCutoffNoLastTag(127);
        if tag == 0 {
          Stops(m, rest);
          return true;
        }
        ok := MergeRecord(tag, known, input);
        Turns(m, rest, tag, ReadTag(rest).value.1, ok, Value(), input.Rest());
        if !ok { return false; }
      }
    }

    /** The switch of the parse loop. Outside sub-messages every case reads the payload its wire
        type calls for, so the read stands before the switch. */
    method MergeRecord(tag: nat, known: bool, input: CodedInputStream) returns (ok: bool)
      requires input.Valid() && tag < TWO32 && (known <==> 1 <= tag <= 127)
      modifies this, input
      ensures input.Valid() && (ok ==> input.limit == old(input.limit))
      ensures Merges(tag, old(Value()), old(input.Rest()), ok, Value(), input.Rest())
    {
      hide ReadPayload, CodedInputStream.Rest, ToInt32, ToInt64;
      hide RowDataMessage.ValuesOf;
      hide PairMessage.ValuesOf;
      if known && tag / 8 == 12 && tag % 256 == 98 {
        ok := AddRowDatas(input);
        return;
      }
      if known && tag / 8 == 13 && tag % 256 == 106 {
        ok := AddProps(input);
        return;
      }
      if tag / 8 == 0 { return false; }
      var w;
      ok, w := input.ReadPayloadOf(tag % 8);
      if !ok { return false; }
      assert Contents() == old(Contents());
      hide Contents, Step;
      if known && tag in {8, 16, 80} {
        SetVarint(tag / 8, w.v);
        return;
      }
      if known && tag in {90, 114} {
        ok := SetBytes(tag / 8, w.data);
        return;
      }
      AddUnknown(Record(tag / 8, w));
    }

    /** The cases whose payload is a varint. */
    method SetVarint(number: nat, v: uint64)
      requires number in {1, 2, 10}
      modifies this
      ensures Some(Value()) == Step(old(Value()), Record(number, VarintValue(v)))
    {
      hide ToInt32, ToInt64;
      hide RowDataMessage.ValuesOf;
      hide PairMessage.ValuesOf;
      match number {
        case 1 => tableId := ToInt64(v);
        case 2 => eventType := Some(ToInt32(v));
        case _ => isDdl := Some(v != 0);
      }
    }

    /** The cases whose payload is a string: it is stored, and then checked. */
    method SetBytes(number: nat, s: Bytes) returns (ok: bool)
      requires number in {11, 14}
      modifies this
      ensures (if ok then Some(Value()) else None) == Step(old(Value()), Record(number, LenValue(s)))
    {
      hide ValidUtf8;
      hide RowDataMessage.ValuesOf;
      hide PairMessage.ValuesOf;
      match number {
        case 11 => sql := s;
        case _ => ddlSchemaName := s;
      }
      ok := ValidUtf8(s);
    }

    /** The library's SkipField: the record is kept as unknown. */
    method AddUnknown(r: Record)
      requires !Known(r)
      modifies this
      ensures Some(Value()) == Step(old(Value()), r)
    {
      unknown := unknown + [r];
    }

    /** A new element at the end of rowDatas, read from the input. */
    method AddRowDatas(input: CodedInputStream) returns (ok: bool)
      requires input.Valid()
      modifies this, input
      ensures input.Valid() && (ok ==> input.limit == old(input.limit))
      ensures Merges(98, old(Value()), old(input.Rest()), ok, Value(), input.Rest())
    {
      hide ReadPayload, CodedInputStream.Rest, RowDataMessage.ParseFrom;
      hide RowDataMessage.ValuesOf, RowDataMessage.ValueOf;
      hide PairMessage.ValuesOf, PairMessage.ValueOf;
      var x := new RowDataMessage.RowData();
      ok := x.ReadMessage(input);
      var node := x.AsNode();
      RowDataMessage.ValuesOfAppend(rowDatas, node);
      rowDatas := rowDatas + [node];
    }

    /** A new element at the end of props, read from the input. */
    method AddProps(input: CodedInputStream) returns (ok: bool)
      requires input.Valid()
      modifies this, input
      ensures input.Valid() && (ok ==> input.limit == old(input.limit))
      ensures Merges(106, old(Value()), old(input.Rest()), ok, Value(), input.Rest())
    {
      hide ReadPayload, CodedInputStream.Rest, PairMessage.ParseFrom;
      hide RowDataMessage.ValuesOf, RowDataMessage.ValueOf;
      hide PairMessage.ValuesOf, PairMessage.ValueOf;
      var x := new PairMessage.Pair();
      ok := x.ReadMessage(input);
      var node := x.AsNode();
      PairMessage.ValuesOfAppend(props, node);
      props := props + [node];
    }

    method ByteSizeLong() returns (total: nat)
      modifies this
      ensures total == Size(Value())
      ensures Value() == old(Value()) && Sized(AsNode())
    {
      hide RecordsSize, ToCachedSize;
      hide RowDataMessage.SizeOfAll, RowDataMessage.ValuesOf, RowDataMessage.AllSized;
      hide PairMessage.SizeOfAll, PairMessage.ValuesOf, PairMessage.AllSized;
      var c := Contents();
      NoRecordsSize(c.unknown);
      total := 0;
      if |c.unknown| > 0 { total := total + RecordsSize(c.unknown); }
      hide BytesFieldSize, IntFieldSize, IntOneofSize, BoolOneofSize;
      var rowDatasSize, rowDatasSized := RowDataMessage.ByteSizeOfAll(c.rowDatas);
      rowDatas := rowDatasSized;
      total := total + rowDatasSize;
      var propsSize, propsSized := PairMessage.ByteSizeOfAll(c.props);
      props := propsSized;
      total := total + propsSize;
      total := total + BytesFieldSize(c.sql);
      total := total + BytesFieldSize(c.ddlSchemaName);
      total := total + IntFieldSize(c.tableId);
      total := total + IntOneofSize(c.eventType);
      total := total + BoolOneofSize(c.isDdl);
      cachedSize := ToCachedSize(total);
    }

    method InternalSerializeWithCachedSizesToArray(target: array<byte>, at: nat) returns (end: nat)
      requires Sized(AsNode()) && Size(Value()) <= INT_MAX
      requires at + Size(Value()) <= target.Length
      modifies target
      ensures end == at + Size(Value())
      ensures target[..end] == old(target[..at]) + Encode(Value())
    {
      var c := Contents();
      ghost var v, pre, done := ValueOf(c), target[..at], [];
      PartsReady(AsNode());
      hide Wrote, EncodeRecords, RecordsSize, IntField, BoolField, BytesField, IntOneof, BoolOneof;
      hide IntFieldSize, BoolFieldSize, BytesFieldSize, IntOneofSize, BoolOneofSize;
      hide RowDataMessage.RecordsOfAll, RowDataMessage.SizeOfAll, RowDataMessage.ValuesOf, RowDataMessage.ValueOf,
           RowDataMessage.Ready;
      hide PairMessage.RecordsOfAll, PairMessage.SizeOfAll, PairMessage.ValuesOf, PairMessage.ValueOf,
           PairMessage.Ready;
      assert v == Value();
      hide Sized, Contents, AsNode, Value;
      NothingWrote(target, at);
      end := at;
      end := WriteIntFieldToArray(1, c.tableId, target, end, pre, done);
      NothingBefore(IntField(1, v.tableId));
      done := IntField(1, v.tableId);
      end := WriteIntOneofToArray(2, c.eventType, target, end, pre, done);
      done := done + IntOneof(2, v.eventType);
      end := WriteBoolOneofToArray(10, c.isDdl, target, end, pre, done);
      done := done + BoolOneof(10, v.isDdl);
      end := WriteBytesFieldToArray(11, c.sql, target, end, pre, done);
      done := done + BytesField(11, v.sql);
      end := RowDataMessage.WriteAllToArray(12, c.rowDatas, target, end, pre, done);
      done := done + RowDataMessage.RecordsOfAll(12, v.rowDatas);
      end := PairMessage.WriteAllToArray(13, c.props, target, end, pre, done);
      done := done + PairMessage.RecordsOfAll(13, v.props);
      end := WriteBytesFieldToArray(14, c.ddlSchemaName, target, end, pre, done);
      done := done + BytesField(14, v.ddlSchemaName);
      assert done == KnownRecords(v);
      end := SerializeUnknownFieldsToArray(c.unknown, target, end, pre, done);
      assert done + c.unknown == Records(v);
      WroteMeans(target, end, pre, Records(v));
    }

    method SerializeWithCachedSizes(output: CodedOutputStream)
      requires Sized(AsNode()) && Size(Value()) <= INT_MAX
      modifies output
      ensures output.written == old(output.written) + Encode(Value())
    {
      var c := Contents();
      ghost var v, pre, done := ValueOf(c), output.written, [];
      PartsReady(AsNode());
      hide CodedOutputStream.Holds, EncodeRecords, IntField, BoolField, BytesField, IntOneof, BoolOneof;
      hide RowDataMessage.RecordsOfAll, RowDataMessage.ValuesOf, RowDataMessage.ValueOf, RowDataMessage.Ready;
      hide PairMessage.RecordsOfAll, PairMessage.ValuesOf, PairMessage.ValueOf, PairMessage.Ready;
      assert v == Value();
      hide Sized, Contents, AsNode, Value;
      output.HoldsNothing();
      output.WriteIntField(1, c.tableId, pre, done);
      NothingBefore(IntField(1, v.tableId));
      done := IntField(1, v.tableId);
      output.WriteIntOneof(2, c.eventType, pre, done);
      done := done + IntOneof(2, v.eventType);
      output.WriteBoolOneof(10, c.isDdl, pre, done);
      done := done + BoolOneof(10, v.isDdl);
      output.WriteBytesField(11, c.sql, pre, done);
      done := done + BytesField(11, v.sql);
      RowDataMessage.WriteAll(12, c.rowDatas, output, pre, done);
      done := done + RowDataMessage.RecordsOfAll(12, v.rowDatas);
      PairMessage.WriteAll(13, c.props, output, pre, done);
      done := done + PairMessage.RecordsOfAll(13, v.props);
      output.WriteBytesField(14, c.ddlSchemaName, pre, done);
      done := done + BytesField(14, v.ddlSchemaName);
      assert done == KnownRecords(v);
      output.SerializeUnknownFields(c.unknown, pre, done);
      assert done + c.unknown == Records(v);
      output.HoldsMeans(pre, Records(v));
    }

    /** The library's ParseFromString: the message is cleared first, and all of the input must be used. */
    method ParseFromString(data: Bytes) returns (ok: bool)
      modifies this
      ensures (if ok then Some(Value()) else None) == Parse(data)
    {
      hide ParseFrom, Value;
      Clear();
      var input := new CodedInputStream(data);
      ok := MergePartialFromCodedStream(input);
      ok := ok && input.legitimateEnd;
    }

    /** The library's SerializeToString: the sizes are cached, and then the array writer fills
        exactly that many bytes. */
    method SerializeToString() returns (s: Option<Bytes>)
      modifies this
      ensures Value() == old(Value()) && s == Serialize(Value())
    {
      var size := ByteSizeLong();
      hide Size, Encode, Value, Sized;
      if size > INT_MAX { return None; }
      var buffer := new byte[size];
      var end := InternalSerializeWithCachedSizesToArray(buffer, 0);
      assert buffer[..end] == buffer[..] && buffer[..0] == [];
      s := Some(buffer[..]);
    }
  }
}
