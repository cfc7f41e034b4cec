/** Message Header: where an entry comes from. */
module HeaderMessage {
  import opened Wire
  import opened Codec
  import opened Fields
  import opened CodedStream
  import PairMessage

  /** The members of the message; its sub-messages are values or nodes. */
  datatype HeaderFields<P> = HeaderFields(
    version: Option<int32>,
    logfileName: Bytes,
    logfileOffset: int64,
    serverId: int64,
    serverenCode: Bytes,
    executeTime: int64,
    sourceType: Option<int32>,
    schemaName: Bytes,
    tableName: Bytes,
    eventLength: int64,
    eventType: Option<int32>,
    props: seq<P>,
    gtid: Bytes,
    unknown: seq<Record>)

  type HeaderValue = HeaderFields<PairMessage.PairValue>

  const EMPTY: HeaderValue := HeaderFields(None, [], 0, 0, [], 0, None, [], [], 0, None, [], [], [])

  // ---------------------------------------------------- what the codec means

  /** The records the parser stores in a field; all others it keeps as unknown. */
  predicate Known(r: Record) {
    match r.number
    case 1 => r.value.VarintValue?
    case 2 => r.value.LenValue?
    case 3 => r.value.VarintValue?
    case 4 => r.value.VarintValue?
    case 5 => r.value.LenValue?
    case 6 => r.value.VarintValue?
    case 7 => r.value.VarintValue?
    case 8 => r.value.LenValue?
    case 9 => r.value.LenValue?
    case 10 => r.value.VarintValue?
    case 11 => r.value.VarintValue?
    case 12 => r.value.LenValue?
    case 13 => r.value.LenValue?
    case _ => false
  }

  /** A record that does not stop the parser: a string must be UTF-8, a sub-message must parse. */
  predicate Acceptable(r: Record) {
    match r.number
    case 2 => r.value.LenValue? ==> ValidUtf8(r.value.data)
    case 5 => r.value.LenValue? ==> ValidUtf8(r.value.data)
    case 8 => r.value.LenValue? ==> ValidUtf8(r.value.data)
    case 9 => r.value.LenValue? ==> ValidUtf8(r.value.data)
    case 12 => r.value.LenValue? ==> PairMessage.Parse(r.value.data).Some?
    case 13 => r.value.LenValue? ==> ValidUtf8(r.value.data)
    case _ => true
  }

  function Step(m: HeaderValue, r: Record): Option<HeaderValue> {
    if !Known(r) then Some(m.(unknown := m.unknown + [r]))
    else
      match r.number
      case 1 => Some(m.(version := Some(ToInt32(r.value.v))))
      case 2 => if ValidUtf8(r.value.data) then Some(m.(logfileName := r.value.data)) else None
      case 3 => Some(m.(logfileOffset := ToInt64(r.value.v)))
      case 4 => Some(m.(serverId := ToInt64(r.value.v)))
      case 5 => if ValidUtf8(r.value.data) then Some(m.(serverenCode := r.value.data)) else None
      case 6 => Some(m.(executeTime := ToInt64(r.value.v)))
      case 7 => Some(m.(sourceType := Some(ToInt32(r.value.v))))
      case 8 => if ValidUtf8(r.value.data) then Some(m.(schemaName := r.value.data)) else None
      case 9 => if ValidUtf8(r.value.data) then Some(m.(tableName := r.value.data)) else None
      case 10 => Some(m.(eventLength := ToInt64(r.value.v)))
      case 11 => Some(m.(eventType := Some(ToInt32(r.value.v))))
      case 12 =>
        (match PairMessage.Parse(r.value.data)
         case None => None
         case Some(x) => Some(m.(props := m.props + [x])))
      case _ => if ValidUtf8(r.value.data) then Some(m.(gtid := r.value.data)) else None
  }

  /** The records of the fields, in the order they are written. */
  function KnownRecords(m: HeaderValue): seq<Record> {
    IntOneof(1, m.version) + BytesField(2, m.logfileName) + IntField(3, m.logfileOffset) +
    IntField(4, m.serverId) + BytesField(5, m.serverenCode) + IntField(6, m.executeTime) +
    IntOneof(7, m.sourceType) + BytesField(8, m.schemaName) + BytesField(9, m.tableName) +
    IntField(10, m.eventLength) + IntOneof(11, m.eventType) + PairMessage.RecordsOfAll(12, m.props) +
    BytesField(13, m.gtid)
  }

  function Records(m: HeaderValue): seq<Record> { KnownRecords(m) + m.unknown }

  function Encode(m: HeaderValue): Bytes { EncodeRecords(Records(m)) }

  /** Summed in the order of ByteSizeLong, which is not the order of emission. */
  function Size(m: HeaderValue): nat {
    RecordsSize(m.unknown) + PairMessage.SizeOfAll(m.props) + BytesFieldSize(m.logfileName) +
    BytesFieldSize(m.serverenCode) + BytesFieldSize(m.schemaName) + BytesFieldSize(m.tableName) +
    BytesFieldSize(m.gtid) + IntFieldSize(m.logfileOffset) + IntFieldSize(m.serverId) +
    IntFieldSize(m.executeTime) + IntFieldSize(m.eventLength) + IntOneofSize(m.version) +
    IntOneofSize(m.sourceType) + IntOneofSize(m.eventType)
  }

  function Merge(x: HeaderValue, y: HeaderValue): HeaderValue {
    HeaderFields(
      version := MergeOneof(x.version, y.version),
      logfileName := MergeBytes(x.logfileName, y.logfileName),
      logfileOffset := MergeInt64(x.logfileOffset, y.logfileOffset),
      serverId := MergeInt64(x.serverId, y.serverId),
      serverenCode := MergeBytes(x.serverenCode, y.serverenCode),
      executeTime := MergeInt64(x.executeTime, y.executeTime),
      sourceType := MergeOneof(x.sourceType, y.sourceType),
      schemaName := MergeBytes(x.schemaName, y.schemaName),
      tableName := MergeBytes(x.tableName, y.tableName),
      eventLength := MergeInt64(x.eventLength, y.eventLength),
      eventType := MergeOneof(x.eventType, y.eventType),
      props := x.props + y.props,
      gtid := MergeBytes(x.gtid, y.gtid),
      unknown := x.unknown + y.unknown)
  }

  /** The messages a parser can produce. */
  ghost predicate Valid(m: HeaderValue) {
    && ValidUtf8(m.logfileName)
    && ValidUtf8(m.serverenCode)
    && ValidUtf8(m.schemaName)
    && ValidUtf8(m.tableName)
    && ValidUtf8(m.gtid)
    && (forall x :: x in m.props ==> PairMessage.Valid(x))
    && UnknownTo(Known, m.unknown)
  }

  /** Parsing b into m: the fold of Step over the records of b. */
  function ParseFrom(m: HeaderValue, b: Bytes): Option<HeaderValue> { ParseInto(Step, m, b) }

  function Parse(b: Bytes): Option<HeaderValue> { ParseFrom(EMPTY, b) }

  /** A message over the two-gigabyte limit of the library is not serialised. */
  function Serialize(m: HeaderValue): Option<Bytes> {
    if Size(m) <= INT_MAX then Some(Encode(m)) else None
  }

  /** A member of this type that may be absent: its record, and its size. */
  function RecordsOfMember(n: nat, v: Option<HeaderValue>): seq<Record> {
    match v case None => [] case Some(x) => [BytesRecord(n, Encode(x))]
  }

  function SizeOfMember(v: Option<HeaderValue>): nat {
    match v case None => 0 case Some(x) => 1 + LengthDelimitedSize(Size(x))
  }

  lemma RecordsOfMemberKnown(known: Record -> bool, n: nat, v: Option<HeaderValue>)
    requires 1 <= n < 16 && (v.Some? ==> known(BytesRecord(n, Encode(v.value))))
    ensures AllKnown(known, RecordsOfMember(n, v))
  {
    hide Encode;
  }

  /** A message merged into an absent member is merged into an empty one. */
  function MergeMember(x: Option<HeaderValue>, y: Option<HeaderValue>): Option<HeaderValue> {
    match y
    case None => x
    case Some(v) => Some(Merge(OrElse(x, EMPTY), v))
  }

  // -------------------------------------------------------------------- laws

  lemma SizeIsLength(m: HeaderValue)
    ensures |Encode(m)| == Size(m)
  {
    hide RecordsSize, EncodeRecords, Varint, VarintSize;
    hide PairMessage.RecordsOfAll, PairMessage.SizeOfAll;
    hide IntField, BoolField, BytesField, IntOneof, BoolOneof;
    hide IntFieldSize, BoolFieldSize, BytesFieldSize, IntOneofSize, BoolOneofSize;
    IntOneofLength(1, m.version);
    var s0 := IntOneof(1, m.version);
    BytesFieldLength(2, m.logfileName);
    RecordsSizeConcat(s0, BytesField(2, m.logfileName));
    var s1 := s0 + BytesField(2, m.logfileName);
    IntFieldLength(3, m.logfileOffset);
    RecordsSizeConcat(s1, IntField(3, m.logfileOffset));
    var s2 := s1 + IntField(3, m.logfileOffset);
    IntFieldLength(4, m.serverId);
    RecordsSizeConcat(s2, IntField(4, m.serverId));
    var s3 := s2 + IntField(4, m.serverId);
    BytesFieldLength(5, m.serverenCode);
    RecordsSizeConcat(s3, BytesField(5, m.serverenCode));
    var s4 := s3 + BytesField(5, m.serverenCode);
    IntFieldLength(6, m.executeTime);
    RecordsSizeConcat(s4, IntField(6, m.executeTime));
    var s5 := s4 + IntField(6, m.executeTime);
    IntOneofLength(7, m.sourceType);
    RecordsSizeConcat(s5, IntOneof(7, m.sourceType));
    var s6 := s5 + IntOneof(7, m.sourceType);
    BytesFieldLength(8, m.schemaName);
    RecordsSizeConcat(s6, BytesField(8, m.schemaName));
    var s7 := s6 + BytesField(8, m.schemaName);
    BytesFieldLength(9, m.tableName);
    RecordsSizeConcat(s7, BytesField(9, m.tableName));
    var s8 := s7 + BytesField(9, m.tableName);
    IntFieldLength(10, m.eventLength);
    RecordsSizeConcat(s8, IntField(10, m.eventLength));
    var s9 := s8 + IntField(10, m.eventLength);
    IntOneofLength(11, m.eventType);
    RecordsSizeConcat(s9, IntOneof(11, m.eventType));
    var s10 := s9 + IntOneof(11, m.eventType);
    PairMessage.SizeOfAllIsLength(12, m.props);
    RecordsSizeConcat(s10, PairMessage.RecordsOfAll(12, m.props));
    var s11 := s10 + PairMessage.RecordsOfAll(12, m.props);
    BytesFieldLength(13, m.gtid);
    RecordsSizeConcat(s11, BytesField(13, m.gtid));
    var s12 := s11 + BytesField(13, m.gtid);
    RecordsSizeConcat(s12, m.unknown);
    RecordsSizeIsLength(Records(m));
  }

  lemma {:induction false} ReplayProps(x: HeaderValue, ys: seq<PairMessage.PairValue>)
    requires forall y :: y in ys ==> PairMessage.Valid(y) && PairMessage.Size(y) <= INT_MAX
    ensures Fold(Step, x, PairMessage.RecordsOfAll(12, ys)) == Some(x.(props := x.props + ys))
    decreases |ys|
  {
    hide Fold, PairMessage.Encode, PairMessage.Valid, PairMessage.Merge, PairMessage.ParseFrom,
         PairMessage.RecordsOfAll;
    if ys == [] {
      PairMessage.AllOfNothing(12, ys);
      FoldNothing(Step, x);
      assert ys[..0] == ys && x.props + ys == x.props;
    } else {
      var init, last := ys[..|ys| - 1], ys[|ys| - 1];
      var x1, r := x.(props := x.props + init), BytesRecord(12, PairMessage.Encode(last));
      ReplayProps(x, init);
      PairMessage.AllPrefix(12, ys, |ys| - 1);
      PairMessage.ParseEncoded(PairMessage.EMPTY, last);
      PairMessage.MergeLaws(last, last, last);
      FoldOne(Step, x1, r);
      Rejoined(x.props, ys);
      FoldThen(Step, x, PairMessage.RecordsOfAll(12, init), x1, [r], x.(props := x.props + ys));
    }
  }

  lemma ReplayUnknown(x: HeaderValue, us: seq<Record>)
    requires UnknownTo(Known, us)
    ensures Fold(Step, x, us) == Some(x.(unknown := x.unknown + us))
  {
    var append := (m: HeaderValue, rs: seq<Record>) => m.(unknown := m.unknown + rs);
    forall m: HeaderValue, a: seq<Record>, b: seq<Record> ensures append(append(m, a), b) == append(m, a + b) {
      assert (m.unknown + a) + b == m.unknown + (a + b);
    }
    forall m: HeaderValue ensures append(m, []) == m {
      assert m.unknown + [] == m.unknown;
    }
    FoldAppends(Step, Known, append, x, us);
  }

  lemma ReplayVersion(x: HeaderValue, v: Option<int32>)
    ensures Fold(Step, x, IntOneof(1, v)) == Some(x.(version := MergeOneof(x.version, v)))
  {
    hide Fold, ValidUtf8;
    if v.Some? { Int32Inverts(v.value); }
    FoldIntOneof(Step, x, 1, v);
  }

  lemma ReplayLogfileName(x: HeaderValue, v: Bytes)
    requires ValidUtf8(v)
    ensures Fold(Step, x, BytesField(2, v)) == Some(x.(logfileName := MergeBytes(x.logfileName, v)))
  {
    hide Fold, ValidUtf8;
    FoldBytesField(Step, x, 2, v);
  }

  lemma ReplayLogfileOffset(x: HeaderValue, v: int64)
    ensures Fold(Step, x, IntField(3, v)) == Some(x.(logfileOffset := MergeInt64(x.logfileOffset, v)))
  {
    hide Fold, ValidUtf8;
    Int64Inverts(v);
    FoldIntField(Step, x, 3, v);
  }

  lemma ReplayServerId(x: HeaderValue, v: int64)
    ensures Fold(Step, x, IntField(4, v)) == Some(x.(serverId := MergeInt64(x.serverId, v)))
  {
    hide Fold, ValidUtf8;
    Int64Inverts(v);
    FoldIntField(Step, x, 4, v);
  }

  lemma ReplayServerenCode(x: HeaderValue, v: Bytes)
    requires ValidUtf8(v)
    ensures Fold(Step, x, BytesField(5, v)) == Some(x.(serverenCode := MergeBytes(x.serverenCode, v)))
  {
    hide Fold, ValidUtf8;
    FoldBytesField(Step, x, 5, v);
  }

  lemma ReplayExecuteTime(x: HeaderValue, v: int64)
    ensures Fold(Step, x, IntField(6, v)) == Some(x.(executeTime := MergeInt64(x.executeTime, v)))
  {
    hide Fold, ValidUtf8;
    Int64Inverts(v);
    FoldIntField(Step, x, 6, v);
  }

  lemma ReplaySourceType(x: HeaderValue, v: Option<int32>)
    ensures Fold(Step, x, IntOneof(7, v)) == Some(x.(sourceType := MergeOneof(x.sourceType, v)))
  {
    hide Fold, ValidUtf8;
    if v.Some? { Int32Inverts(v.value); }
    FoldIntOneof(Step, x, 7, v);
  }

  lemma ReplaySchemaName(x: HeaderValue, v: Bytes)
    requires ValidUtf8(v)
    ensures Fold(Step, x, BytesField(8, v)) == Some(x.(schemaName := MergeBytes(x.schemaName, v)))
  {
    hide Fold, ValidUtf8;
    FoldBytesField(Step, x, 8, v);
  }

  lemma ReplayTableName(x: HeaderValue, v: Bytes)
    requires ValidUtf8(v)
    ensures Fold(Step, x, BytesField(9, v)) == Some(x.(tableName := MergeBytes(x.tableName, v)))
  {
    hide Fold, ValidUtf8;
    FoldBytesField(Step, x, 9, v);
  }

  lemma ReplayEventLength(x: HeaderValue, v: int64)
    ensures Fold(Step, x, IntField(10, v)) == Some(x.(eventLength := MergeInt64(x.eventLength, v)))
  {
    hide Fold, ValidUtf8;
    Int64Inverts(v);
    FoldIntField(Step, x, 10, v);
  }

  lemma ReplayEventType(x: HeaderValue, v: Option<int32>)
    ensures Fold(Step, x, IntOneof(11, v)) == Some(x.(eventType := MergeOneof(x.eventType, v)))
  {
    hide Fold, ValidUtf8;
    if v.Some? { Int32Inverts(v.value); }
    FoldIntOneof(Step, x, 11, v);
  }

  lemma ReplayGtid(x: HeaderValue, v: Bytes)
    requires ValidUtf8(v)
    ensures Fold(Step, x, BytesField(13, v)) == Some(x.(gtid := MergeBytes(x.gtid, v)))
  {
    hide Fold, ValidUtf8;
    FoldBytesField(Step, x, 13, v);
  }

  /** Replaying the records of y is merging y. */
  lemma Replay(x: HeaderValue, y: HeaderValue)
    requires Valid(y)
    requires forall c :: c in y.props ==> PairMessage.Size(c) <= INT_MAX
    ensures Fold(Step, x, Records(y)) == Some(Merge(x, y))
  {
    hide MergeInt32, MergeInt64, MergeBool, MergeBytes, MergeOneof;
    hide PairMessage.RecordsOfAll;
    hide Step, Fold, ValidUtf8, UnknownTo, IntField, BoolField, BytesField, IntOneof, BoolOneof;
    var x1 := x.(version := MergeOneof(x.version, y.version));
    ReplayVersion(x, y.version);
    var s1 := IntOneof(1, y.version);
    var x2 := x1.(logfileName := MergeBytes(x1.logfileName, y.logfileName));
    ReplayLogfileName(x1, y.logfileName);
    FoldThen(Step, x, s1, x1, BytesField(2, y.logfileName), x2);
    var s2 := s1 + BytesField(2, y.logfileName);
    var x3 := x2.(logfileOffset := MergeInt64(x2.logfileOffset, y.logfileOffset));
    ReplayLogfileOffset(x2, y.logfileOffset);
    FoldThen(Step, x, s2, x2, IntField(3, y.logfileOffset), x3);
    var s3 := s2 + IntField(3, y.logfileOffset);
    var x4 := x3.(serverId := MergeInt64(x3.serverId, y.serverId));
    ReplayServerId(x3, y.serverId);
    FoldThen(Step, x, s3, x3, IntField(4, y.serverId), x4);
    var s4 := s3 + IntField(4, y.serverId);
    var x5 := x4.(serverenCode := MergeBytes(x4.serverenCode, y.serverenCode));
    ReplayServerenCode(x4, y.serverenCode);
    FoldThen(Step, x, s4, x4, BytesField(5, y.serverenCode), x5);
    var s5 := s4 + BytesField(5, y.serverenCode);
    var x6 := x5.(executeTime := MergeInt64(x5.executeTime, y.executeTime));
    ReplayExecuteTime(x5, y.executeTime);
    FoldThen(Step, x, s5, x5, IntField(6, y.executeTime), x6);
    var s6 := s5 + IntField(6, y.executeTime);
    var x7 := x6.(sourceType := MergeOneof(x6.sourceType, y.sourceType));
    ReplaySourceType(x6, y.sourceType);
    FoldThen(Step, x, s6, x6, IntOneof(7, y.sourceType), x7);
    var s7 := s6 + IntOneof(7, y.sourceType);
    var x8 := x7.(schemaName := MergeBytes(x7.schemaName, y.schemaName));
    ReplaySchemaName(x7, y.schemaName);
    FoldThen(Step, x, s7, x7, BytesField(8, y.schemaName), x8);
    var s8 := s7 + BytesField(8, y.schemaName);
    var x9 := x8.(tableName := MergeBytes(x8.tableName, y.tableName));
    ReplayTableName(x8, y.tableName);
    FoldThen(Step, x, s8, x8, BytesField(9, y.tableName), x9);
    var s9 := s8 + BytesField(9, y.tableName);
    var x10 := x9.(eventLength := MergeInt64(x9.eventLength, y.eventLength));
    ReplayEventLength(x9, y.eventLength);
    FoldThen(Step, x, s9, x9, IntField(10, y.eventLength), x10);
    var s10 := s9 + IntField(10, y.eventLength);
    var x11 := x10.(eventType := MergeOneof(x10.eventType, y.eventType));
    ReplayEventType(x10, y.eventType);
    FoldThen(Step, x, s10, x10, IntOneof(11, y.eventType), x11);
    var s11 := s10 + IntOneof(11, y.eventType);
    var x12 := x11.(props := x11.props + y.props);
    ReplayProps(x11, y.props);
    FoldThen(Step, x, s11, x11, PairMessage.RecordsOfAll(12, y.props), x12);
    var s12 := s11 + PairMessage.RecordsOfAll(12, y.props);
    var x13 := x12.(gtid := MergeBytes(x12.gtid, y.gtid));
    ReplayGtid(x12, y.gtid);
    FoldThen(Step, x, s12, x12, BytesField(13, y.gtid), x13);
    var s13 := s12 + BytesField(13, y.gtid);
    ReplayUnknown(x13, y.unknown);
    FoldThen(Step, x, s13, x13, y.unknown, Merge(x, y));
  }

  lemma ParseEncoded(x: HeaderValue, y: HeaderValue)
    requires Valid(y) && Size(y) <= INT_MAX
    ensures ParseFrom(x, Encode(y)) == Some(Merge(x, y))
  {
    SizeIsLength(y);
    RecordsSizeIsLength(Records(y));
    PartsFit(y);
    RecordsHaveNumbers(y);
    hide Fold, EncodeRecords, RecordsSize, Records, Size, Valid, Merge;
    SmallRecordsAreValid(Records(y));
    Codec.ParseEncoded(Step, x, Records(y));
    Replay(x, y);
  }

  lemma PartsFit(m: HeaderValue)
    ensures forall c :: c in m.props ==> PairMessage.Size(c) <= Size(m)
  {
    hide RecordsSize, VarintSize;
    hide PairMessage.SizeOfAll, PairMessage.Size;
    forall c | c in m.props ensures PairMessage.Size(c) <= Size(m) {
      PairMessage.ElementFits(m.props, c);
    }
  }

  /** Every record written for a field is one the parser stores in a field. */
  lemma KnownRecordsAreKnown(m: HeaderValue)
    ensures AllKnown(Known, KnownRecords(m))
  {
    hide PairMessage.RecordsOfAll, PairMessage.Encode;
    IntOneofKnown(Known, 1, m.version);
    BytesFieldKnown(Known, 2, m.logfileName);
    IntFieldKnown(Known, 3, m.logfileOffset);
    IntFieldKnown(Known, 4, m.serverId);
    BytesFieldKnown(Known, 5, m.serverenCode);
    IntFieldKnown(Known, 6, m.executeTime);
    IntOneofKnown(Known, 7, m.sourceType);
    BytesFieldKnown(Known, 8, m.schemaName);
    BytesFieldKnown(Known, 9, m.tableName);
    IntFieldKnown(Known, 10, m.eventLength);
    IntOneofKnown(Known, 11, m.eventType);
    PairMessage.RecordsOfAllKnown(Known, 12, m.props);
    BytesFieldKnown(Known, 13, m.gtid);
    hide AllKnown, Known, IntField, BoolField, BytesField, IntOneof, BoolOneof;
    var s0 := IntOneof(1, m.version);
    AllKnownConcat(Known, s0, BytesField(2, m.logfileName));
    var s1 := s0 + BytesField(2, m.logfileName);
    AllKnownConcat(Known, s1, IntField(3, m.logfileOffset));
    var s2 := s1 + IntField(3, m.logfileOffset);
    AllKnownConcat(Known, s2, IntField(4, m.serverId));
    var s3 := s2 + IntField(4, m.serverId);
    AllKnownConcat(Known, s3, BytesField(5, m.serverenCode));
    var s4 := s3 + BytesField(5, m.serverenCode);
    AllKnownConcat(Known, s4, IntField(6, m.executeTime));
    var s5 := s4 + IntField(6, m.executeTime);
    AllKnownConcat(Known, s5, IntOneof(7, m.sourceType));
    var s6 := s5 + IntOneof(7, m.sourceType);
    AllKnownConcat(Known, s6, BytesField(8, m.schemaName));
    var s7 := s6 + BytesField(8, m.schemaName);
    AllKnownConcat(Known, s7, BytesField(9, m.tableName));
    var s8 := s7 + BytesField(9, m.tableName);
    AllKnownConcat(Known, s8, IntField(10, m.eventLength));
    var s9 := s8 + IntField(10, m.eventLength);
    AllKnownConcat(Known, s9, IntOneof(11, m.eventType));
    var s10 := s9 + IntOneof(11, m.eventType);
    AllKnownConcat(Known, s10, PairMessage.RecordsOfAll(12, m.props));
    var s11 := s10 + PairMessage.RecordsOfAll(12, m.props);
    AllKnownConcat(Known, s11, BytesField(13, m.gtid));
  }

  lemma RecordsHaveNumbers(m: HeaderValue)
    requires Valid(m)
    ensures forall i :: 0 <= i < |Records(m)| ==> 1 <= Records(m)[i].number < 0x2000_0000
  {
    KnownRecordsAreKnown(m);
    hide KnownRecords, Known;
  }

  lemma MergeLaws(x: HeaderValue, y: HeaderValue, z: HeaderValue)
    ensures Merge(EMPTY, x) == x
    ensures Merge(x, EMPTY) == x
    ensures Merge(Merge(x, y), z) == Merge(x, Merge(y, z))
  {
    assert (x.props + y.props) + z.props == x.props + (y.props + z.props) && [] + x.props == x.props == x.props + [];
    assert (x.unknown + y.unknown) + z.unknown == x.unknown + (y.unknown + z.unknown)
           && [] + x.unknown == x.unknown == x.unknown + [];
  }

  lemma StepKeeps(x: HeaderValue, r: Record)
    requires ValidRecord(r) && Step(x, r).Some?
    ensures Valid(x) ==> Valid(Step(x, r).value)
    ensures Step(x, r).value.unknown == x.unknown + (if Known(r) then [] else [r])
  {
    if r.number == 12 && r.value.LenValue? {
      PairMessage.EmptyIsValid();
      PairMessage.ParseIsValid(PairMessage.EMPTY, r.value.data);
    }
    hide PairMessage.Parse, PairMessage.Valid;
    hide ValidUtf8;
  }

  lemma StepAccepts(m: HeaderValue, r: Record)
    ensures Step(m, r).Some? <==> Acceptable(r)
  {
    hide ValidUtf8, PairMessage.Parse;
  }

  /** A byte string parses exactly if it splits into records of which each is acceptable. */
  lemma ParsesExactlyIf(m: HeaderValue, b: Bytes)
    ensures ParseFrom(m, b).Some? <==>
              DecodeRecords(b).Some? && forall r :: r in DecodeRecords(b).value ==> Acceptable(r)
  {
    forall x: HeaderValue, r: Record ensures Step(x, r).Some? <==> Acceptable(r) { StepAccepts(x, r); }
    hide Step, Acceptable;
    if DecodeRecords(b).Some? { FoldSucceeds(Step, Acceptable, m, DecodeRecords(b).value); }
  }

  lemma EmptyIsValid()
    ensures Valid(EMPTY)
  {
  }

  lemma ParseIsValid(x: HeaderValue, b: Bytes)
    requires ParseFrom(x, b).Some?
    ensures Valid(x) ==> Valid(ParseFrom(x, b).value)
    ensures ParseFrom(x, b).value.unknown == x.unknown + Unknowns(Known, DecodeRecords(b).value)
  {
    SplitIsBounded(b);
    var unknownOf, valid := (m: HeaderValue) => m.unknown, (m: HeaderValue) => Valid(m);
    forall m: HeaderValue, r: Record | ValidRecord(r) ensures Keeps(Step, Known, unknownOf, valid, m, r) {
      if Step(m, r).Some? { StepKeeps(m, r); }
    }
    hide Step, Valid, Known, Keeps;
    FoldKeeps(Step, Known, unknownOf, valid, x, DecodeRecords(b).value);
  }

  /** What was serialised parses back to the same message exactly if the message is valid. */
  lemma RoundTrip(m: HeaderValue)
    requires Serialize(m).Some?
    ensures Parse(Serialize(m).value) == Some(m) <==> Valid(m)
  {
    hide ParseFrom, Encode, Size, Valid, Merge;
    if Valid(m) { ParseEncoded(EMPTY, m); MergeLaws(m, m, m); }
    EmptyIsValid();
    if Parse(Encode(m)).Some? { ParseIsValid(EMPTY, Encode(m)); }
  }

  /** Parsing one serialisation after another is merging the messages. */
  lemma MergeLaw(x: HeaderValue, y: HeaderValue)
    requires Valid(x) && Valid(y) && Serialize(x).Some? && Serialize(y).Some?
    ensures Parse(Serialize(x).value + Serialize(y).value) == Some(Merge(x, y))
  {
    hide ParseInto, Encode, Size, Valid, Merge;
    ParseEncoded(EMPTY, x);
    MergeLaws(x, x, x);
    ParseEncoded(x, y);
    ParseConcat(Step, EMPTY, Encode(x), Encode(y));
  }

  /** Whatever parses is re-serialised to bytes that parse to the same message: the records of
      the fields, then every record of the input the parser did not recognise, in order. */
  lemma ForwardCompatible(b: Bytes)
    requires Parse(b).Some? && Serialize(Parse(b).value).Some?
    ensures var m := Parse(b).value;
            && Parse(Serialize(m).value) == Some(m)
            && DecodeRecords(Serialize(m).value)
            == Some(KnownRecords(m) + Unknowns(Known, DecodeRecords(b).value))
            && AllKnown(Known, KnownRecords(m))
  {
    var m := Parse(b).value;
    EmptyIsValid();
    ParseIsValid(EMPTY, b);
    RoundTrip(m);
    KnownRecordsAreKnown(m);
    RecordsHaveNumbers(m);
    SizeIsLength(m);
    RecordsSizeIsLength(Records(m));
    hide EncodeRecords, DecodeRecords, RecordsSize, Size, Valid, KnownRecords, ParseFrom, Unknowns, Known;
    SmallRecordsAreValid(Records(m));
    DecodeInverts(Records(m));
    assert [] + Unknowns(Known, DecodeRecords(b).value) == Unknowns(Known, DecodeRecords(b).value);
  }

  // ------------------------------------------ parsing any bytes, and merging

  /** Every implicit-presence field whose last record holds the default is at its default in x. */
  predicate KeepsDefaults(x: HeaderValue, rs: seq<Record>) {
    && (LastBytes(Known, 2, rs) == Some([]) ==> x.logfileName == [])
    && (LastInt64(Known, 3, rs) == Some(0) ==> x.logfileOffset == 0)
    && (LastInt64(Known, 4, rs) == Some(0) ==> x.serverId == 0)
    && (LastBytes(Known, 5, rs) == Some([]) ==> x.serverenCode == [])
    && (LastInt64(Known, 6, rs) == Some(0) ==> x.executeTime == 0)
    && (LastBytes(Known, 8, rs) == Some([]) ==> x.schemaName == [])
    && (LastBytes(Known, 9, rs) == Some([]) ==> x.tableName == [])
    && (LastInt64(Known, 10, rs) == Some(0) ==> x.eventLength == 0)
    && (LastBytes(Known, 13, rs) == Some([]) ==> x.gtid == [])
  }

  /** Where records that fold to y from the empty message fold to z from x: a singular field is that
      of its last record, or as before if it has none; a list is extended by its sub-messages. */
  ghost predicate Overlays(x: HeaderValue, y: HeaderValue, z: HeaderValue, rs: seq<Record>) {
    && y.version == LastInt32(Known, 1, rs) && z.version == MergeOneof(x.version, y.version)
    && y.logfileName == OrElse(LastBytes(Known, 2, rs), EMPTY.logfileName)
        && z.logfileName == OrElse(LastBytes(Known, 2, rs), x.logfileName)
    && y.logfileOffset == OrElse(LastInt64(Known, 3, rs), EMPTY.logfileOffset)
        && z.logfileOffset == OrElse(LastInt64(Known, 3, rs), x.logfileOffset)
    && y.serverId == OrElse(LastInt64(Known, 4, rs), EMPTY.serverId)
        && z.serverId == OrElse(LastInt64(Known, 4, rs), x.serverId)
    && y.serverenCode == OrElse(LastBytes(Known, 5, rs), EMPTY.serverenCode)
        && z.serverenCode == OrElse(LastBytes(Known, 5, rs), x.serverenCode)
    && y.executeTime == OrElse(LastInt64(Known, 6, rs), EMPTY.executeTime)
        && z.executeTime == OrElse(LastInt64(Known, 6, rs), x.executeTime)
    && y.sourceType == LastInt32(Known, 7, rs) && z.sourceType == MergeOneof(x.sourceType, y.sourceType)
    && y.schemaName == OrElse(LastBytes(Known, 8, rs), EMPTY.schemaName)
        && z.schemaName == OrElse(LastBytes(Known, 8, rs), x.schemaName)
    && y.tableName == OrElse(LastBytes(Known, 9, rs), EMPTY.tableName)
        && z.tableName == OrElse(LastBytes(Known, 9, rs), x.tableName)
    && y.eventLength == OrElse(LastInt64(Known, 10, rs), EMPTY.eventLength)
        && z.eventLength == OrElse(LastInt64(Known, 10, rs), x.eventLength)
    && y.eventType == LastInt32(Known, 11, rs) && z.eventType == MergeOneof(x.eventType, y.eventType)
    && y.gtid == OrElse(LastBytes(Known, 13, rs), EMPTY.gtid) && z.gtid == OrElse(LastBytes(Known, 13, rs), x.gtid)
    && PairMessage.ParsedAll(AllOf(Known, 12, rs), y.props) && z.props == x.props + y.props
    && z.unknown == x.unknown + y.unknown
  }

  /** The last record of every field, and the records of every list, with one record more. */
  lemma FieldsUnroll(rs: seq<Record>)
    requires rs != []
    ensures var init, r := rs[..|rs| - 1], rs[|rs| - 1];
            var n := if Known(r) then r.number else 0;
            && LastInt32(Known, 1, rs) == (if n == 1 then Some(ToInt32(r.value.v)) else LastInt32(Known, 1, init))
            && LastBytes(Known, 2, rs) == (if n == 2 then Some(r.value.data) else LastBytes(Known, 2, init))
            && LastInt64(Known, 3, rs) == (if n == 3 then Some(ToInt64(r.value.v)) else LastInt64(Known, 3, init))
            && LastInt64(Known, 4, rs) == (if n == 4 then Some(ToInt64(r.value.v)) else LastInt64(Known, 4, init))
            && LastBytes(Known, 5, rs) == (if n == 5 then Some(r.value.data) else LastBytes(Known, 5, init))
            && LastInt64(Known, 6, rs) == (if n == 6 then Some(ToInt64(r.value.v)) else LastInt64(Known, 6, init))
            && LastInt32(Known, 7, rs) == (if n == 7 then Some(ToInt32(r.value.v)) else LastInt32(Known, 7, init))
            && LastBytes(Known, 8, rs) == (if n == 8 then Some(r.value.data) else LastBytes(Known, 8, init))
            && LastBytes(Known, 9, rs) == (if n == 9 then Some(r.value.data) else LastBytes(Known, 9, init))
            && LastInt64(Known, 10, rs) == (if n == 10 then Some(ToInt64(r.value.v)) else LastInt64(Known, 10, init))
            && LastInt32(Known, 11, rs) == (if n == 11 then Some(ToInt32(r.value.v)) else LastInt32(Known, 11, init))
            && LastBytes(Known, 13, rs) == (if n == 13 then Some(r.value.data) else LastBytes(Known, 13, init))
            && AllOf(Known, 12, rs) == (if n == 12 then AllOf(Known, 12, init) + [r] else AllOf(Known, 12, init))
  {
    LastInt32Unrolls(Known, 1, rs);
    LastBytesUnrolls(Known, 2, rs);
    LastInt64Unrolls(Known, 3, rs);
    LastInt64Unrolls(Known, 4, rs);
    LastBytesUnrolls(Known, 5, rs);
    LastInt64Unrolls(Known, 6, rs);
    LastInt32Unrolls(Known, 7, rs);
    LastBytesUnrolls(Known, 8, rs);
    LastBytesUnrolls(Known, 9, rs);
    LastInt64Unrolls(Known, 10, rs);
    LastInt32Unrolls(Known, 11, rs);
    LastBytesUnrolls(Known, 13, rs);
    hide LastInt32, LastBytes, LastInt64, ToInt32, ToInt64;
  }

  lemma UnknownOverlays(x: HeaderValue, y: HeaderValue, z: HeaderValue, rs: seq<Record>)
    requires rs != [] && Overlays(x, y, z, rs[..|rs| - 1]) && Step(y, rs[|rs| - 1]).Some?
    requires !Known(rs[|rs| - 1])
    ensures Step(z, rs[|rs| - 1]).Some?
    ensures Overlays(x, Step(y, rs[|rs| - 1]).value, Step(z, rs[|rs| - 1]).value, rs)
  {
    FieldsUnroll(rs);
    hide LastInt32, LastBytes, LastInt64, AllOf, ToInt32, ToInt64, ValidUtf8, PairMessage.Parse, PairMessage.ParsedAll;
  }

  lemma VarintOverlays(x: HeaderValue, y: HeaderValue, z: HeaderValue, rs: seq<Record>)
    requires rs != [] && Overlays(x, y, z, rs[..|rs| - 1]) && Step(y, rs[|rs| - 1]).Some?
    requires Known(rs[|rs| - 1]) && rs[|rs| - 1].value.VarintValue?
    ensures Step(z, rs[|rs| - 1]).Some?
    ensures Overlays(x, Step(y, rs[|rs| - 1]).value, Step(z, rs[|rs| - 1]).value, rs)
  {
    FieldsUnroll(rs);
    hide LastInt32, LastBytes, LastInt64, AllOf, ToInt32, ToInt64, ValidUtf8, PairMessage.Parse, PairMessage.ParsedAll;
    var r := rs[|rs| - 1];
    var y1, z1 := Step(y, r).value, Step(z, r).value;
    match r.number {
      case 1 => assert y1 == y.(version := Some(ToInt32(r.value.v))) && z1 == z.(version := Some(ToInt32(r.value.v)));
      case 3 => assert y1 == y.(logfileOffset := ToInt64(r.value.v)) && z1 == z.(logfileOffset := ToInt64(r.value.v));
      case 4 => assert y1 == y.(serverId := ToInt64(r.value.v)) && z1 == z.(serverId := ToInt64(r.value.v));
      case 6 => assert y1 == y.(executeTime := ToInt64(r.value.v)) && z1 == z.(executeTime := ToInt64(r.value.v));
      case 7 => assert y1 == y.(sourceType := Some(ToInt32(r.value.v)))
          && z1 == z.(sourceType := Some(ToInt32(r.value.v)));
      case 10 => assert y1 == y.(eventLength := ToInt64(r.value.v)) && z1 == z.(eventLength := ToInt64(r.value.v));
      case _ => assert y1 == y.(eventType := Some(ToInt32(r.value.v)))
          && z1 == z.(eventType := Some(ToInt32(r.value.v)));
    }
  }

  lemma BytesOverlays(x: HeaderValue, y: HeaderValue, z: HeaderValue, rs: seq<Record>)
    requires rs != [] && Overlays(x, y, z, rs[..|rs| - 1]) && Step(y, rs[|rs| - 1]).Some?
    requires Known(rs[|rs| - 1]) && rs[|rs| - 1].value.LenValue? && rs[|rs| - 1].number !in {12}
    ensures Step(z, rs[|rs| - 1]).Some?
    ensures Overlays(x, Step(y, rs[|rs| - 1]).value, Step(z, rs[|rs| - 1]).value, rs)
  {
    FieldsUnroll(rs);
    hide LastInt32, LastBytes, LastInt64, AllOf, ToInt32, ToInt64, ValidUtf8, PairMessage.Parse, PairMessage.ParsedAll;
    var r := rs[|rs| - 1];
    var y1, z1 := Step(y, r).value, Step(z, r).value;
    match r.number {
      case 2 => assert y1 == y.(logfileName := r.value.data) && z1 == z.(logfileName := r.value.data);
      case 5 => assert y1 == y.(serverenCode := r.value.data) && z1 == z.(serverenCode := r.value.data);
      case 8 => assert y1 == y.(schemaName := r.value.data) && z1 == z.(schemaName := r.value.data);
      case 9 => assert y1 == y.(tableName := r.value.data) && z1 == z.(tableName := r.value.data);
      case _ => assert y1 == y.(gtid := r.value.data) && z1 == z.(gtid := r.value.data);
    }
  }

  lemma ListOverlays(x: HeaderValue, y: HeaderValue, z: HeaderValue, rs: seq<Record>)
    requires rs != [] && Overlays(x, y, z, rs[..|rs| - 1]) && Step(y, rs[|rs| - 1]).Some?
    requires Known(rs[|rs| - 1]) && rs[|rs| - 1].number in {12}
    ensures Step(z, rs[|rs| - 1]).Some?
    ensures Overlays(x, Step(y, rs[|rs| - 1]).value, Step(z, rs[|rs| - 1]).value, rs)
  {
    FieldsUnroll(rs);
    hide LastInt32, LastBytes, LastInt64, AllOf, ToInt32, ToInt64, ValidUtf8, PairMessage.Parse, PairMessage.ParsedAll;
    var init, r := rs[..|rs| - 1], rs[|rs| - 1];
    if r.number == 12 {
      var p := PairMessage.Parse(r.value.data).value;
      PairMessage.OneMoreParsed(AllOf(Known, 12, init), y.props, r, p);
      assert x.props + (y.props + [p]) == (x.props + y.props) + [p];
    }
  }

  lemma StepOverlays(x: HeaderValue, y: HeaderValue, z: HeaderValue, rs: seq<Record>)
    requires rs != [] && Overlays(x, y, z, rs[..|rs| - 1]) && Step(y, rs[|rs| - 1]).Some?
    ensures Step(z, rs[|rs| - 1]).Some?
    ensures Overlays(x, Step(y, rs[|rs| - 1]).value, Step(z, rs[|rs| - 1]).value, rs)
  {
    var r := rs[|rs| - 1];
    hide Overlays, Step;
    if !Known(r) {
      UnknownOverlays(x, y, z, rs);
    } else if r.value.VarintValue? {
      VarintOverlays(x, y, z, rs);
    } else if r.number in {12} {
      ListOverlays(x, y, z, rs);
    } else {
      BytesOverlays(x, y, z, rs);
    }
  }

  /** Last One Wins: what any records do to x, told by what they do to the empty message. */
  lemma {:induction false} LastOneWins(x: HeaderValue, rs: seq<Record>)
    requires Fold(Step, EMPTY, rs).Some?
    ensures Fold(Step, x, rs).Some?
    ensures Overlays(x, Fold(Step, EMPTY, rs).value, Fold(Step, x, rs).value, rs)
    decreases |rs|
  {
    if rs == [] {
      assert x.props + [] == x.props;
      assert x.unknown + [] == x.unknown;
    } else {
      var init := rs[..|rs| - 1];
      FoldLast(Step, EMPTY, rs);
      FoldLast(Step, x, rs);
      hide Step, Overlays, Fold;
      LastOneWins(x, init);
      StepOverlays(x, Fold(Step, EMPTY, init).value, Fold(Step, x, init).value, rs);
    }
  }

  /** Folding records into x is merging what they fold to, exactly if x keeps the defaults they
      spell out: a default that is spelled out overwrites, and a merge overlooks it. */
  lemma FoldsLikeMerged(x: HeaderValue, rs: seq<Record>)
    requires Fold(Step, EMPTY, rs).Some?
    ensures Fold(Step, x, rs) == Some(Merge(x, Fold(Step, EMPTY, rs).value)) <==> KeepsDefaults(x, rs)
  {
    LastOneWins(x, rs);
    hide LastInt32, LastBytes, LastInt64, Fold, PairMessage.ParsedAll, AllOf;
  }

  /** Parsing b into x is merging the parse of b, exactly if x keeps the defaults b spells out. */
  lemma MergesLikeParsed(x: HeaderValue, b: Bytes)
    requires Parse(b).Some?
    ensures ParseFrom(x, b) == Some(Merge(x, Parse(b).value)) <==> KeepsDefaults(x, DecodeRecords(b).value)
  {
    FoldsLikeMerged(x, DecodeRecords(b).value);
    hide Merge, KeepsDefaults, Fold;
  }

  /** The merge law on any bytes that parse. */
  lemma ConcatMerges(a: Bytes, b: Bytes)
    requires Parse(a).Some? && Parse(b).Some?
    ensures Parse(a + b) == Some(Merge(Parse(a).value, Parse(b).value))
       <==> KeepsDefaults(Parse(a).value, DecodeRecords(b).value)
  {
    MergesLikeParsed(Parse(a).value, b);
    hide ParseInto, Merge, KeepsDefaults;
    ParseConcat(Step, EMPTY, a, b);
  }

  // --------------------------------------------------------- nodes of a tree

  /** A message inside its parent: its members and its cached size. */
  type HeaderNode = Node<HeaderFields<PairMessage.PairNode>>

  function ValueOf(c: HeaderFields<PairMessage.PairNode>): HeaderValue {
    HeaderFields(
      c.version, c.logfileName, c.logfileOffset, c.serverId, c.serverenCode, c.executeTime, c.sourceType,
      c.schemaName, c.tableName, c.eventLength, c.eventType, PairMessage.ValuesOf(c.props), c.gtid, c.unknown)
  }

  /** Every cached size in the tree is the size of what it caches. */
  ghost predicate Sized(n: HeaderNode) {
    && n.cachedSize == ToCachedSize(Size(ValueOf(n.contents)))
    && PairMessage.AllSized(n.contents.props)
  }

  lemma PartsReady(n: HeaderNode)
    requires Sized(n) && Size(ValueOf(n.contents)) <= INT_MAX
    ensures PairMessage.Ready(n.contents.props)
  {
    PartsFit(ValueOf(n.contents));
    hide PairMessage.Size, PairMessage.Sized, PairMessage.ValueOf, PairMessage.ValuesOf;
    hide Size, ToCachedSize;
    assert forall i :: 0 <= i < |n.contents.props| ==>
             PairMessage.ValuesOf(n.contents.props)[i] in ValueOf(n.contents).props;
  }

  // The serialiser is modelled in two parts: fields 1 to 7, and fields 8 to 13.

  function FirstRecords(m: HeaderValue): seq<Record> {
    IntOneof(1, m.version) + BytesField(2, m.logfileName) + IntField(3, m.logfileOffset) +
    IntField(4, m.serverId) + BytesField(5, m.serverenCode) + IntField(6, m.executeTime) +
    IntOneof(7, m.sourceType)
  }

  function LastRecords(recs: seq<Record>, m: HeaderValue): seq<Record> {
    recs + BytesField(8, m.schemaName) + BytesField(9, m.tableName) + IntField(10, m.eventLength) +
    IntOneof(11, m.eventType) + PairMessage.RecordsOfAll(12, m.props) + BytesField(13, m.gtid)
  }

  function FirstSize(m: HeaderValue): nat {
    IntOneofSize(m.version) + BytesFieldSize(m.logfileName) + IntFieldSize(m.logfileOffset) +
    IntFieldSize(m.serverId) + BytesFieldSize(m.serverenCode) + IntFieldSize(m.executeTime) +
    IntOneofSize(m.sourceType)
  }

  function LastSize(m: HeaderValue): nat {
    BytesFieldSize(m.schemaName) + BytesFieldSize(m.tableName) + IntFieldSize(m.eventLength) +
    IntOneofSize(m.eventType) + PairMessage.SizeOfAll(m.props) + BytesFieldSize(m.gtid)
  }

  lemma PartsInOrder(m: HeaderValue)
    ensures LastRecords(FirstRecords(m), m) == KnownRecords(m)
    ensures FirstSize(m) + LastSize(m) + RecordsSize(m.unknown) == Size(m)
  {
    hide IntField, BoolField, BytesField, IntOneof, BoolOneof, RecordsSize;
    hide IntFieldSize, BoolFieldSize, BytesFieldSize, IntOneofSize, BoolOneofSize;
    hide PairMessage.RecordsOfAll, PairMessage.SizeOfAll;
  }

  // ------------------------------------------------------ the mutable message

  /** What the loop does with the record after a tag: ok says whether it goes on, from m1 and rest1. */
  ghost predicate Merges(tag: nat, m0: HeaderValue, rest0: Bytes, ok: bool, m1: HeaderValue, rest1: Bytes)
    requires tag < TWO32
  {
    MergedRecord(Step, tag, m0, rest0, ok, m1, rest1)
  }

  /** What reading a length-prefixed message into m0 does: ok, and then m1 and rest1. */
  ghost predicate Reads(m0: HeaderValue, rest0: Bytes, ok: bool, m1: HeaderValue, rest1: Bytes) {
    match ReadPayload(2, rest0)
    case None => !ok
    case Some((w, k)) => ParseFrom(m0, w.data) == (if ok then Some(m1) else None) && (ok ==> rest1 == rest0[k..])
  }

  lemma Turns(m: HeaderValue, b: Bytes, tag: nat, n: nat, ok: bool, m1: HeaderValue, rest1: Bytes)
    requires b != [] && ReadTag(b) == Some((tag, n))
    requires Merges(tag, m, b[n..], ok, m1, rest1)
    ensures ok ==> ParseFrom(m, b) == ParseFrom(m1, rest1) && |rest1| < |b|
    ensures !ok ==> ParseFrom(m, b) == None
  {
    hide ReadTag, ReadAfterTag, ParseInto, Step;
    LoopTurns(Step, m, b, tag, n, ok, m1, rest1);
  }

  /** The loop stops at tag 0: rightly at the end of the window, wrongly anywhere else. */
  lemma Stops(m: HeaderValue, b: Bytes)
    requires b == [] || ReadTag(b) == None || ReadTag(b).value.0 == 0
    ensures ParseFrom(m, b) == if b == [] then Some(m) else None
  {
    hide ParseInto;
    LoopStops(Step, m, b);
  }

  class Header {
    var version: Option<int32>
    var logfileName: Bytes
    var logfileOffset: int64
    var serverId: int64
    var serverenCode: Bytes
    var executeTime: int64
    var sourceType: Option<int32>
    var schemaName: Bytes
    var tableName: Bytes
    var eventLength: int64
    var eventType: Option<int32>
    var props: seq<PairMessage.PairNode>
    var gtid: Bytes
    var unknown: seq<Record>
    var cachedSize: int32

    function Contents(): HeaderFields<PairMessage.PairNode>
      reads this
    {
      HeaderFields(version, logfileName, logfileOffset, serverId, serverenCode, executeTime, sourceType,
        schemaName, tableName, eventLength, eventType, props, gtid, unknown)
    }

    function AsNode(): HeaderNode
      reads this
    {
      Node(Contents(), cachedSize)
    }

    ghost function Value(): HeaderValue
      reads this
    {
      ValueOf(AsNode().contents)
    }

    constructor ()
      ensures Value() == EMPTY
    {
      version := None;
      logfileName := [];
      logfileOffset := 0;
      serverId := 0;
      serverenCode := [];
      executeTime := 0;
      sourceType := None;
      schemaName := [];
      tableName := [];
      eventLength := 0;
      eventType := None;
      props := [];
      gtid := [];
      unknown := [];
      cachedSize := 0;
    }

    /** A message taken out of its parent. */
    constructor At(node: HeaderNode)
      ensures AsNode() == node
    {
      version := node.contents.version;
      logfileName := node.contents.logfileName;
      logfileOffset := node.contents.logfileOffset;
      serverId := node.contents.serverId;
      serverenCode := node.contents.serverenCode;
      executeTime := node.contents.executeTime;
      sourceType := node.contents.sourceType;
      schemaName := node.contents.schemaName;
      tableName := node.contents.tableName;
      eventLength := node.contents.eventLength;
      eventType := node.contents.eventType;
      props := node.contents.props;
      gtid := node.contents.gtid;
      unknown := node.contents.unknown;
      cachedSize := node.cachedSize;
    }

    constructor Copy(from: Header)
      ensures Value() == from.Value()
    {
      PairMessage.ValuesOfNothing();
      hide PairMessage.ValuesOf, PairMessage.ValueOf;
      var propsCopy := PairMessage.MergeAll([], from.props);
      assert PairMessage.ValuesOf(propsCopy) == PairMessage.ValuesOf(from.props);
      unknown := from.unknown;
      props := propsCopy;
      logfileName := if |from.logfileName| > 0 then from.logfileName else [];
      serverenCode := if |from.serverenCode| > 0 then from.serverenCode else [];
      schemaName := if |from.schemaName| > 0 then from.schemaName else [];
      tableName := if |from.tableName| > 0 then from.tableName else [];
      gtid := if |from.gtid| > 0 then from.gtid else [];
      logfileOffset := from.logfileOffset;
      serverId := from.serverId;
      executeTime := from.executeTime;
      eventLength := from.eventLength;
      version := from.version;
      sourceType := from.sourceType;
      eventType := from.eventType;
      cachedSize := 0;
    }

    method Clear()
      modifies this
      ensures Value() == EMPTY
    {
      props := [];
      ClearStrings();
      ClearScalars();
      ClearPresence();
      unknown := [];
    }

    /** Clears the string members. */
    method ClearStrings()
      modifies this
      ensures cachedSize == old(cachedSize)
      ensures Contents() == old(Contents()).(logfileName := [], serverenCode := [], schemaName := [],
          tableName := [], gtid := [])
    {
      logfileName := [];
      serverenCode := [];
      schemaName := [];
      tableName := [];
      gtid := [];
    }

    /** Clears the implicit-presence numbers and flags. */
    method ClearScalars()
      modifies this
      ensures cachedSize == old(cachedSize)
      ensures Contents() == old(Contents()).(logfileOffset := 0, serverId := 0, executeTime := 0,
          eventLength := 0)
    {
      logfileOffset := 0;
      serverId := 0;
      executeTime := 0;
      eventLength := 0;
    }

    /** Clears the oneofs. */
    method ClearPresence()
      modifies this
      ensures cachedSize == old(cachedSize)
      ensures Contents() == old(Contents()).(version := None, sourceType := None, eventType := None)
    {
      version := None;
      sourceType := None;
      eventType := None;
    }

    method MergeFrom(from: Header)
      requires from != this
      modifies this
      ensures Value() == Merge(old(Value()), from.Value())
    {
      hide MergeOneof, MergeBytes, MergeInt64;
      hide PairMessage.ValuesOf;
      var c := from.Contents();
      unknown := unknown + c.unknown;
      props := PairMessage.MergeAll(props, c.props);
      MergeStrings(c);
      MergeScalars(c);
      MergePresence(c);
    }

    /** Merges the string members. */
    method MergeStrings(c: HeaderFields<PairMessage.PairNode>)
      modifies this
      ensures cachedSize == old(cachedSize)
      ensures Contents() == old(Contents()).(logfileName := MergeBytes(old(logfileName), c.logfileName),
          serverenCode := MergeBytes(old(serverenCode), c.serverenCode),
          schemaName := MergeBytes(old(schemaName), c.schemaName),
          tableName := MergeBytes(old(tableName), c.tableName), gtid := MergeBytes(old(gtid), c.gtid))
    {
      hide MergeBytes;
      logfileName := MergeBytes(logfileName, c.logfileName);
      serverenCode := MergeBytes(serverenCode, c.serverenCode);
      schemaName := MergeBytes(schemaName, c.schemaName);
      tableName := MergeBytes(tableName, c.tableName);
      gtid := MergeBytes(gtid, c.gtid);
    }

    /** Merges the implicit-presence numbers and flags. */
    method MergeScalars(c: HeaderFields<PairMessage.PairNode>)
      modifies this
      ensures cachedSize == old(cachedSize)
      ensures Contents() == old(Contents()).(logfileOffset := MergeInt64(old(logfileOffset), c.logfileOffset),
          serverId := MergeInt64(old(serverId), c.serverId),
          executeTime := MergeInt64(old(executeTime), c.executeTime),
          eventLength := MergeInt64(old(eventLength), c.eventLength))
    {
      hide MergeInt64;
      logfileOffset := MergeInt64(logfileOffset, c.logfileOffset);
      serverId := MergeInt64(serverId, c.serverId);
      executeTime := MergeInt64(executeTime, c.executeTime);
      eventLength := MergeInt64(eventLength, c.eventLength);
    }

    /** Merges the oneofs. */
    method MergePresence(c: HeaderFields<PairMessage.PairNode>)
      modifies this
      ensures cachedSize == old(cachedSize)
      ensures Contents() == old(Contents()).(version := MergeOneof(old(version), c.version),
          sourceType := MergeOneof(old(sourceType), c.sourceType),
          eventType := MergeOneof(old(eventType), c.eventType))
    {
      hide MergeOneof;
      version := MergeOneof(version, c.version);
      sourceType := MergeOneof(sourceType, c.sourceType);
      eventType := MergeOneof(eventType, c.eventType);
    }

    method CopyFrom(from: Header)
      modifies this
      ensures Value() == old(from.Value())
    {
      if from == this { return; }
      hide Merge;
      Clear();
      MergeFrom(from);
      MergeLaws(from.Value(), EMPTY, EMPTY);
    }

    method MergePartialFromCodedStream(input: CodedInputStream) returns (ok: bool)
      requires input.Valid()
      modifies this, input
      ensures input.Valid() && (ok ==> input.limit == old(input.limit))
      ensures ok && input.legitimateEnd ==> input.Rest() == []
      ensures (if ok && input.legitimateEnd then Some(Value()) else None)
           == ParseFrom(old(Value()), old(input.Rest()))
    {
      hide Merges, ReadTag, ParseFrom, Value, CodedInputStream.Rest;
      while true
        invariant input.Valid() && input.limit == old(input.limit)
        invariant ParseFrom(Value(), input.Rest()) == ParseFrom(old(Value()), old(input.Rest()))
        decreases |input.Rest()|
      {
        ghost var m, rest := Value(), input.Rest();
        var tag, known := input.ReadTagWithCutoffNoLastTag(127);
        if tag == 0 {
          Stops(m, rest);
          return true;
        }
        ok := MergeRecord(tag, known, input);
        Turns(m, rest, tag, ReadTag(rest).value.1, ok, Value(), input.Rest());
        if !ok { return false; }
      }
    }

    /** The switch of the parse loop. Outside sub-messages every case reads the payload its wire
        type calls for, so the read stands before the switch. */
    method MergeRecord(tag: nat, known: bool, input: CodedInputStream) returns (ok: bool)
      requires input.Valid() && tag < TWO32 && (known <==> 1 <= tag <= 127)
      modifies this, input
      ensures input.Valid() && (ok ==> input.limit == old(input.limit))
      ensures Merges(tag, old(Value()), old(input.Rest()), ok, Value(), input.Rest())
    {
      hide ReadPayload, CodedInputStream.Rest, ToInt32, ToInt64;
      hide PairMessage.ValuesOf;
      if known && tag / 8 == 12 && tag % 256 == 98 {
        ok := AddProps(input);
        return;
      }
      if tag / 8 == 0 { return false; }
      var w;
      ok, w := input.ReadPayloadOf(tag % 8);
      if !ok { return false; }
      assert Contents() == old(Contents());
      hide Contents, Step;
      if known && tag in {8, 24, 32, 48, 56, 80, 88} {
        SetVarint(tag / 8, w.v);
        return;
      }
      if known && tag in {18, 42, 66, 74, 106} {
        ok := SetBytes(tag / 8, w.data);
        return;
      }
      AddUnknown(Record(tag / 8, w));
    }

    /** The cases whose payload is a varint. */
    method SetVarint(number: nat, v: uint64)
      requires number in {1, 3, 4, 6, 7, 10, 11}
      modifies this
      ensures Some(Value()) == Step(old(Value()), Record(number, VarintValue(v)))
    {
      hide ToInt32, ToInt64;
      hide PairMessage.ValuesOf;
      match number {
        case 1 => version := Some(ToInt32(v));
        case 3 => logfileOffset := ToInt64(v);
        case 4 => serverId := ToInt64(v);
        case 6 => executeTime := ToInt64(v);
        case 7 => sourceType := Some(ToInt32(v));
        case 10 => eventLength := ToInt64(v);
        case _ => eventType := Some(ToInt32(v));
      }
    }

    /** The cases whose payload is a string: it is stored, and then checked. */
    method SetBytes(number: nat, s: Bytes) returns (ok: bool)
      requires number in {2, 5, 8, 9, 13}
      modifies this
      ensures (if ok then Some(Value()) else None) == Step(old(Value()), Record(number, LenValue(s)))
    {
      hide ValidUtf8;
      hide PairMessage.ValuesOf;
      match number {
        case 2 => logfileName := s;
        case 5 => serverenCode := s;
        case 8 => schemaName := s;
        case 9 => tableName := s;
        case _ => gtid := s;
      }
      ok := ValidUtf8(s);
    }

    /** The library's SkipField: the record is kept as unknown. */
    method AddUnknown(r: Record)
      requires !Known(r)
      modifies this
      ensures Some(Value()) == Step(old(Value()), r)
    {
      unknown := unknown + [r];
    }

    /** A new element at the end of props, read from the input. */
    method AddProps(input: CodedInputStream) returns (ok: bool)
      requires input.Valid()
      modifies this, input
      ensures input.Valid() && (ok ==> input.limit == old(input.limit))
      ensures Merges(98, old(Value()), old(input.Rest()), ok, Value(), input.Rest())
    {
      hide ReadPayload, CodedInputStream.Rest, PairMessage.ParseFrom;
      hide PairMessage.ValuesOf, PairMessage.ValueOf;
      var x := new PairMessage.Pair();
      ok := x.ReadMessage(input);
      var node := x.AsNode();
      PairMessage.ValuesOfAppend(props, node);
      props := props + [node];
    }

    /** A Header as a length-delimited field of another message. */
    method ReadMessage(input: CodedInputStream) returns (ok: bool)
      requires input.Valid()
      modifies this, input
      ensures input.Valid() && (ok ==> input.limit == old(input.limit))
      ensures Reads(old(Value()), old(input.Rest()), ok, Value(), input.Rest())
    {
      hide ReadPayload, ParseFrom, Value;
      var pushed, outer := input.PushLength();
      if !pushed { return false; }
      ok := MergePartialFromCodedStream(input);
      ok := ok && input.legitimateEnd;
      if ok { input.PopLimit(outer); }
    }

    method ByteSizeLong() returns (total: nat)
      modifies this
      ensures total == Size(Value())
      ensures Value() == old(Value()) && Sized(AsNode())
    {
      hide RecordsSize, ToCachedSize;
      hide PairMessage.SizeOfAll, PairMessage.ValuesOf, PairMessage.AllSized;
      var c := Contents();
      NoRecordsSize(c.unknown);
      total := 0;
      if |c.unknown| > 0 { total := total + RecordsSize(c.unknown); }
      hide BytesFieldSize, IntFieldSize, IntOneofSize;
      var propsSize, propsSized := PairMessage.ByteSizeOfAll(c.props);
      props := propsSized;
      total := total + propsSize;
      total := total + BytesFieldSize(c.logfileName);
      total := total + BytesFieldSize(c.serverenCode);
      total := total + BytesFieldSize(c.schemaName);
      total := total + BytesFieldSize(c.tableName);
      total := total + BytesFieldSize(c.gtid);
      total := total + IntFieldSize(c.logfileOffset);
      total := total + IntFieldSize(c.serverId);
      total := total + IntFieldSize(c.executeTime);
      total := total + IntFieldSize(c.eventLength);
      total := total + IntOneofSize(c.version);
      total := total + IntOneofSize(c.sourceType);
      total := total + IntOneofSize(c.eventType);
      cachedSize := ToCachedSize(total);
    }

    /** What the serialiser needs of the members, and what it writes. */
    lemma ReadyToWrite()
      requires Sized(AsNode()) && Size(Value()) <= INT_MAX
      ensures ValueOf(Contents()) == Value() && Value().unknown == Contents().unknown
      ensures PairMessage.Ready(Contents().props)
      ensures Encode(Value()) == EncodeRecords(KnownRecords(Value()) + Value().unknown)
    {
      PartsReady(AsNode());
      hide Sized, Size, KnownRecords, EncodeRecords, PairMessage.ValuesOf, PairMessage.Ready;
    }

    /** The guarded writes of fields 1 to 7. */
    method WriteFirstFieldsToArray(c: HeaderFields<PairMessage.PairNode>, target: array<byte>, at: nat,
                                 ghost pre: Bytes)
      returns (end: nat)
      requires Wrote(target, at, pre, [])
      requires at + FirstSize(ValueOf(c)) <= target.Length
      modifies target
      ensures end == at + FirstSize(ValueOf(c))
      ensures Wrote(target, end, pre, FirstRecords(ValueOf(c)))
    {
      hide Wrote, IntField, BoolField, BytesField, IntOneof, BoolOneof;
      hide IntFieldSize, BoolFieldSize, BytesFieldSize, IntOneofSize, BoolOneofSize;
      hide PairMessage.RecordsOfAll, PairMessage.SizeOfAll, PairMessage.ValuesOf, PairMessage.ValueOf,
           PairMessage.Ready;
      ghost var v, done := ValueOf(c), [];
      end := at;
      end := WriteIntOneofToArray(1, c.version, target, end, pre, done);
      NothingBefore(IntOneof(1, v.version));
      done := IntOneof(1, v.version);
      end := WriteBytesFieldToArray(2, c.logfileName, target, end, pre, done);
      done := done + BytesField(2, v.logfileName);
      end := WriteIntFieldToArray(3, c.logfileOffset, target, end, pre, done);
      done := done + IntField(3, v.logfileOffset);
      end := WriteIntFieldToArray(4, c.serverId, target, end, pre, done);
      done := done + IntField(4, v.serverId);
      end := WriteBytesFieldToArray(5, c.serverenCode, target, end, pre, done);
      done := done + BytesField(5, v.serverenCode);
      end := WriteIntFieldToArray(6, c.executeTime, target, end, pre, done);
      done := done + IntField(6, v.executeTime);
      end := WriteIntOneofToArray(7, c.sourceType, target, end, pre, done);
      done := done + IntOneof(7, v.sourceType);
    }

    /** The guarded writes of fields 8 to 13. */
    method WriteLastFieldsToArray(c: HeaderFields<PairMessage.PairNode>, target: array<byte>, at: nat,
                                ghost pre: Bytes, ghost recs: seq<Record>)
      returns (end: nat)
      requires PairMessage.Ready(c.props)
      requires Wrote(target, at, pre, recs)
      requires at + LastSize(ValueOf(c)) <= target.Length
      modifies target
      ensures end == at + LastSize(ValueOf(c))
      ensures Wrote(target, end, pre, LastRecords(recs, ValueOf(c)))
    {
      hide Wrote, IntField, BoolField, BytesField, IntOneof, BoolOneof;
      hide IntFieldSize, BoolFieldSize, BytesFieldSize, IntOneofSize, BoolOneofSize;
      hide PairMessage.RecordsOfAll, PairMessage.SizeOfAll, PairMessage.ValuesOf, PairMessage.ValueOf,
           PairMessage.Ready;
      ghost var v, done := ValueOf(c), recs;
      end := at;
      end := WriteBytesFieldToArray(8, c.schemaName, target, end, pre, done);
      done := done + BytesField(8, v.schemaName);
      end := WriteBytesFieldToArray(9, c.tableName, target, end, pre, done);
      done := done + BytesField(9, v.tableName);
      end := WriteIntFieldToArray(10, c.eventLength, target, end, pre, done);
      done := done + IntField(10, v.eventLength);
      end := WriteIntOneofToArray(11, c.eventType, target, end, pre, done);
      done := done + IntOneof(11, v.eventType);
      end := PairMessage.WriteAllToArray(12, c.props, target, end, pre, done);
      done := done + PairMessage.RecordsOfAll(12, v.props);
      end := WriteBytesFieldToArray(13, c.gtid, target, end, pre, done);
      done := done + BytesField(13, v.gtid);
    }

    method InternalSerializeWithCachedSizesToArray(target: array<byte>, at: nat) returns (end: nat)
      requires Sized(AsNode()) && Size(Value()) <= INT_MAX
      requires at + Size(Value()) <= target.Length
      modifies target
      ensures end == at + Size(Value())
      ensures target[..end] == old(target[..at]) + Encode(Value())
    {
      var c := Contents();
      ghost var v, pre := ValueOf(c), target[..at];
      ReadyToWrite();
      PartsInOrder(v);
      hide *;
      NothingWrote(target, at);
      end := at;
      end := WriteFirstFieldsToArray(c, target, end, pre);
      end := WriteLastFieldsToArray(c, target, end, pre, FirstRecords(v));
      end := SerializeUnknownFieldsToArray(c.unknown, target, end, pre, KnownRecords(v));
      WroteMeans(target, end, pre, KnownRecords(v) + c.unknown);
    }

    method SerializeWithCachedSizes(output: CodedOutputStream)
      requires Sized(AsNode()) && Size(Value()) <= INT_MAX
      modifies output
      ensures output.written == old(output.written) + Encode(Value())
    {
      var c := Contents();
      ghost var v, pre, done := ValueOf(c), output.written, [];
      PartsReady(AsNode());
      hide CodedOutputStream.Holds, EncodeRecords, IntField, BoolField, BytesField, IntOneof, BoolOneof;
      hide PairMessage.RecordsOfAll, PairMessage.ValuesOf, PairMessage.ValueOf, PairMessage.Ready;
      assert v == Value();
      hide Sized, Contents, AsNode, Value;
      output.HoldsNothing();
      output.WriteIntOneof(1, c.version, pre, done);
      NothingBefore(IntOneof(1, v.version));
      done := IntOneof(1, v.version);
      output.WriteBytesField(2, c.logfileName, pre, done);
      done := done + BytesField(2, v.logfileName);
      output.WriteIntField(3, c.logfileOffset, pre, done);
      done := done + IntField(3, v.logfileOffset);
      output.WriteIntField(4, c.serverId, pre, done);
      done := done + IntField(4, v.serverId);
      output.WriteBytesField(5, c.serverenCode, pre, done);
      done := done + BytesField(5, v.serverenCode);
      output.WriteIntField(6, c.executeTime, pre, done);
      done := done + IntField(6, v.executeTime);
      output.WriteIntOneof(7, c.sourceType, pre, done);
      done := done + IntOneof(7, v.sourceType);
      output.WriteBytesField(8, c.schemaName, pre, done);
      done := done + BytesField(8, v.schemaName);
      output.WriteBytesField(9, c.tableName, pre, done);
      done := done + BytesField(9, v.tableName);
      output.WriteIntField(10, c.eventLength, pre, done);
      done := done + IntField(10, v.eventLength);
      output.WriteIntOneof(11, c.eventType, pre, done);
      done := done + IntOneof(11, v.eventType);
      PairMessage.WriteAll(12, c.props, output, pre, done);
      done := done + PairMessage.RecordsOfAll(12, v.props);
      output.WriteBytesField(13, c.gtid, pre, done);
      done := done + BytesField(13, v.gtid);
      assert done == KnownRecords(v);
      output.SerializeUnknownFields(c.unknown, pre, done);
      assert done + c.unknown == Records(v);
      output.HoldsMeans(pre, Records(v));
    }
  }

  // ------------------------------------------- fields of this type

  method ByteSizeOfOne(node: HeaderNode) returns (total: nat, sized: HeaderNode)
    ensures total == Size(ValueOf(node.contents))
    ensures ValueOf(sized.contents) == ValueOf(node.contents) && Sized(sized)
  {
    hide ValueOf, Size, Sized, Header.AsNode, Header.Contents;
    var x := new Header.At(node);
    total := x.ByteSizeLong();
    sized := x.AsNode();
  }

  /** The length prefix is the cached size; the contents follow it. */
  method WriteOneToArray(n: nat, node: HeaderNode, target: array<byte>, at: nat, ghost pre: Bytes,
                         ghost recs: seq<Record>)
    returns (end: nat)
    requires n < 16
    requires Sized(node) && Size(ValueOf(node.contents)) <= INT_MAX
    requires Wrote(target, at, pre, recs)
    requires at + 1 + LengthDelimitedSize(Size(ValueOf(node.contents))) <= target.Length
    modifies target
    ensures end == at + 1 + LengthDelimitedSize(Size(ValueOf(node.contents)))
    ensures Wrote(target, end, pre, recs + [BytesRecord(n, Encode(ValueOf(node.contents)))])
  {
    ghost var v := ValueOf(node.contents);
    SizeIsLength(v);
    SmallSizeIsCached(Size(v));
    hide ValueOf, Size, Encode, EncodeRecords, Varint, VarintSize, ToCachedSize, Header.Contents;
    var x := new Header.At(node);
    end := WriteMessageHeadToArray(n, x.cachedSize, target, at, pre, recs);
    end := x.InternalSerializeWithCachedSizesToArray(target, end);
    MessageIsRecord(pre, recs, n, Encode(v));
  }

  /** Into the stream's buffer if it has room for the whole message, piecewise otherwise. */
  method WriteOne(n: nat, node: HeaderNode, output: CodedOutputStream, ghost pre: Bytes, ghost recs: seq<Record>)
    requires n < 16
    requires Sized(node) && Size(ValueOf(node.contents)) <= INT_MAX
    requires output.Holds(pre, recs)
    modifies output
    ensures output.Holds(pre, recs + [BytesRecord(n, Encode(ValueOf(node.contents)))])
  {
    ghost var v := ValueOf(node.contents);
    SizeIsLength(v);
    SmallSizeIsCached(Size(v));
    hide ValueOf, Size, Encode, EncodeRecords, Varint, VarintSize, ToCachedSize, Header.Contents;
    var x := new Header.At(node);
    var size: nat := x.cachedSize;
    output.Write(Varint(n * 8 + 2) + Varint(size));
    if output.HasDirectBuffer(size) {
      var buffer := new byte[size];
      var end := x.InternalSerializeWithCachedSizesToArray(buffer, 0);
      assert buffer[..end] == Encode(v);
      output.Write(buffer[..end]);
    } else {
      x.SerializeWithCachedSizes(output);
    }
    MessageIsRecord(pre, recs, n, Encode(v));
  }

  function ValueOfMember(n: Option<HeaderNode>): Option<HeaderValue> {
    match n case None => None case Some(x) => Some(ValueOf(x.contents))
  }

  /** The size of a member that may be absent; it leaves the cached size right. */
  method ByteSizeOfMember(n: Option<HeaderNode>) returns (total: nat, sized: Option<HeaderNode>)
    ensures total == SizeOfMember(ValueOfMember(n))
    ensures ValueOfMember(sized) == ValueOfMember(n) && SizedMember(sized)
  {
    hide ValueOf, Size, Sized, LengthDelimitedSize;
    total, sized := 0, None;
    if n.Some? {
      var size, node := ByteSizeOfOne(n.value);
      total, sized := 1 + LengthDelimitedSize(size), Some(node);
    }
  }

  ghost predicate SizedMember(n: Option<HeaderNode>) { n.Some? ==> Sized(n.value) }

  ghost predicate ReadyMember(n: Option<HeaderNode>) {
    n.Some? ==> Sized(n.value) && Size(ValueOf(n.value.contents)) <= INT_MAX
  }

  /** Merging into a member, which comes into being if it is absent and the other is not. */
  method MergeIntoMember(to: Option<HeaderNode>, from: Option<HeaderNode>) returns (r: Option<HeaderNode>)
    ensures ValueOfMember(r) == MergeMember(ValueOfMember(to), ValueOfMember(from))
  {
    hide Merge, ValueOf, Header.AsNode, Header.Contents;
    r := to;
    if from.Some? {
      var x := MutableMember(to);
      var y := new Header.At(from.value);
      x.MergeFrom(y);
      r := Some(x.AsNode());
    }
  }

  /** The library's mutable_ accessor: the member, allocated empty if it was absent. */
  method MutableMember(n: Option<HeaderNode>) returns (x: Header)
    ensures fresh(x) && x.Value() == (if n.Some? then ValueOf(n.value.contents) else EMPTY)
  {
    hide ValueOf, Header.Contents;
    if n.Some? { x := new Header.At(n.value); } else { x := new Header(); }
  }

  method WriteMemberToArray(n: nat, node: Option<HeaderNode>, target: array<byte>, at: nat, ghost pre: Bytes,
                            ghost recs: seq<Record>)
    returns (end: nat)
    requires n < 16 && ReadyMember(node) && Wrote(target, at, pre, recs)
    requires at + SizeOfMember(ValueOfMember(node)) <= target.Length
    modifies target
    ensures end == at + SizeOfMember(ValueOfMember(node))
    ensures Wrote(target, end, pre, recs + RecordsOfMember(n, ValueOfMember(node)))
  {
    hide Wrote, Size, Encode, ValueOf, Sized, LengthDelimitedSize;
    assert recs + [] == recs;
    end := at;
    if node.Some? { end := WriteOneToArray(n, node.value, target, at, pre, recs); }
  }

  method WriteMember(n: nat, node: Option<HeaderNode>, output: CodedOutputStream, ghost pre: Bytes,
                     ghost recs: seq<Record>)
    requires n < 16 && ReadyMember(node) && output.Holds(pre, recs)
    modifies output
    ensures output.Holds(pre, recs + RecordsOfMember(n, ValueOfMember(node)))
  {
    hide CodedOutputStream.Holds, Size, Encode, ValueOf, Sized;
    assert recs + [] == recs;
    if node.Some? { WriteOne(n, node.value, output, pre, recs); }
  }
}
