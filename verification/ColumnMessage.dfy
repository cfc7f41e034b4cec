/** Message Column: one field of a row, with presence for isNull and repeated properties. */
module ColumnMessage {
  import opened Wire
  import opened Codec
  import opened Fields
  import opened CodedStream
  import PairMessage

  /** The members of the message; its sub-messages are values or nodes. */
  datatype ColumnFields<P> = ColumnFields(
    index: int32,
    sqlType: int32,
    name: Bytes,
    isKey: bool,
    updated: bool,
    isNull: Option<bool>,
    props: seq<P>,
    value: Bytes,
    length: int32,
    mysqlType: Bytes,
    unknown: seq<Record>)

  type ColumnValue = ColumnFields<PairMessage.PairValue>

  const EMPTY: ColumnValue := ColumnFields(0, 0, [], false, false, None, [], [], 0, [], [])

  // ---------------------------------------------------- what the codec means

  /** The records the parser stores in a field; all others it keeps as unknown. */
  predicate Known(r: Record) {
    match r.number
    case 1 => r.value.VarintValue?
    case 2 => r.value.VarintValue?
    case 3 => r.value.LenValue?
    case 4 => r.value.VarintValue?
    case 5 => r.value.VarintValue?
    case 6 => r.value.VarintValue?
    case 7 => r.value.LenValue?
    case 8 => r.value.LenValue?
    case 9 => r.value.VarintValue?
    case 10 => r.value.LenValue?
    case _ => false
  }

  /** A record that does not stop the parser: a string must be UTF-8, a sub-message must parse. */
  predicate Acceptable(r: Record) {
    match r.number
    case 3 => r.value.LenValue? ==> ValidUtf8(r.value.data)
    case 7 => r.value.LenValue? ==> PairMessage.Parse(r.value.data).Some?
    case 8 => r.value.LenValue? ==> ValidUtf8(r.value.data)
    case 10 => r.value.LenValue? ==> ValidUtf8(r.value.data)
    case _ => true
  }

  function Step(m: ColumnValue, r: Record): Option<ColumnValue> {
    if !Known(r) then Some(m.(unknown := m.unknown + [r]))
    else
      match r.number
      case 1 => Some(m.(index := ToInt32(r.value.v)))
      case 2 => Some(m.(sqlType := ToInt32(r.value.v)))
      case 3 => if ValidUtf8(r.value.data) then Some(m.(name := r.value.data)) else None
      case 4 => Some(m.(isKey := r.value.v != 0))
      case 5 => Some(m.(updated := r.value.v != 0))
      case 6 => Some(m.(isNull := Some(r.value.v != 0)))
      case 7 =>
        (match PairMessage.Parse(r.value.data)
         case None => None
         case Some(x) => Some(m.(props := m.props + [x])))
      case 8 => if ValidUtf8(r.value.data) then Some(m.(value := r.value.data)) else None
      case 9 => Some(m.(length := ToInt32(r.value.v)))
      case _ => if ValidUtf8(r.value.data) then Some(m.(mysqlType := r.value.data)) else None
  }

  /** The records of the fields, in the order they are written. */
  function KnownRecords(m: ColumnValue): seq<Record> {
    IntField(1, m.index) + IntField(2, m.sqlType) + BytesField(3, m.name) + BoolField(4, m.isKey) +
    BoolField(5, m.updated) + BoolOneof(6, m.isNull) + PairMessage.RecordsOfAll(7, m.props) +
    BytesField(8, m.value) + IntField(9, m.length) + BytesField(10, m.mysqlType)
  }

  function Records(m: ColumnValue): seq<Record> { KnownRecords(m) + m.unknown }

  function Encode(m: ColumnValue): Bytes { EncodeRecords(Records(m)) }

  /** Summed in the order of ByteSizeLong, which is not the order of emission. */
  function Size(m: ColumnValue): nat {
    RecordsSize(m.unknown) + PairMessage.SizeOfAll(m.props) + BytesFieldSize(m.name) +
    BytesFieldSize(m.value) + BytesFieldSize(m.mysqlType) + IntFieldSize(m.index) + IntFieldSize(m.sqlType) +
    BoolFieldSize(m.isKey) + BoolFieldSize(m.updated) + IntFieldSize(m.length) + BoolOneofSize(m.isNull)
  }

  function Merge(x: ColumnValue, y: ColumnValue): ColumnValue {
    ColumnFields(
      index := MergeInt32(x.index, y.index),
      sqlType := MergeInt32(x.sqlType, y.sqlType),
      name := MergeBytes(x.name, y.name),
      isKey := MergeBool(x.isKey, y.isKey),
      updated := MergeBool(x.updated, y.updated),
      isNull := MergeOneof(x.isNull, y.isNull),
      props := x.props + y.props,
      value := MergeBytes(x.value, y.value),
      length := MergeInt32(x.length, y.length),
      mysqlType := MergeBytes(x.mysqlType, y.mysqlType),
      unknown := x.unknown + y.unknown)
  }

  /** The messages a parser can produce. */
  ghost predicate Valid(m: ColumnValue) {
    && ValidUtf8(m.name)
    && ValidUtf8(m.value)
    && ValidUtf8(m.mysqlType)
    && (forall x :: x in m.props ==> PairMessage.Valid(x))
    && UnknownTo(Known, m.unknown)
  }

  /** Parsing b into m: the fold of Step over the records of b. */
  function ParseFrom(m: ColumnValue, b: Bytes): Option<ColumnValue> { ParseInto(Step, m, b) }

  function Parse(b: Bytes): Option<ColumnValue> { ParseFrom(EMPTY, b) }

  /** A message over the two-gigabyte limit of the library is not serialised. */
  function Serialize(m: ColumnValue): Option<Bytes> {
    if Size(m) <= INT_MAX then Some(Encode(m)) else None
  }

  /** A repeated field of this type: its records, and their size. */
  function RecordsOfAll(n: nat, xs: seq<ColumnValue>): seq<Record> { MessageFields(n, Encode, xs) }

  function SizeOfAll(xs: seq<ColumnValue>): nat { |xs| + RepeatedSize(Size, xs) }

  /** Messages that records of such a field hold, one each, in order. */
  ghost predicate ParsedAll(rs: seq<Record>, xs: seq<ColumnValue>) {
    |rs| == |xs| &&
    forall i :: 0 <= i < |rs| ==> rs[i].value.LenValue? && Parse(rs[i].value.data) == Some(xs[i])
  }

  // -------------------------------------------------------------------- laws

  lemma SizeIsLength(m: ColumnValue)
    ensures |Encode(m)| == Size(m)
  {
    hide RecordsSize, EncodeRecords, Varint, VarintSize;
    hide PairMessage.RecordsOfAll, PairMessage.SizeOfAll;
    hide IntField, BoolField, BytesField, IntOneof, BoolOneof;
    hide IntFieldSize, BoolFieldSize, BytesFieldSize, IntOneofSize, BoolOneofSize;
    IntFieldLength(1, m.index);
    var s0 := IntField(1, m.index);
    IntFieldLength(2, m.sqlType);
    RecordsSizeConcat(s0, IntField(2, m.sqlType));
    var s1 := s0 + IntField(2, m.sqlType);
    BytesFieldLength(3, m.name);
    RecordsSizeConcat(s1, BytesField(3, m.name));
    var s2 := s1 + BytesField(3, m.name);
    BoolFieldLength(4, m.isKey);
    RecordsSizeConcat(s2, BoolField(4, m.isKey));
    var s3 := s2 + BoolField(4, m.isKey);
    BoolFieldLength(5, m.updated);
    RecordsSizeConcat(s3, BoolField(5, m.updated));
    var s4 := s3 + BoolField(5, m.updated);
    BoolOneofLength(6, m.isNull);
    RecordsSizeConcat(s4, BoolOneof(6, m.isNull));
    var s5 := s4 + BoolOneof(6, m.isNull);
    PairMessage.SizeOfAllIsLength(7, m.props);
    RecordsSizeConcat(s5, PairMessage.RecordsOfAll(7, m.props));
    var s6 := s5 + PairMessage.RecordsOfAll(7, m.props);
    BytesFieldLength(8, m.value);
    RecordsSizeConcat(s6, BytesField(8, m.value));
    var s7 := s6 + BytesField(8, m.value);
    IntFieldLength(9, m.length);
    RecordsSizeConcat(s7, IntField(9, m.length));
    var s8 := s7 + IntField(9, m.length);
    BytesFieldLength(10, m.mysqlType);
    RecordsSizeConcat(s8, BytesField(10, m.mysqlType));
    var s9 := s8 + BytesField(10, m.mysqlType);
    RecordsSizeConcat(s9, m.unknown);
    RecordsSizeIsLength(Records(m));
  }

  lemma SizeOfAllIsLength(n: nat, xs: seq<ColumnValue>)
    requires n < 16
    ensures RecordsSize(RecordsOfAll(n, xs)) == SizeOfAll(xs)
  {
    hide RecordsSize, RepeatedSize, MessageFields, Encode, Size;
    forall x | x in xs ensures |Encode(x)| == Size(x) { SizeIsLength(x); }
    RepeatedSizeIsLength(n, Encode, Size, xs);
  }

  lemma ElementFits(xs: seq<ColumnValue>, x: ColumnValue)
    requires x in xs
    ensures Size(x) < SizeOfAll(xs)
  {
    hide RepeatedSize, Size;
    ElementBelowRepeatedSize(Size, xs, x);
  }

  lemma AllPrefix(n: nat, xs: seq<ColumnValue>, i: nat)
    requires i < |xs|
    ensures RecordsOfAll(n, xs[..i + 1]) == RecordsOfAll(n, xs[..i]) + [BytesRecord(n, Encode(xs[i]))]
    ensures SizeOfAll(xs[..i + 1]) == SizeOfAll(xs[..i]) + 1 + LengthDelimitedSize(Size(xs[i]))
    ensures SizeOfAll(xs[..i + 1]) <= SizeOfAll(xs)
  {
    hide RepeatedSize, MessageFields, Encode, Size, LengthDelimitedSize;
    MessageFieldsPrefix(n, Encode, xs, i);
    RepeatedSizePrefix(Size, xs, i);
  }

  lemma RecordsOfAllKnown(known: Record -> bool, n: nat, xs: seq<ColumnValue>)
    requires 1 <= n < 16 && forall x :: x in xs ==> known(BytesRecord(n, Encode(x)))
    ensures AllKnown(known, RecordsOfAll(n, xs))
  {
    hide Encode;
    MessageFieldsKnown(known, n, Encode, xs);
  }

  lemma OneMoreParsed(rs: seq<Record>, xs: seq<ColumnValue>, r: Record, x: ColumnValue)
    requires ParsedAll(rs, xs) && r.value.LenValue? && Parse(r.value.data) == Some(x)
    ensures ParsedAll(rs + [r], xs + [x])
  {
    hide Parse;
  }

  lemma AllOfNothing(n: nat, xs: seq<ColumnValue>)
    ensures RecordsOfAll(n, xs[..0]) == [] && SizeOfAll(xs[..0]) == 0
  {
  }

  lemma {:induction false} ReplayProps(x: ColumnValue, ys: seq<PairMessage.PairValue>)
    requires forall y :: y in ys ==> PairMessage.Valid(y) && PairMessage.Size(y) <= INT_MAX
    ensures Fold(Step, x, PairMessage.RecordsOfAll(7, ys)) == Some(x.(props := x.props + ys))
    decreases |ys|
  {
    hide Fold, PairMessage.Encode, PairMessage.Valid, PairMessage.Merge, PairMessage.ParseFrom,
         PairMessage.RecordsOfAll;
    if ys == [] {
      PairMessage.AllOfNothing(7, ys);
      FoldNothing(Step, x);
      assert ys[..0] == ys && x.props + ys == x.props;
    } else {
      var init, last := ys[..|ys| - 1], ys[|ys| - 1];
      var x1, r := x.(props := x.props + init), BytesRecord(7, PairMessage.Encode(last));
      ReplayProps(x, init);
      PairMessage.AllPrefix(7, ys, |ys| - 1);
      PairMessage.ParseEncoded(PairMessage.EMPTY, last);
      PairMessage.MergeLaws(last, last, last);
      FoldOne(Step, x1, r);
      Rejoined(x.props, ys);
      FoldThen(Step, x, PairMessage.RecordsOfAll(7, init), x1, [r], x.(props := x.props + ys));
    }
  }

  lemma ReplayUnknown(x: ColumnValue, us: seq<Record>)
    requires UnknownTo(Known, us)
    ensures Fold(Step, x, us) == Some(x.(unknown := x.unknown + us))
  {
    var append := (m: ColumnValue, rs: seq<Record>) => m.(unknown := m.unknown + rs);
    forall m: ColumnValue, a: seq<Record>, b: seq<Record> ensures append(append(m, a), b) == append(m, a + b) {
      assert (m.unknown + a) + b == m.unknown + (a + b);
    }
    forall m: ColumnValue ensures append(m, []) == m {
      assert m.unknown + [] == m.unknown;
    }
    FoldAppends(Step, Known, append, x, us);
  }

  lemma ReplayIndex(x: ColumnValue, v: int32)
    ensures Fold(Step, x, IntField(1, v)) == Some(x.(index := MergeInt32(x.index, v)))
  {
    hide Fold, ValidUtf8;
    Int32Inverts(v);
    FoldIntField(Step, x, 1, v);
  }

  lemma ReplaySqlType(x: ColumnValue, v: int32)
    ensures Fold(Step, x, IntField(2, v)) == Some(x.(sqlType := MergeInt32(x.sqlType, v)))
  {
    hide Fold, ValidUtf8;
    Int32Inverts(v);
    FoldIntField(Step, x, 2, v);
  }

  lemma ReplayName(x: ColumnValue, v: Bytes)
    requires ValidUtf8(v)
    ensures Fold(Step, x, BytesField(3, v)) == Some(x.(name := MergeBytes(x.name, v)))
  {
    hide Fold, ValidUtf8;
    FoldBytesField(Step, x, 3, v);
  }

  lemma ReplayIsKey(x: ColumnValue, v: bool)
    ensures Fold(Step, x, BoolField(4, v)) == Some(x.(isKey := MergeBool(x.isKey, v)))
  {
    hide Fold, ValidUtf8;
    FoldBoolField(Step, x, 4, v);
  }

  lemma ReplayUpdated(x: ColumnValue, v: bool)
    ensures Fold(Step, x, BoolField(5, v)) == Some(x.(updated := MergeBool(x.updated, v)))
  {
    hide Fold, ValidUtf8;
    FoldBoolField(Step, x, 5, v);
  }

  lemma ReplayIsNull(x: ColumnValue, v: Option<bool>)
    ensures Fold(Step, x, BoolOneof(6, v)) == Some(x.(isNull := MergeOneof(x.isNull, v)))
  {
    hide Fold, ValidUtf8;
    FoldBoolOneof(Step, x, 6, v);
  }

  lemma ReplayValue(x: ColumnValue, v: Bytes)
    requires ValidUtf8(v)
    ensures Fold(Step, x, BytesField(8, v)) == Some(x.(value := MergeBytes(x.value, v)))
  {
    hide Fold, ValidUtf8;
    FoldBytesField(Step, x, 8, v);
  }

  lemma ReplayLength(x: ColumnValue, v: int32)
    ensures Fold(Step, x, IntField(9, v)) == Some(x.(length := MergeInt32(x.length, v)))
  {
    hide Fold, ValidUtf8;
    Int32Inverts(v);
    FoldIntField(Step, x, 9, v);
  }

  lemma ReplayMysqlType(x: ColumnValue, v: Bytes)
    requires ValidUtf8(v)
    ensures Fold(Step, x, BytesField(10, v)) == Some(x.(mysqlType := MergeBytes(x.mysqlType, v)))
  {
    hide Fold, ValidUtf8;
    FoldBytesField(Step, x, 10, v);
  }

  /** Replaying the records of y is merging y. */
  lemma Replay(x: ColumnValue, y: ColumnValue)
    requires Valid(y)
    requires forall c :: c in y.props ==> PairMessage.Size(c) <= INT_MAX
    ensures Fold(Step, x, Records(y)) == Some(Merge(x, y))
  {
    hide MergeInt32, MergeInt64, MergeBool, MergeBytes, MergeOneof;
    hide PairMessage.RecordsOfAll;
    hide Step, Fold, ValidUtf8, UnknownTo, IntField, BoolField, BytesField, IntOneof, BoolOneof;
    var x1 := x.(index := MergeInt32(x.index, y.index));
    ReplayIndex(x, y.index);
    var s1 := IntField(1, y.index);
    var x2 := x1.(sqlType := MergeInt32(x1.sqlType, y.sqlType));
    ReplaySqlType(x1, y.sqlType);
    FoldThen(Step, x, s1, x1, IntField(2, y.sqlType), x2);
    var s2 := s1 + IntField(2, y.sqlType);
    var x3 := x2.(name := MergeBytes(x2.name, y.name));
    ReplayName(x2, y.name);
    FoldThen(Step, x, s2, x2, BytesField(3, y.name), x3);
    var s3 := s2 + BytesField(3, y.name);
    var x4 := x3.(isKey := MergeBool(x3.isKey, y.isKey));
    ReplayIsKey(x3, y.isKey);
    FoldThen(Step, x, s3, x3, BoolField(4, y.isKey), x4);
    var s4 := s3 + BoolField(4, y.isKey);
    var x5 := x4.(updated := MergeBool(x4.updated, y.updated));
    ReplayUpdated(x4, y.updated);
    FoldThen(Step, x, s4, x4, BoolField(5, y.updated), x5);
    var s5 := s4 + BoolField(5, y.updated);
    var x6 := x5.(isNull := MergeOneof(x5.isNull, y.isNull));
    ReplayIsNull(x5, y.isNull);
    FoldThen(Step, x, s5, x5, BoolOneof(6, y.isNull), x6);
    var s6 := s5 + BoolOneof(6, y.isNull);
    var x7 := x6.(props := x6.props + y.props);
    ReplayProps(x6, y.props);
    FoldThen(Step, x, s6, x6, PairMessage.RecordsOfAll(7, y.props), x7);
    var s7 := s6 + PairMessage.RecordsOfAll(7, y.props);
    var x8 := x7.(value := MergeBytes(x7.value, y.value));
    ReplayValue(x7, y.value);
    FoldThen(Step, x, s7, x7, BytesField(8, y.value), x8);
    var s8 := s7 + BytesField(8, y.value);
    var x9 := x8.(length := MergeInt32(x8.length, y.length));
    ReplayLength(x8, y.length);
    FoldThen(Step, x, s8, x8, IntField(9, y.length), x9);
    var s9 := s8 + IntField(9, y.length);
    var x10 := x9.(mysqlType := MergeBytes(x9.mysqlType, y.mysqlType));
    ReplayMysqlType(x9, y.mysqlType);
    FoldThen(Step, x, s9, x9, BytesField(10, y.mysqlType), x10);
    var s10 := s9 + BytesField(10, y.mysqlType);
    ReplayUnknown(x10, y.unknown);
    FoldThen(Step, x, s10, x10, y.unknown, Merge(x, y));
  }

  lemma ParseEncoded(x: ColumnValue, y: ColumnValue)
    requires Valid(y) && Size(y) <= INT_MAX
    ensures ParseFrom(x, Encode(y)) == Some(Merge(x, y))
  {
    SizeIsLength(y);
    RecordsSizeIsLength(Records(y));
    PartsFit(y);
    RecordsHaveNumbers(y);
    hide Fold, EncodeRecords, RecordsSize, Records, Size, Valid, Merge;
    SmallRecordsAreValid(Records(y));
    Codec.ParseEncoded(Step, x, Records(y));
    Replay(x, y);
  }

  lemma PartsFit(m: ColumnValue)
    ensures forall c :: c in m.props ==> PairMessage.Size(c) <= Size(m)
  {
    hide RecordsSize, VarintSize;
    hide PairMessage.SizeOfAll, PairMessage.Size;
    forall c | c in m.props ensures PairMessage.Size(c) <= Size(m) {
      PairMessage.ElementFits(m.props, c);
    }
  }

  /** Every record written for a field is one the parser stores in a field. */
  lemma KnownRecordsAreKnown(m: ColumnValue)
    ensures AllKnown(Known, KnownRecords(m))
  {
    hide PairMessage.RecordsOfAll, PairMessage.Encode;
    IntFieldKnown(Known, 1, m.index);
    IntFieldKnown(Known, 2, m.sqlType);
    BytesFieldKnown(Known, 3, m.name);
    BoolFieldKnown(Known, 4, m.isKey);
    BoolFieldKnown(Known, 5, m.updated);
    BoolOneofKnown(Known, 6, m.isNull);
    PairMessage.RecordsOfAllKnown(Known, 7, m.props);
    BytesFieldKnown(Known, 8, m.value);
    IntFieldKnown(Known, 9, m.length);
    BytesFieldKnown(Known, 10, m.mysqlType);
    hide AllKnown, Known, IntField, BoolField, BytesField, IntOneof, BoolOneof;
    var s0 := IntField(1, m.index);
    AllKnownConcat(Known, s0, IntField(2, m.sqlType));
    var s1 := s0 + IntField(2, m.sqlType);
    AllKnownConcat(Known, s1, BytesField(3, m.name));
    var s2 := s1 + BytesField(3, m.name);
    AllKnownConcat(Known, s2, BoolField(4, m.isKey));
    var s3 := s2 + BoolField(4, m.isKey);
    AllKnownConcat(Known, s3, BoolField(5, m.updated));
    var s4 := s3 + BoolField(5, m.updated);
    AllKnownConcat(Known, s4, BoolOneof(6, m.isNull));
    var s5 := s4 + BoolOneof(6, m.isNull);
    AllKnownConcat(Known, s5, PairMessage.RecordsOfAll(7, m.props));
    var s6 := s5 + PairMessage.RecordsOfAll(7, m.props);
    AllKnownConcat(Known, s6, BytesField(8, m.value));
    var s7 := s6 + BytesField(8, m.value);
    AllKnownConcat(Known, s7, IntField(9, m.length));
    var s8 := s7 + IntField(9, m.length);
    AllKnownConcat(Known, s8, BytesField(10, m.mysqlType));
  }

  lemma RecordsHaveNumbers(m: ColumnValue)
    requires Valid(m)
    ensures forall i :: 0 <= i < |Records(m)| ==> 1 <= Records(m)[i].number < 0x2000_0000
  {
    KnownRecordsAreKnown(m);
    hide KnownRecords, Known;
  }

  lemma MergeLaws(x: ColumnValue, y: ColumnValue, z: ColumnValue)
    ensures Merge(EMPTY, x) == x
    ensures Merge(x, EMPTY) == x
    ensures Merge(Merge(x, y), z) == Merge(x, Merge(y, z))
  {
    assert (x.props + y.props) + z.props == x.props + (y.props + z.props) && [] + x.props == x.props == x.props + [];
    assert (x.unknown + y.unknown) + z.unknown == x.unknown + (y.unknown + z.unknown)
           && [] + x.unknown == x.unknown == x.unknown + [];
  }

  lemma StepKeeps(x: ColumnValue, r: Record)
    requires ValidRecord(r) && Step(x, r).Some?
    ensures Valid(x) ==> Valid(Step(x, r).value)
    ensures Step(x, r).value.unknown == x.unknown + (if Known(r) then [] else [r])
  {
    if r.number == 7 && r.value.LenValue? {
      PairMessage.EmptyIsValid();
      PairMessage.ParseIsValid(PairMessage.EMPTY, r.value.data);
    }
    hide PairMessage.Parse, PairMessage.Valid;
    hide ValidUtf8;
  }

  lemma StepAccepts(m: ColumnValue, r: Record)
    ensures Step(m, r).Some? <==> Acceptable(r)
  {
    hide ValidUtf8, PairMessage.Parse;
  }

  /** A byte string parses exactly if it splits into records of which each is acceptable. */
  lemma ParsesExactlyIf(m: ColumnValue, b: Bytes)
    ensures ParseFrom(m, b).Some? <==>
              DecodeRecords(b).Some? && forall r :: r in DecodeRecords(b).value ==> Acceptable(r)
  {
    forall x: ColumnValue, r: Record ensures Step(x, r).Some? <==> Acceptable(r) { StepAccepts(x, r); }
    hide Step, Acceptable;
    if DecodeRecords(b).Some? { FoldSucceeds(Step, Acceptable, m, DecodeRecords(b).value); }
  }

  lemma EmptyIsValid()
    ensures Valid(EMPTY)
  {
  }

  lemma ParseIsValid(x: ColumnValue, b: Bytes)
    requires ParseFrom(x, b).Some?
    ensures Valid(x) ==> Valid(ParseFrom(x, b).value)
    ensures ParseFrom(x, b).value.unknown == x.unknown + Unknowns(Known, DecodeRecords(b).value)
  {
    SplitIsBounded(b);
    var unknownOf, valid := (m: ColumnValue) => m.unknown, (m: ColumnValue) => Valid(m);
    forall m: ColumnValue, r: Record | ValidRecord(r) ensures Keeps(Step, Known, unknownOf, valid, m, r) {
      if Step(m, r).Some? { StepKeeps(m, r); }
    }
    hide Step, Valid, Known, Keeps;
    FoldKeeps(Step, Known, unknownOf, valid, x, DecodeRecords(b).value);
  }

  /** What was serialised parses back to the same message exactly if the message is valid. */
  lemma RoundTrip(m: ColumnValue)
    requires Serialize(m).Some?
    ensures Parse(Serialize(m).value) == Some(m) <==> Valid(m)
  {
    hide ParseFrom, Encode, Size, Valid, Merge;
    if Valid(m) { ParseEncoded(EMPTY, m); MergeLaws(m, m, m); }
    EmptyIsValid();
    if Parse(Encode(m)).Some? { ParseIsValid(EMPTY, Encode(m)); }
  }

  /** Parsing one serialisation after another is merging the messages. */
  lemma MergeLaw(x: ColumnValue, y: ColumnValue)
    requires Valid(x) && Valid(y) && Serialize(x).Some? && Serialize(y).Some?
    ensures Parse(Serialize(x).value + Serialize(y).value) == Some(Merge(x, y))
  {
    hide ParseInto, Encode, Size, Valid, Merge;
    ParseEncoded(EMPTY, x);
    MergeLaws(x, x, x);
    ParseEncoded(x, y);
    ParseConcat(Step, EMPTY, Encode(x), Encode(y));
  }

  /** Whatever parses is re-serialised to bytes that parse to the same message: the records of
      the fields, then every record of the input the parser did not recognise, in order. */
  lemma ForwardCompatible(b: Bytes)
    requires Parse(b).Some? && Serialize(Parse(b).value).Some?
    ensures var m := Parse(b).value;
            && Parse(Serialize(m).value) == Some(m)
            && DecodeRecords(Serialize(m).value)
            == Some(KnownRecords(m) + Unknowns(Known, DecodeRecords(b).value))
            && AllKnown(Known, KnownRecords(m))
  {
    var m := Parse(b).value;
    EmptyIsValid();
    ParseIsValid(EMPTY, b);
    RoundTrip(m);
    KnownRecordsAreKnown(m);
    RecordsHaveNumbers(m);
    SizeIsLength(m);
    RecordsSizeIsLength(Records(m));
    hide EncodeRecords, DecodeRecords, RecordsSize, Size, Valid, KnownRecords, ParseFrom, Unknowns, Known;
    SmallRecordsAreValid(Records(m));
    DecodeInverts(Records(m));
    assert [] + Unknowns(Known, DecodeRecords(b).value) == Unknowns(Known, DecodeRecords(b).value);
  }

  // ------------------------------------------ parsing any bytes, and merging

  /** Every implicit-presence field whose last record holds the default is at its default in x. */
  predicate KeepsDefaults(x: ColumnValue, rs: seq<Record>) {
    && (LastInt32(Known, 1, rs) == Some(0) ==> x.index == 0)
    && (LastInt32(Known, 2, rs) == Some(0) ==> x.sqlType == 0)
    && (LastBytes(Known, 3, rs) == Some([]) ==> x.name == [])
    && (LastBool(Known, 4, rs) == Some(false) ==> x.isKey == false)
    && (LastBool(Known, 5, rs) == Some(false) ==> x.updated == false)
    && (LastBytes(Known, 8, rs) == Some([]) ==> x.value == [])
    && (LastInt32(Known, 9, rs) == Some(0) ==> x.length == 0)
    && (LastBytes(Known, 10, rs) == Some([]) ==> x.mysqlType == [])
  }

  /** Where records that fold to y from the empty message fold to z from x: a singular field is that
      of its last record, or as before if it has none; a list is extended by its sub-messages. */
  ghost predicate Overlays(x: ColumnValue, y: ColumnValue, z: ColumnValue, rs: seq<Record>) {
    && y.index == OrElse(LastInt32(Known, 1, rs), EMPTY.index) && z.index == OrElse(LastInt32(Known, 1, rs), x.index)
    && y.sqlType == OrElse(LastInt32(Known, 2, rs), EMPTY.sqlType)
        && z.sqlType == OrElse(LastInt32(Known, 2, rs), x.sqlType)
    && y.name == OrElse(LastBytes(Known, 3, rs), EMPTY.name) && z.name == OrElse(LastBytes(Known, 3, rs), x.name)
    && y.isKey == OrElse(LastBool(Known, 4, rs), EMPTY.isKey) && z.isKey == OrElse(LastBool(Known, 4, rs), x.isKey)
    && y.updated == OrElse(LastBool(Known, 5, rs), EMPTY.updated)
        && z.updated == OrElse(LastBool(Known, 5, rs), x.updated)
    && y.isNull == LastBool(Known, 6, rs) && z.isNull == MergeOneof(x.isNull, y.isNull)
    && y.value == OrElse(LastBytes(Known, 8, rs), EMPTY.value) && z.value == OrElse(LastBytes(Known, 8, rs), x.value)
    && y.length == OrElse(LastInt32(Known, 9, rs), EMPTY.length)
        && z.length == OrElse(LastInt32(Known, 9, rs), x.length)
    && y.mysqlType == OrElse(LastBytes(Known, 10, rs), EMPTY.mysqlType)
        && z.mysqlType == OrElse(LastBytes(Known, 10, rs), x.mysqlType)
    && PairMessage.ParsedAll(AllOf(Known, 7, rs), y.props) && z.props == x.props + y.props
    && z.unknown == x.unknown + y.unknown
  }

  /** The last record of every field, and the records of every list, with one record more. */
  lemma FieldsUnroll(rs: seq<Record>)
    requires rs != []
    ensures var init, r := rs[..|rs| - 1], rs[|rs| - 1];
            var n := if Known(r) then r.number else 0;
            && LastInt32(Known, 1, rs) == (if n == 1 then Some(ToInt32(r.value.v)) else LastInt32(Known, 1, init))
            && LastInt32(Known, 2, rs) == (if n == 2 then Some(ToInt32(r.value.v)) else LastInt32(Known, 2, init))
            && LastBytes(Known, 3, rs) == (if n == 3 then Some(r.value.data) else LastBytes(Known, 3, init))
            && LastBool(Known, 4, rs) == (if n == 4 then Some(r.value.v != 0) else LastBool(Known, 4, init))
            && LastBool(Known, 5, rs) == (if n == 5 then Some(r.value.v != 0) else LastBool(Known, 5, init))
            && LastBool(Known, 6, rs) == (if n == 6 then Some(r.value.v != 0) else LastBool(Known, 6, init))
            && LastBytes(Known, 8, rs) == (if n == 8 then Some(r.value.data) else LastBytes(Known, 8, init))
            && LastInt32(Known, 9, rs) == (if n == 9 then Some(ToInt32(r.value.v)) else LastInt32(Known, 9, init))
            && LastBytes(Known, 10, rs) == (if n == 10 then Some(r.value.data) else LastBytes(Known, 10, init))
            && AllOf(Known, 7, rs) == (if n == 7 then AllOf(Known, 7, init) + [r] else AllOf(Known, 7, init))
  {
    LastInt32Unrolls(Known, 1, rs);
    LastInt32Unrolls(Known, 2, rs);
    LastBytesUnrolls(Known, 3, rs);
    LastBoolUnrolls(Known, 4, rs);
    LastBoolUnrolls(Known, 5, rs);
    LastBoolUnrolls(Known, 6, rs);
    LastBytesUnrolls(Known, 8, rs);
    LastInt32Unrolls(Known, 9, rs);
    LastBytesUnrolls(Known, 10, rs);
    hide LastInt32, LastBytes, LastBool, ToInt32, ToInt64;
  }

  lemma UnknownOverlays(x: ColumnValue, y: ColumnValue, z: ColumnValue, rs: seq<Record>)
    requires rs != [] && Overlays(x, y, z, rs[..|rs| - 1]) && Step(y, rs[|rs| - 1]).Some?
    requires !Known(rs[|rs| - 1])
    ensures Step(z, rs[|rs| - 1]).Some?
    ensures Overlays(x, Step(y, rs[|rs| - 1]).value, Step(z, rs[|rs| - 1]).value, rs)
  {
    FieldsUnroll(rs);
    hide LastInt32, LastBytes, LastBool, AllOf, ToInt32, ToInt64, ValidUtf8, PairMessage.Parse, PairMessage.ParsedAll;
  }

  lemma VarintOverlays(x: ColumnValue, y: ColumnValue, z: ColumnValue, rs: seq<Record>)
    requires rs != [] && Overlays(x, y, z, rs[..|rs| - 1]) && Step(y, rs[|rs| - 1]).Some?
    requires Known(rs[|rs| - 1]) && rs[|rs| - 1].value.VarintValue? && rs[|rs| - 1].number !in {4, 5, 6}
    ensures Step(z, rs[|rs| - 1]).Some?
    ensures Overlays(x, Step(y, rs[|rs| - 1]).value, Step(z, rs[|rs| - 1]).value, rs)
  {
    FieldsUnroll(rs);
    hide LastInt32, LastBytes, LastBool, AllOf, ToInt32, ToInt64, ValidUtf8, PairMessage.Parse, PairMessage.ParsedAll;
    var r := rs[|rs| - 1];
    var y1, z1 := Step(y, r).value, Step(z, r).value;
    match r.number {
      case 1 => assert y1 == y.(index := ToInt32(r.value.v)) && z1 == z.(index := ToInt32(r.value.v));
      case 2 => assert y1 == y.(sqlType := ToInt32(r.value.v)) && z1 == z.(sqlType := ToInt32(r.value.v));
      case _ => assert y1 == y.(length := ToInt32(r.value.v)) && z1 == z.(length := ToInt32(r.value.v));
    }
  }

  lemma FlagOverlays(x: ColumnValue, y: ColumnValue, z: ColumnValue, rs: seq<Record>)
    requires rs != [] && Overlays(x, y, z, rs[..|rs| - 1]) && Step(y, rs[|rs| - 1]).Some?
    requires Known(rs[|rs| - 1]) && rs[|rs| - 1].number in {4, 5, 6}
    ensures Step(z, rs[|rs| - 1]).Some?
    ensures Overlays(x, Step(y, rs[|rs| - 1]).value, Step(z, rs[|rs| - 1]).value, rs)
  {
    FieldsUnroll(rs);
    hide LastInt32, LastBytes, LastBool, AllOf, ToInt32, ToInt64, ValidUtf8, PairMessage.Parse, PairMessage.ParsedAll;
    var r := rs[|rs| - 1];
    var y1, z1 := Step(y, r).value, Step(z, r).value;
    match r.number {
      case 4 => assert y1 == y.(isKey := r.value.v != 0) && z1 == z.(isKey := r.value.v != 0);
      case 5 => assert y1 == y.(updated := r.value.v != 0) && z1 == z.(updated := r.value.v != 0);
      case _ => assert y1 == y.(isNull := Some(r.value.v != 0)) && z1 == z.(isNull := Some(r.value.v != 0));
    }
  }

  lemma BytesOverlays(x: ColumnValue, y: ColumnValue, z: ColumnValue, rs: seq<Record>)
    requires rs != [] && Overlays(x, y, z, rs[..|rs| - 1]) && Step(y, rs[|rs| - 1]).Some?
    requires Known(rs[|rs| - 1]) && rs[|rs| - 1].value.LenValue? && rs[|rs| - 1].number !in {7}
    ensures Step(z, rs[|rs| - 1]).Some?
    ensures Overlays(x, Step(y, rs[|rs| - 1]).value, Step(z, rs[|rs| - 1]).value, rs)
  {
    FieldsUnroll(rs);
    hide LastInt32, LastBytes, LastBool, AllOf, ToInt32, ToInt64, ValidUtf8, PairMessage.Parse, PairMessage.ParsedAll;
    var r := rs[|rs| - 1];
    var y1, z1 := Step(y, r).value, Step(z, r).value;
    match r.number {
      case 3 => assert y1 == y.(name := r.value.data) && z1 == z.(name := r.value.data);
      case 8 => assert y1 == y.(value := r.value.data) && z1 == z.(value := r.value.data);
      case _ => assert y1 == y.(mysqlType := r.value.data) && z1 == z.(mysqlType := r.value.data);
    }
  }

  lemma ListOverlays(x: ColumnValue, y: ColumnValue, z: ColumnValue, rs: seq<Record>)
    requires rs != [] && Overlays(x, y, z, rs[..|rs| - 1]) && Step(y, rs[|rs| - 1]).Some?
    requires Known(rs[|rs| - 1]) && rs[|rs| - 1].number in {7}
    ensures Step(z, rs[|rs| - 1]).Some?
    ensures Overlays(x, Step(y, rs[|rs| - 1]).value, Step(z, rs[|rs| - 1]).value, rs)
  {
    FieldsUnroll(rs);
    hide LastInt32, LastBytes, LastBool, AllOf, ToInt32, ToInt64, ValidUtf8, PairMessage.Parse, PairMessage.ParsedAll;
    var init, r := rs[..|rs| - 1], rs[|rs| - 1];
    if r.number == 7 {
      var p := PairMessage.Parse(r.value.data).value;
      PairMessage.OneMoreParsed(AllOf(Known, 7, init), y.props, r, p);
      assert x.props + (y.props + [p]) == (x.props + y.props) + [p];
    }
  }

  lemma StepOverlays(x: ColumnValue, y: ColumnValue, z: ColumnValue, rs: seq<Record>)
    requires rs != [] && Overlays(x, y, z, rs[..|rs| - 1]) && Step(y, rs[|rs| - 1]).Some?
    ensures Step(z, rs[|rs| - 1]).Some?
    ensures Overlays(x, Step(y, rs[|rs| - 1]).value, Step(z, rs[|rs| - 1]).value, rs)
  {
    var r := rs[|rs| - 1];
    hide Overlays, Step;
    if !Known(r) {
      UnknownOverlays(x, y, z, rs);
    } else if r.number in {4, 5, 6} {
      FlagOverlays(x, y, z, rs);
    } else if r.value.VarintValue? {
      VarintOverlays(x, y, z, rs);
    } else if r.number in {7} {
      ListOverlays(x, y, z, rs);
    } else {
      BytesOverlays(x, y, z, rs);
    }
  }

  /** Last One Wins: what any records do to x, told by what they do to the empty message. */
  lemma {:induction false} LastOneWins(x: ColumnValue, rs: seq<Record>)
    requires Fold(Step, EMPTY, rs).Some?
    ensures Fold(Step, x, rs).Some?
    ensures Overlays(x, Fold(Step, EMPTY, rs).value, Fold(Step, x, rs).value, rs)
    decreases |rs|
  {
    if rs == [] {
      assert x.props + [] == x.props;
      assert x.unknown + [] == x.unknown;
    } else {
      var init := rs[..|rs| - 1];
      FoldLast(Step, EMPTY, rs);
      FoldLast(Step, x, rs);
      hide Step, Overlays, Fold;
      LastOneWins(x, init);
      StepOverlays(x, Fold(Step, EMPTY, init).value, Fold(Step, x, init).value, rs);
    }
  }

  /** Folding records into x is merging what they fold to, exactly if x keeps the defaults they
      spell out: a default that is spelled out overwrites, and a merge overlooks it. */
  lemma FoldsLikeMerged(x: ColumnValue, rs: seq<Record>)
    requires Fold(Step, EMPTY, rs).Some?
    ensures Fold(Step, x, rs) == Some(Merge(x, Fold(Step, EMPTY, rs).value)) <==> KeepsDefaults(x, rs)
  {
    LastOneWins(x, rs);
    hide LastInt32, LastBytes, LastBool, Fold, PairMessage.ParsedAll, AllOf;
  }

  /** Parsing b into x is merging the parse of b, exactly if x keeps the defaults b spells out. */
  lemma MergesLikeParsed(x: ColumnValue, b: Bytes)
    requires Parse(b).Some?
    ensures ParseFrom(x, b) == Some(Merge(x, Parse(b).value)) <==> KeepsDefaults(x, DecodeRecords(b).value)
  {
    FoldsLikeMerged(x, DecodeRecords(b).value);
    hide Merge, KeepsDefaults, Fold;
  }

  /** The merge law on any bytes that parse. */
  lemma ConcatMerges(a: Bytes, b: Bytes)
    requires Parse(a).Some? && Parse(b).Some?
    ensures Parse(a + b) == Some(Merge(Parse(a).value, Parse(b).value))
       <==> KeepsDefaults(Parse(a).value, DecodeRecords(b).value)
  {
    MergesLikeParsed(Parse(a).value, b);
    hide ParseInto, Merge, KeepsDefaults;
    ParseConcat(Step, EMPTY, a, b);
  }

  // --------------------------------------------------------- nodes of a tree

  /** A message inside its parent: its members and its cached size. */
  type ColumnNode = Node<ColumnFields<PairMessage.PairNode>>

  function ValueOf(c: ColumnFields<PairMessage.PairNode>): ColumnValue {
    ColumnFields(
      c.index, c.sqlType, c.name, c.isKey, c.updated, c.isNull, PairMessage.ValuesOf(c.props), c.value,
      c.length, c.mysqlType, c.unknown)
  }

  function ValuesOf(ns: seq<ColumnNode>): (vs: seq<ColumnValue>)
    ensures |vs| == |ns| && forall i :: 0 <= i < |ns| ==> vs[i] == ValueOf(ns[i].contents)
  {
    if ns == [] then [] else ValuesOf(ns[..|ns| - 1]) + [ValueOf(ns[|ns| - 1].contents)]
  }

  lemma ValuesOfAppend(ns: seq<ColumnNode>, n: ColumnNode)
    ensures ValuesOf(ns + [n]) == ValuesOf(ns) + [ValueOf(n.contents)]
  {
    assert (ns + [n])[..|ns|] == ns;
  }

  /** Every cached size in the tree is the size of what it caches. */
  ghost predicate Sized(n: ColumnNode) {
    && n.cachedSize == ToCachedSize(Size(ValueOf(n.contents)))
    && PairMessage.AllSized(n.contents.props)
  }

  ghost predicate AllSized(ns: seq<ColumnNode>) {
    forall i :: 0 <= i < |ns| ==> Sized(ns[i])
  }

  /** Ready to be written: the sizes are cached, and each of them is an int. */
  ghost predicate Ready(ns: seq<ColumnNode>) {
    forall i :: 0 <= i < |ns| ==> Sized(ns[i]) && Size(ValueOf(ns[i].contents)) <= INT_MAX
  }

  lemma PartsReady(n: ColumnNode)
    requires Sized(n) && Size(ValueOf(n.contents)) <= INT_MAX
    ensures PairMessage.Ready(n.contents.props)
  {
    PartsFit(ValueOf(n.contents));
    hide PairMessage.Size, PairMessage.Sized, PairMessage.ValueOf, PairMessage.ValuesOf;
    hide Size, ToCachedSize;
    assert forall i :: 0 <= i < |n.contents.props| ==>
             PairMessage.ValuesOf(n.contents.props)[i] in ValueOf(n.contents).props;
  }

  // The serialiser is modelled in two parts: fields 1 to 5, and fields 6 to 10.

  function FirstRecords(m: ColumnValue): seq<Record> {
    IntField(1, m.index) + IntField(2, m.sqlType) + BytesField(3, m.name) + BoolField(4, m.isKey) +
    BoolField(5, m.updated)
  }

  function LastRecords(recs: seq<Record>, m: ColumnValue): seq<Record> {
    recs + BoolOneof(6, m.isNull) + PairMessage.RecordsOfAll(7, m.props) + BytesField(8, m.value) +
    IntField(9, m.length) + BytesField(10, m.mysqlType)
  }

  function FirstSize(m: ColumnValue): nat {
    IntFieldSize(m.index) + IntFieldSize(m.sqlType) + BytesFieldSize(m.name) + BoolFieldSize(m.isKey) +
    BoolFieldSize(m.updated)
  }

  function LastSize(m: ColumnValue): nat {
    BoolOneofSize(m.isNull) + PairMessage.SizeOfAll(m.props) + BytesFieldSize(m.value) +
    IntFieldSize(m.length) + BytesFieldSize(m.mysqlType)
  }

  lemma PartsInOrder(m: ColumnValue)
    ensures LastRecords(FirstRecords(m), m) == KnownRecords(m)
    ensures FirstSize(m) + LastSize(m) + RecordsSize(m.unknown) == Size(m)
  {
    hide IntField, BoolField, BytesField, IntOneof, BoolOneof, RecordsSize;
    hide IntFieldSize, BoolFieldSize, BytesFieldSize, IntOneofSize, BoolOneofSize;
    hide PairMessage.RecordsOfAll, PairMessage.SizeOfAll;
  }

  // ------------------------------------------------------ the mutable message

  /** What the loop does with the record after a tag: ok says whether it goes on, from m1 and rest1. */
  ghost predicate Merges(tag: nat, m0: ColumnValue, rest0: Bytes, ok: bool, m1: ColumnValue, rest1: Bytes)
    requires tag < TWO32
  {
    MergedRecord(Step, tag, m0, rest0, ok, m1, rest1)
  }

  /** What reading a length-prefixed message into m0 does: ok, and then m1 and rest1. */
  ghost predicate Reads(m0: ColumnValue, rest0: Bytes, ok: bool, m1: ColumnValue, rest1: Bytes) {
    match ReadPayload(2, rest0)
    case None => !ok
    case Some((w, k)) => ParseFrom(m0, w.data) == (if ok then Some(m1) else None) && (ok ==> rest1 == rest0[k..])
  }

  lemma Turns(m: ColumnValue, b: Bytes, tag: nat, n: nat, ok: bool, m1: ColumnValue, rest1: Bytes)
    requires b != [] && ReadTag(b) == Some((tag, n))
    requires Merges(tag, m, b[n..], ok, m1, rest1)
    ensures ok ==> ParseFrom(m, b) == ParseFrom(m1, rest1) && |rest1| < |b|
    ensures !ok ==> ParseFrom(m, b) == None
  {
    hide ReadTag, ReadAfterTag, ParseInto, Step;
    LoopTurns(Step, m, b, tag, n, ok, m1, rest1);
  }

  /** The loop stops at tag 0: rightly at the end of the window, wrongly anywhere else. */
  lemma Stops(m: ColumnValue, b: Bytes)
    requires b == [] || ReadTag(b) == None || ReadTag(b).value.0 == 0
    ensures ParseFrom(m, b) == if b == [] then Some(m) else None
  {
    hide ParseInto;
    LoopStops(Step, m, b);
  }

  class Column {
    var index: int32
    var sqlType: int32
    var name: Bytes
    var isKey: bool
    var updated: bool
    var isNull: Option<bool>
    var props: seq<PairMessage.PairNode>
    var value: Bytes
    var length: int32
    var mysqlType: Bytes
    var unknown: seq<Record>
    var cachedSize: int32

    function Contents(): ColumnFields<PairMessage.PairNode>
      reads this
    {
      ColumnFields(index, sqlType, name, isKey, updated, isNull, props, value, length, mysqlType, unknown)
    }

    function AsNode(): ColumnNode
      reads this
    {
      Node(Contents(), cachedSize)
    }

    ghost function Value(): ColumnValue
      reads this
    {
      ValueOf(AsNode().contents)
    }

    constructor ()
      ensures Value() == EMPTY
    {
      index := 0;
      sqlType := 0;
      name := [];
      isKey := false;
      updated := false;
      isNull := None;
      props := [];
      value := [];
      length := 0;
      mysqlType := [];
      unknown := [];
      cachedSize := 0;
    }

    /** A message taken out of its parent. */
    constructor At(node: ColumnNode)
      ensures AsNode() == node
    {
      index := node.contents.index;
      sqlType := node.contents.sqlType;
      name := node.contents.name;
      isKey := node.contents.isKey;
      updated := node.contents.updated;
      isNull := node.contents.isNull;
      props := node.contents.props;
      value := node.contents.value;
      length := node.contents.length;
      mysqlType := node.contents.mysqlType;
      unknown := node.contents.unknown;
      cachedSize := node.cachedSize;
    }

    constructor Copy(from: Column)
      ensures Value() == from.Value()
    {
      PairMessage.ValuesOfNothing();
      hide PairMessage.ValuesOf, PairMessage.ValueOf;
      var propsCopy := PairMessage.MergeAll([], from.props);
      assert PairMessage.ValuesOf(propsCopy) == PairMessage.ValuesOf(from.props);
      unknown := from.unknown;
      props := propsCopy;
      name := if |from.name| > 0 then from.name else [];
      value := if |from.value| > 0 then from.value else [];
      mysqlType := if |from.mysqlType| > 0 then from.mysqlType else [];
      index := from.index;
      sqlType := from.sqlType;
      isKey := from.isKey;
      updated := from.updated;
      length := from.length;
      isNull := from.isNull;
      cachedSize := 0;
    }

    method Clear()
      modifies this
      ensures Value() == EMPTY
    {
      props := [];
      ClearStrings();
      ClearScalars();
      ClearPresence();
      unknown := [];
    }

    /** Clears the string members. */
    method ClearStrings()
      modifies this
      ensures cachedSize == old(cachedSize)
      ensures Contents() == old(Contents()).(name := [], value := [], mysqlType := [])
    {
      name := [];
      value := [];
      mysqlType := [];
    }

    /** Clears the implicit-presence numbers and flags. */
    method ClearScalars()
      modifies this
      ensures cachedSize == old(cachedSize)
      ensures Contents() == old(Contents()).(index := 0, sqlType := 0, isKey := false, updated := false,
          length := 0)
    {
      index := 0;
      sqlType := 0;
      isKey := false;
      updated := false;
      length := 0;
    }

    /** Clears the oneofs. */
    method ClearPresence()
      modifies this
      ensures cachedSize == old(cachedSize)
      ensures Contents() == old(Contents()).(isNull := None)
    {
      isNull := None;
    }

    method MergeFrom(from: Column)
      requires from != this
      modifies this
      ensures Value() == Merge(old(Value()), from.Value())
    {
      hide MergeInt32, MergeBytes, MergeBool, MergeOneof;
      hide PairMessage.ValuesOf;
      var c := from.Contents();
      unknown := unknown + c.unknown;
      props := PairMessage.MergeAll(props, c.props);
      MergeStrings(c);
      MergeScalars(c);
      MergePresence(c);
    }

    /** Merges the string members. */
    method MergeStrings(c: ColumnFields<PairMessage.PairNode>)
      modifies this
      ensures cachedSize == old(cachedSize)
      ensures Contents() == old(Contents()).(name := MergeBytes(old(name), c.name),
          value := MergeBytes(old(value), c.value), mysqlType := MergeBytes(old(mysqlType), c.mysqlType))
    {
      hide MergeBytes;
      name := MergeBytes(name, c.name);
      value := MergeBytes(value, c.value);
      mysqlType := MergeBytes(mysqlType, c.mysqlType);
    }

    /** Merges the implicit-presence numbers and flags. */
    method MergeScalars(c: ColumnFields<PairMessage.PairNode>)
      modifies this
      ensures cachedSize == old(cachedSize)
      ensures Contents() == old(Contents()).(index := MergeInt32(old(index), c.index),
          sqlType := MergeInt32(old(sqlType), c.sqlType), isKey := MergeBool(old(isKey), c.isKey),
          updated := MergeBool(old(updated), c.updated), length := MergeInt32(old(length), c.length))
    {
      hide MergeInt32, MergeBool;
      index := MergeInt32(index, c.index);
      sqlType := MergeInt32(sqlType, c.sqlType);
      isKey := MergeBool(isKey, c.isKey);
      updated := MergeBool(updated, c.updated);
      length := MergeInt32(length, c.length);
    }

    /** Merges the oneofs. */
    method MergePresence(c: ColumnFields<PairMessage.PairNode>)
      modifies this
      ensures cachedSize == old(cachedSize)
      ensures Contents() == old(Contents()).(isNull := MergeOneof(old(isNull), c.isNull))
    {
      hide MergeOneof;
      isNull := MergeOneof(isNull, c.isNull);
    }

    method CopyFrom(from: Column)
      modifies this
      ensures Value() == old(from.Value())
    {
      if from == this { return; }
      hide Merge;
      Clear();
      MergeFrom(from);
      MergeLaws(from.Value(), EMPTY, EMPTY);
    }

    method MergePartialFromCodedStream(input: CodedInputStream) returns (ok: bool)
      requires input.Valid()
      modifies this, input
      ensures input.Valid() && (ok ==> input.limit == old(input.limit))
      ensures ok && input.legitimateEnd ==> input.Rest() == []
      ensures (if ok && input.legitimateEnd then Some(Value()) else None)
           == ParseFrom(old(Value()), old(input.Rest()))
    {
      hide Merges, ReadTag, ParseFrom, Value, CodedInputStream.Rest;
      while true
        invariant input.Valid() && input.limit == old(input.limit)
        invariant ParseFrom(Value(), input.Rest()) == ParseFrom(old(Value()), old(input.Rest()))
        decreases |input.Rest()|
      {
        ghost var m, rest := Value(), input.Rest();
        var tag, known := input.ReadTagWithCutoffNoLastTag(127);
        if tag == 0 {
          Stops(m, rest);
          return true;
        }
        ok := MergeRecord(tag, known, input);
        Turns(m, rest, tag, ReadTag(rest).value.1, ok, Value(), input.Rest());
        if !ok { return false; }
      }
    }

    /** The switch of the parse loop. Outside sub-messages every case reads the payload its wire
        type calls for, so the read stands before the switch. */
    method MergeRecord(tag: nat, known: bool, input: CodedInputStream) returns (ok: bool)
      requires input.Valid() && tag < TWO32 && (known <==> 1 <= tag <= 127)
      modifies this, input
      ensures input.Valid() && (ok ==> input.limit == old(input.limit))
      ensures Merges(tag, old(Value()), old(input.Rest()), ok, Value(), input.Rest())
    {
      hide ReadPayload, CodedInputStream.Rest, ToInt32, ToInt64;
      hide PairMessage.ValuesOf;
      if known && tag / 8 == 7 && tag % 256 == 58 {
        ok := AddProps(input);
        return;
      }
      if tag / 8 == 0 { return false; }
      var w;
      ok, w := input.ReadPayloadOf(tag % 8);
      if !ok { return false; }
      assert Contents() == old(Contents());
      hide Contents, Step;
      if known && tag in {8, 16, 32, 40, 48, 72} {
        SetVarint(tag / 8, w.v);
        return;
      }
      if known && tag in {26, 66, 82} {
        ok := SetBytes(tag / 8, w.data);
        return;
      }
      AddUnknown(Record(tag / 8, w));
    }

    /** The cases whose payload is a varint. */
    method SetVarint(number: nat, v: uint64)
      requires number in {1, 2, 4, 5, 6, 9}
      modifies this
      ensures Some(Value()) == Step(old(Value()), Record(number, VarintValue(v)))
    {
      hide ToInt32, ToInt64;
      hide PairMessage.ValuesOf;
      match number {
        case 1 => index := ToInt32(v);
        case 2 => sqlType := ToInt32(v);
        case 4 => isKey := v != 0;
        case 5 => updated := v != 0;
        case 6 => isNull := Some(v != 0);
        case _ => length := ToInt32(v);
      }
    }

    /** The cases whose payload is a string: it is stored, and then checked. */
    method SetBytes(number: nat, s: Bytes) returns (ok: bool)
      requires number in {3, 8, 10}
      modifies this
      ensures (if ok then Some(Value()) else None) == Step(old(Value()), Record(number, LenValue(s)))
    {
      hide ValidUtf8;
      hide PairMessage.ValuesOf;
      match number {
        case 3 => name := s;
        case 8 => value := s;
        case _ => mysqlType := s;
      }
      ok := ValidUtf8(s);
    }

    /** The library's SkipField: the record is kept as unknown. */
    method AddUnknown(r: Record)
      requires !Known(r)
      modifies this
      ensures Some(Value()) == Step(old(Value()), r)
    {
      unknown := unknown + [r];
    }

    /** A new element at the end of props, read from the input. */
    method AddProps(input: CodedInputStream) returns (ok: bool)
      requires input.Valid()
      modifies this, input
      ensures input.Valid() && (ok ==> input.limit == old(input.limit))
      ensures Merges(58, old(Value()), old(input.Rest()), ok, Value(), input.Rest())
    {
      hide ReadPayload, CodedInputStream.Rest, PairMessage.ParseFrom;
      hide PairMessage.ValuesOf, PairMessage.ValueOf;
      var x := new PairMessage.Pair();
      ok := x.ReadMessage(input);
      var node := x.AsNode();
      PairMessage.ValuesOfAppend(props, node);
      props := props + [node];
    }

    /** A Column as a length-delimited field of another message. */
    method ReadMessage(input: CodedInputStream) returns (ok: bool)
      requires input.Valid()
      modifies this, input
      ensures input.Valid() && (ok ==> input.limit == old(input.limit))
      ensures Reads(old(Value()), old(input.Rest()), ok, Value(), input.Rest())
    {
      hide ReadPayload, ParseFrom, Value;
      var pushed, outer := input.PushLength();
      if !pushed { return false; }
      ok := MergePartialFromCodedStream(input);
      ok := ok && input.legitimateEnd;
      if ok { input.PopLimit(outer); }
    }

    method ByteSizeLong() returns (total: nat)
      modifies this
      ensures total == Size(Value())
      ensures Value() == old(Value()) && Sized(AsNode())
    {
      hide RecordsSize, ToCachedSize;
      hide PairMessage.SizeOfAll, PairMessage.ValuesOf, PairMessage.AllSized;
      var c := Contents();
      NoRecordsSize(c.unknown);
      total := 0;
      if |c.unknown| > 0 { total := total + RecordsSize(c.unknown); }
      hide BytesFieldSize, IntFieldSize, BoolFieldSize, BoolOneofSize;
      var propsSize, propsSized := PairMessage.ByteSizeOfAll(c.props);
      props := propsSized;
      total := total + propsSize;
      total := total + BytesFieldSize(c.name);
      total := total + BytesFieldSize(c.value);
      total := total + BytesFieldSize(c.mysqlType);
      total := total + IntFieldSize(c.index);
      total := total + IntFieldSize(c.sqlType);
      total := total + BoolFieldSize(c.isKey);
      total := total + BoolFieldSize(c.updated);
      total := total + IntFieldSize(c.length);
      total := total + BoolOneofSize(c.isNull);
      cachedSize := ToCachedSize(total);
    }

    /** What the serialiser needs of the members, and what it writes. */
    lemma ReadyToWrite()
      requires Sized(AsNode()) && Size(Value()) <= INT_MAX
      ensures ValueOf(Contents()) == Value() && Value().unknown == Contents().unknown
      ensures PairMessage.Ready(Contents().props)
      ensures Encode(Value()) == EncodeRecords(KnownRecords(Value()) + Value().unknown)
    {
      PartsReady(AsNode());
      hide Sized, Size, KnownRecords, EncodeRecords, PairMessage.ValuesOf, PairMessage.Ready;
    }

    /** The guarded writes of fields 1 to 5. */
    method WriteFirstFieldsToArray(c: ColumnFields<PairMessage.PairNode>, target: array<byte>, at: nat,
                                 ghost pre: Bytes)
      returns (end: nat)
      requires Wrote(target, at, pre, [])
      requires at + FirstSize(ValueOf(c)) <= target.Length
      modifies target
      ensures end == at + FirstSize(ValueOf(c))
      ensures Wrote(target, end, pre, FirstRecords(ValueOf(c)))
    {
      hide Wrote, IntField, BoolField, BytesField, IntOneof, BoolOneof;
      hide IntFieldSize, BoolFieldSize, BytesFieldSize, IntOneofSize, BoolOneofSize;
      hide PairMessage.RecordsOfAll, PairMessage.SizeOfAll, PairMessage.ValuesOf, PairMessage.ValueOf,
           PairMessage.Ready;
      ghost var v, done := ValueOf(c), [];
      end := at;
      end := WriteIntFieldToArray(1, c.index, target, end, pre, done);
      NothingBefore(IntField(1, v.index));
      done := IntField(1, v.index);
      end := WriteIntFieldToArray(2, c.sqlType, target, end, pre, done);
      done := done + IntField(2, v.sqlType);
      end := WriteBytesFieldToArray(3, c.name, target, end, pre, done);
      done := done + BytesField(3, v.name);
      end := WriteBoolFieldToArray(4, c.isKey, target, end, pre, done);
      done := done + BoolField(4, v.isKey);
      end := WriteBoolFieldToArray(5, c.updated, target, end, pre, done);
      done := done + BoolField(5, v.updated);
    }

    /** The guarded writes of fields 6 to 10. */
    method WriteLastFieldsToArray(c: ColumnFields<PairMessage.PairNode>, target: array<byte>, at: nat,
                                ghost pre: Bytes, ghost recs: seq<Record>)
      returns (end: nat)
      requires PairMessage.Ready(c.props)
      requires Wrote(target, at, pre, recs)
      requires at + LastSize(ValueOf(c)) <= target.Length
      modifies target
      ensures end == at + LastSize(ValueOf(c))
      ensures Wrote(target, end, pre, LastRecords(recs, ValueOf(c)))
    {
      hide Wrote, IntField, BoolField, BytesField, IntOneof, BoolOneof;
      hide IntFieldSize, BoolFieldSize, BytesFieldSize, IntOneofSize, BoolOneofSize;
      hide PairMessage.RecordsOfAll, PairMessage.SizeOfAll, PairMessage.ValuesOf, PairMessage.ValueOf,
           PairMessage.Ready;
      ghost var v, done := ValueOf(c), recs;
      end := at;
      end := WriteBoolOneofToArray(6, c.isNull, target, end, pre, done);
      done := done + BoolOneof(6, v.isNull);
      end := PairMessage.WriteAllToArray(7, c.props, target, end, pre, done);
      done := done + PairMessage.RecordsOfAll(7, v.props);
      end := WriteBytesFieldToArray(8, c.value, target, end, pre, done);
      done := done + BytesField(8, v.value);
      end := WriteIntFieldToArray(9, c.length, target, end, pre, done);
      done := done + IntField(9, v.length);
      end := WriteBytesFieldToArray(10, c.mysqlType, target, end, pre, done);
      done := done + BytesField(10, v.mysqlType);
    }

    method InternalSerializeWithCachedSizesToArray(target: array<byte>, at: nat) returns (end: nat)
      requires Sized(AsNode()) && Size(Value()) <= INT_MAX
      requires at + Size(Value()) <= target.Length
      modifies target
      ensures end == at + Size(Value())
      ensures target[..end] == old(target[..at]) + Encode(Value())
    {
      var c := Contents();
      ghost var v, pre := ValueOf(c), target[..at];
      ReadyToWrite();
      PartsInOrder(v);
      hide *;
      NothingWrote(target, at);
      end := at;
      end := WriteFirstFieldsToArray(c, target, end, pre);
      end := WriteLastFieldsToArray(c, target, end, pre, FirstRecords(v));
      end := SerializeUnknownFieldsToArray(c.unknown, target, end, pre, KnownRecords(v));
      WroteMeans(target, end, pre, KnownRecords(v) + c.unknown);
    }

    method SerializeWithCachedSizes(output: CodedOutputStream)
      requires Sized(AsNode()) && Size(Value()) <= INT_MAX
      modifies output
      ensures output.written == old(output.written) + Encode(Value())
    {
      var c := Contents();
      ghost var v, pre, done := ValueOf(c), output.written, [];
      PartsReady(AsNode());
      hide CodedOutputStream.Holds, EncodeRecords, IntField, BoolField, BytesField, IntOneof, BoolOneof;
      hide PairMessage.RecordsOfAll, PairMessage.ValuesOf, PairMessage.ValueOf, PairMessage.Ready;
      assert v == Value();
      hide Sized, Contents, AsNode, Value;
      output.HoldsNothing();
      output.WriteIntField(1, c.index, pre, done);
      NothingBefore(IntField(1, v.index));
      done := IntField(1, v.index);
      output.WriteIntField(2, c.sqlType, pre, done);
      done := done + IntField(2, v.sqlType);
      output.WriteBytesField(3, c.name, pre, done);
      done := done + BytesField(3, v.name);
      output.WriteBoolField(4, c.isKey, pre, done);
      done := done + BoolField(4, v.isKey);
      output.WriteBoolField(5, c.updated, pre, done);
      done := done + BoolField(5, v.updated);
      output.WriteBoolOneof(6, c.isNull, pre, done);
      done := done + BoolOneof(6, v.isNull);
      PairMessage.WriteAll(7, c.props, output, pre, done);
      done := done + PairMessage.RecordsOfAll(7, v.props);
      output.WriteBytesField(8, c.value, pre, done);
      done := done + BytesField(8, v.value);
      output.WriteIntField(9, c.length, pre, done);
      done := done + IntField(9, v.length);
      output.WriteBytesField(10, c.mysqlType, pre, done);
      done := done + BytesField(10, v.mysqlType);
      assert done == KnownRecords(v);
      output.SerializeUnknownFields(c.unknown, pre, done);
      assert done + c.unknown == Records(v);
      output.HoldsMeans(pre, Records(v));
    }
  }

  // ------------------------------------------- fields of this type

  /** Appending copies of the elements of from. */
  method MergeAll(to: seq<ColumnNode>, from: seq<ColumnNode>) returns (r: seq<ColumnNode>)
    ensures ValuesOf(r) == ValuesOf(to) + ValuesOf(from)
  {
    hide ValuesOf, ValueOf;
    r := to;
    var i := 0;
    while i < |from|
      invariant 0 <= i <= |from|
      invariant ValuesOf(r) == ValuesOf(to) + ValuesOf(from)[..i]
    {
      var node := CopyOfOne(from[i]);
      ValuesOfAppend(r, node);
      r := r + [node];
      i := i + 1;
    }
  }

  /** A new element that the given one is merged into. */
  method CopyOfOne(node: ColumnNode) returns (copy: ColumnNode)
    ensures ValueOf(copy.contents) == ValueOf(node.contents)
  {
    hide ValueOf, Merge, Column.AsNode, Column.Contents;
    var x := new Column();
    var y := new Column.At(node);
    x.MergeFrom(y);
    MergeLaws(y.Value(), EMPTY, EMPTY);
    copy := x.AsNode();
  }

  /** The size loop over a repeated field: it leaves every cached size right. */
  method ByteSizeOfAll(ns: seq<ColumnNode>) returns (total: nat, sized: seq<ColumnNode>)
    ensures total == SizeOfAll(ValuesOf(ns))
    ensures ValuesOf(sized) == ValuesOf(ns) && AllSized(sized)
  {
    hide ValuesOf, ValueOf, Size, SizeOfAll, LengthDelimitedSize, Sized, Column.AsNode, Column.Contents;
    ghost var vs := ValuesOf(ns);
    total, sized := 0, [];
    var i := 0;
    AllOfNothing(1, vs);
    ValuesOfNothing();
    while i < |ns|
      invariant 0 <= i <= |ns|
      invariant total == SizeOfAll(vs[..i])
      invariant ValuesOf(sized) == vs[..i] && AllSized(sized)
    {
      var n, node := ByteSizeOfOne(ns[i]);
      ValuesOfAppend(sized, node);
      assert vs[..i + 1] == vs[..i] + [vs[i]];
      AllPrefix(1, vs, i);
      total, sized := total + 1 + LengthDelimitedSize(n), sized + [node];
      i := i + 1;
    }
    assert vs[..i] == vs;
  }

  method ByteSizeOfOne(node: ColumnNode) returns (total: nat, sized: ColumnNode)
    ensures total == Size(ValueOf(node.contents))
    ensures ValueOf(sized.contents) == ValueOf(node.contents) && Sized(sized)
  {
    hide ValueOf, Size, Sized, Column.AsNode, Column.Contents;
    var x := new Column.At(node);
    total := x.ByteSizeLong();
    sized := x.AsNode();
  }

  lemma ValuesOfNothing()
    ensures ValuesOf([]) == []
  {
  }

  method WriteAllToArray(n: nat, ns: seq<ColumnNode>, target: array<byte>, at: nat, ghost pre: Bytes,
                         ghost recs: seq<Record>)
    returns (end: nat)
    requires n < 16
    requires Ready(ns)
    requires Wrote(target, at, pre, recs)
    requires at + SizeOfAll(ValuesOf(ns)) <= target.Length
    modifies target
    ensures end == at + SizeOfAll(ValuesOf(ns))
    ensures Wrote(target, end, pre, recs + RecordsOfAll(n, ValuesOf(ns)))
  {
    hide ValuesOf, ValueOf, Size, Encode, SizeOfAll, LengthDelimitedSize, RecordsOfAll, Wrote, Sized;
    ghost var vs, done := ValuesOf(ns), recs;
    end := at;
    var i := 0;
    AllOfNothing(n, vs);
    while i < |ns|
      invariant 0 <= i <= |ns|
      invariant done == recs + RecordsOfAll(n, vs[..i])
      invariant end == at + SizeOfAll(vs[..i]) <= target.Length
      invariant Wrote(target, end, pre, done)
    {
      AllPrefix(n, vs, i);
      end := WriteOneToArray(n, ns[i], target, end, pre, done);
      done := done + [BytesRecord(n, Encode(vs[i]))];
      i := i + 1;
    }
    assert vs[..i] == vs;
  }

  /** The length prefix is the cached size; the contents follow it. */
  method WriteOneToArray(n: nat, node: ColumnNode, target: array<byte>, at: nat, ghost pre: Bytes,
                         ghost recs: seq<Record>)
    returns (end: nat)
    requires n < 16
    requires Sized(node) && Size(ValueOf(node.contents)) <= INT_MAX
    requires Wrote(target, at, pre, recs)
    requires at + 1 + LengthDelimitedSize(Size(ValueOf(node.contents))) <= target.Length
    modifies target
    ensures end == at + 1 + LengthDelimitedSize(Size(ValueOf(node.contents)))
    ensures Wrote(target, end, pre, recs + [BytesRecord(n, Encode(ValueOf(node.contents)))])
  {
    ghost var v := ValueOf(node.contents);
    SizeIsLength(v);
    SmallSizeIsCached(Size(v));
    hide ValueOf, Size, Encode, EncodeRecords, Varint, VarintSize, ToCachedSize, Column.Contents;
    var x := new Column.At(node);
    end := WriteMessageHeadToArray(n, x.cachedSize, target, at, pre, recs);
    end := x.InternalSerializeWithCachedSizesToArray(target, end);
    MessageIsRecord(pre, recs, n, Encode(v));
  }

  method WriteAll(n: nat, ns: seq<ColumnNode>, output: CodedOutputStream, ghost pre: Bytes, ghost recs: seq<Record>)
    requires n < 16
    requires Ready(ns)
    requires output.Holds(pre, recs)
    modifies output
    ensures output.Holds(pre, recs + RecordsOfAll(n, ValuesOf(ns)))
  {
    hide ValuesOf, ValueOf, Size, Encode, RecordsOfAll, SizeOfAll, LengthDelimitedSize, CodedOutputStream.Holds, Sized;
    ghost var vs, done := ValuesOf(ns), recs;
    var i := 0;
    AllOfNothing(n, vs);
    while i < |ns|
      invariant 0 <= i <= |ns|
      invariant done == recs + RecordsOfAll(n, vs[..i])
      invariant output.Holds(pre, done)
    {
      AllPrefix(n, vs, i);
      WriteOne(n, ns[i], output, pre, done);
      done := done + [BytesRecord(n, Encode(vs[i]))];
      i := i + 1;
    }
    assert vs[..i] == vs;
  }

  /** Into the stream's buffer if it has room for the whole message, piecewise otherwise. */
  method WriteOne(n: nat, node: ColumnNode, output: CodedOutputStream, ghost pre: Bytes, ghost recs: seq<Record>)
    requires n < 16
    requires Sized(node) && Size(ValueOf(node.contents)) <= INT_MAX
    requires output.Holds(pre, recs)
    modifies output
    ensures output.Holds(pre, recs + [BytesRecord(n, Encode(ValueOf(node.contents)))])
  {
    ghost var v := ValueOf(node.contents);
    SizeIsLength(v);
    SmallSizeIsCached(Size(v));
    hide ValueOf, Size, Encode, EncodeRecords, Varint, VarintSize, ToCachedSize, Column.Contents;
    var x := new Column.At(node);
    var size: nat := x.cachedSize;
    output.Write(Varint(n * 8 + 2) + Varint(size));
    if output.HasDirectBuffer(size) {
      var buffer := new byte[size];
      var end := x.InternalSerializeWithCachedSizesToArray(buffer, 0);
      assert buffer[..end] == Encode(v);
      output.Write(buffer[..end]);
    } else {
      x.SerializeWithCachedSizes(output);
    }
    MessageIsRecord(pre, recs, n, Encode(v));
  }
}
