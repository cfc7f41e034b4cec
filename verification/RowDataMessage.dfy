/** Message RowData: the columns of a row before and after a change. */
module RowDataMessage {
  import opened Wire
  import opened Codec
  import opened Fields
  import opened CodedStream
  import ColumnMessage
  import PairMessage

  /** The members of the message; its sub-messages are values or nodes. */
  datatype RowDataFields<C, P> = RowDataFields(
    beforeColumns: seq<C>,
    afterColumns: seq<C>,
    props: seq<P>,
    unknown: seq<Record>)

  type RowDataValue = RowDataFields<ColumnMessage.ColumnValue, PairMessage.PairValue>

  const EMPTY: RowDataValue := RowDataFields([], [], [], [])

  // ---------------------------------------------------- what the codec means

  /** The records the parser stores in a field; all others it keeps as unknown. */
  predicate Known(r: Record) {
    match r.number
    case 1 => r.value.LenValue?
    case 2 => r.value.LenValue?
    case 3 => r.value.LenValue?
    case _ => false
  }

  /** A record that does not stop the parser: a string must be UTF-8, a sub-message must parse. */
  predicate Acceptable(r: Record) {
    match r.number
    case 1 => r.value.LenValue? ==> ColumnMessage.Parse(r.value.data).Some?
    case 2 => r.value.LenValue? ==> ColumnMessage.Parse(r.value.data).Some?
    case 3 => r.value.LenValue? ==> PairMessage.Parse(r.value.data).Some?
    case _ => true
  }

  function Step(m: RowDataValue, r: Record): Option<RowDataValue> {
    if !Known(r) then Some(m.(unknown := m.unknown + [r]))
    else
      match r.number
      case 1 =>
        (match ColumnMessage.Parse(r.value.data)
         case None => None
         case Some(x) => Some(m.(beforeColumns := m.beforeColumns + [x])))
      case 2 =>
        (match ColumnMessage.Parse(r.value.data)
         case None => None
         case Some(x) => Some(m.(afterColumns := m.afterColumns + [x])))
      case _ =>
        (match PairMessage.Parse(r.value.data)
         case None => None
         case Some(x) => Some(m.(props := m.props + [x])))
  }

  /** The records of the fields, in the order they are written. */
  function KnownRecords(m: RowDataValue): seq<Record> {
    ColumnMessage.RecordsOfAll(1, m.beforeColumns) + ColumnMessage.RecordsOfAll(2, m.afterColumns) +
    PairMessage.RecordsOfAll(3, m.props)
  }

  function Records(m: RowDataValue): seq<Record> { KnownRecords(m) + m.unknown }

  function Encode(m: RowDataValue): Bytes { EncodeRecords(Records(m)) }

  /** Summed in the order of ByteSizeLong, which is not the order of emission. */
  function Size(m: RowDataValue): nat {
    RecordsSize(m.unknown) + ColumnMessage.SizeOfAll(m.beforeColumns) +
    ColumnMessage.SizeOfAll(m.afterColumns) + PairMessage.SizeOfAll(m.props)
  }

  function Merge(x: RowDataValue, y: RowDataValue): RowDataValue {
    RowDataFields(
      beforeColumns := x.beforeColumns + y.beforeColumns,
      afterColumns := x.afterColumns + y.afterColumns,
      props := x.props + y.props,
      unknown := x.unknown + y.unknown)
  }

  /** The messages a parser can produce. */
  ghost predicate Valid(m: RowDataValue) {
    && (forall x :: x in m.beforeColumns ==> ColumnMessage.Valid(x))
    && (forall x :: x in m.afterColumns ==> ColumnMessage.Valid(x))
    && (forall x :: x in m.props ==> PairMessage.Valid(x))
    && UnknownTo(Known, m.unknown)
  }

  /** Parsing b into m: the fold of Step over the records of b. */
  function ParseFrom(m: RowDataValue, b: Bytes): Option<RowDataValue> { ParseInto(Step, m, b) }

  function Parse(b: Bytes): Option<RowDataValue> { ParseFrom(EMPTY, b) }

  /** A message over the two-gigabyte limit of the library is not serialised. */
  function Serialize(m: RowDataValue): Option<Bytes> {
    if Size(m) <= INT_MAX then Some(Encode(m)) else None
  }

  /** A repeated field of this type: its records, and their size. */
  function RecordsOfAll(n: nat, xs: seq<RowDataValue>): seq<Record> { MessageFields(n, Encode, xs) }

  function SizeOfAll(xs: seq<RowDataValue>): nat { |xs| + RepeatedSize(Size, xs) }

  /** Messages that records of such a field hold, one each, in order. */
  ghost predicate ParsedAll(rs: seq<Record>, xs: seq<RowDataValue>) {
    |rs| == |xs| &&
    forall i :: 0 <= i < |rs| ==> rs[i].value.LenValue? && Parse(rs[i].value.data) == Some(xs[i])
  }

  // -------------------------------------------------------------------- laws

  lemma SizeIsLength(m: RowDataValue)
    ensures |Encode(m)| == Size(m)
  {
    hide RecordsSize, EncodeRecords, Varint, VarintSize;
    hide ColumnMessage.RecordsOfAll, ColumnMessage.SizeOfAll;
    hide PairMessage.RecordsOfAll, PairMessage.SizeOfAll;
    hide IntField, BoolField, BytesField, IntOneof, BoolOneof;
    hide IntFieldSize, BoolFieldSize, BytesFieldSize, IntOneofSize, BoolOneofSize;
    ColumnMessage.SizeOfAllIsLength(1, m.beforeColumns);
    var s0 := ColumnMessage.RecordsOfAll(1, m.beforeColumns);
    ColumnMessage.SizeOfAllIsLength(2, m.afterColumns);
    RecordsSizeConcat(s0, ColumnMessage.RecordsOfAll(2, m.afterColumns));
    var s1 := s0 + ColumnMessage.RecordsOfAll(2, m.afterColumns);
    PairMessage.SizeOfAllIsLength(3, m.props);
    RecordsSizeConcat(s1, PairMessage.RecordsOfAll(3, m.props));
    var s2 := s1 + PairMessage.RecordsOfAll(3, m.props);
    RecordsSizeConcat(s2, m.unknown);
    RecordsSizeIsLength(Records(m));
  }

  lemma SizeOfAllIsLength(n: nat, xs: seq<RowDataValue>)
    requires n < 16
    ensures RecordsSize(RecordsOfAll(n, xs)) == SizeOfAll(xs)
  {
    hide RecordsSize, RepeatedSize, MessageFields, Encode, Size;
    forall x | x in xs ensures |Encode(x)| == Size(x) { SizeIsLength(x); }
    RepeatedSizeIsLength(n, Encode, Size, xs);
  }

  lemma ElementFits(xs: seq<RowDataValue>, x: RowDataValue)
    requires x in xs
    ensures Size(x) < SizeOfAll(xs)
  {
    hide RepeatedSize, Size;
    ElementBelowRepeatedSize(Size, xs, x);
  }

  lemma AllPrefix(n: nat, xs: seq<RowDataValue>, i: nat)
    requires i < |xs|
    ensures RecordsOfAll(n, xs[..i + 1]) == RecordsOfAll(n, xs[..i]) + [BytesRecord(n, Encode(xs[i]))]
    ensures SizeOfAll(xs[..i + 1]) == SizeOfAll(xs[..i]) + 1 + LengthDelimitedSize(Size(xs[i]))
    ensures SizeOfAll(xs[..i + 1]) <= SizeOfAll(xs)
  {
    hide RepeatedSize, MessageFields, Encode, Size, LengthDelimitedSize;
    MessageFieldsPrefix(n, Encode, xs, i);
    RepeatedSizePrefix(Size, xs, i);
  }

  lemma RecordsOfAllKnown(known: Record -> bool, n: nat, xs: seq<RowDataValue>)
    requires 1 <= n < 16 && forall x :: x in xs ==> known(BytesRecord(n, Encode(x)))
    ensures AllKnown(known, RecordsOfAll(n, xs))
  {
    hide Encode;
    MessageFieldsKnown(known, n, Encode, xs);
  }

  lemma OneMoreParsed(rs: seq<Record>, xs: seq<RowDataValue>, r: Record, x: RowDataValue)
    requires ParsedAll(rs, xs) && r.value.LenValue? && Parse(r.value.data) == Some(x)
    ensures ParsedAll(rs + [r], xs + [x])
  {
    hide Parse;
  }

  lemma AllOfNothing(n: nat, xs: seq<RowDataValue>)
    ensures RecordsOfAll(n, xs[..0]) == [] && SizeOfAll(xs[..0]) == 0
  {
  }

  lemma {:induction false} ReplayBeforeColumns(x: RowDataValue, ys: seq<ColumnMessage.ColumnValue>)
    requires forall y :: y in ys ==> ColumnMessage.Valid(y) && ColumnMessage.Size(y) <= INT_MAX
    ensures Fold(Step, x, ColumnMessage.RecordsOfAll(1, ys)) == Some(x.(beforeColumns := x.beforeColumns + ys))
    decreases |ys|
  {
    hide Fold, ColumnMessage.Encode, ColumnMessage.Valid, ColumnMessage.Merge, ColumnMessage.ParseFrom,
         ColumnMessage.RecordsOfAll;
    if ys == [] {
      ColumnMessage.AllOfNothing(1, ys);
      FoldNothing(Step, x);
      assert ys[..0] == ys && x.beforeColumns + ys == x.beforeColumns;
    } else {
      var init, last := ys[..|ys| - 1], ys[|ys| - 1];
      var x1, r := x.(beforeColumns := x.beforeColumns + init), BytesRecord(1, ColumnMessage.Encode(last));
      ReplayBeforeColumns(x, init);
      ColumnMessage.AllPrefix(1, ys, |ys| - 1);
      ColumnMessage.ParseEncoded(ColumnMessage.EMPTY, last);
      ColumnMessage.MergeLaws(last, last, last);
      FoldOne(Step, x1, r);
      Rejoined(x.beforeColumns, ys);
      FoldThen(Step, x, ColumnMessage.RecordsOfAll(1, init), x1, [r], x.(beforeColumns := x.beforeColumns + ys));
    }
  }

  lemma {:induction false} ReplayAfterColumns(x: RowDataValue, ys: seq<ColumnMessage.ColumnValue>)
    requires forall y :: y in ys ==> ColumnMessage.Valid(y) && ColumnMessage.Size(y) <= INT_MAX
    ensures Fold(Step, x, ColumnMessage.RecordsOfAll(2, ys)) == Some(x.(afterColumns := x.afterColumns + ys))
    decreases |ys|
  {
    hide Fold, ColumnMessage.Encode, ColumnMessage.Valid, ColumnMessage.Merge, ColumnMessage.ParseFrom,
         ColumnMessage.RecordsOfAll;
    if ys == [] {
      ColumnMessage.AllOfNothing(2, ys);
      FoldNothing(Step, x);
      assert ys[..0] == ys && x.afterColumns + ys == x.afterColumns;
    } else {
      var init, last := ys[..|ys| - 1], ys[|ys| - 1];
      var x1, r := x.(afterColumns := x.afterColumns + init), BytesRecord(2, ColumnMessage.Encode(last));
      ReplayAfterColumns(x, init);
      ColumnMessage.AllPrefix(2, ys, |ys| - 1);
      ColumnMessage.ParseEncoded(ColumnMessage.EMPTY, last);
      ColumnMessage.MergeLaws(last, last, last);
      FoldOne(Step, x1, r);
      Rejoined(x.afterColumns, ys);
      FoldThen(Step, x, ColumnMessage.RecordsOfAll(2, init), x1, [r], x.(afterColumns := x.afterColumns + ys));
    }
  }

  lemma {:induction false} ReplayProps(x: RowDataValue, ys: seq<PairMessage.PairValue>)
    requires forall y :: y in ys ==> PairMessage.Valid(y) && PairMessage.Size(y) <= INT_MAX
    ensures Fold(Step, x, PairMessage.RecordsOfAll(3, ys)) == Some(x.(props := x.props + ys))
    decreases |ys|
  {
    hide Fold, PairMessage.Encode, PairMessage.Valid, PairMessage.Merge, PairMessage.ParseFrom,
         PairMessage.RecordsOfAll;
    if ys == [] {
      PairMessage.AllOfNothing(3, ys);
      FoldNothing(Step, x);
      assert ys[..0] == ys && x.props + ys == x.props;
    } else {
      var init, last := ys[..|ys| - 1], ys[|ys| - 1];
      var x1, r := x.(props := x.props + init), BytesRecord(3, PairMessage.Encode(last));
      ReplayProps(x, init);
      PairMessage.AllPrefix(3, ys, |ys| - 1);
      PairMessage.ParseEncoded(PairMessage.EMPTY, last);
      PairMessage.MergeLaws(last, last, last);
      FoldOne(Step, x1, r);
      Rejoined(x.props, ys);
      FoldThen(Step, x, PairMessage.RecordsOfAll(3, init), x1, [r], x.(props := x.props + ys));
    }
  }

  lemma ReplayUnknown(x: RowDataValue, us: seq<Record>)
    requires UnknownTo(Known, us)
    ensures Fold(Step, x, us) == Some(x.(unknown := x.unknown + us))
  {
    var append := (m: RowDataValue, rs: seq<Record>) => m.(unknown := m.unknown + rs);
    forall m: RowDataValue, a: seq<Record>, b: seq<Record> ensures append(append(m, a), b) == append(m, a + b) {
      assert (m.unknown + a) + b == m.unknown + (a + b);
    }
    forall m: RowDataValue ensures append(m, []) == m {
      assert m.unknown + [] == m.unknown;
    }
    FoldAppends(Step, Known, append, x, us);
  }

  /** Replaying the records of y is merging y. */
  lemma Replay(x: RowDataValue, y: RowDataValue)
    requires Valid(y)
    requires forall c :: c in y.beforeColumns ==> ColumnMessage.Size(c) <= INT_MAX
    requires forall c :: c in y.afterColumns ==> ColumnMessage.Size(c) <= INT_MAX
    requires forall c :: c in y.props ==> PairMessage.Size(c) <= INT_MAX
    ensures Fold(Step, x, Records(y)) == Some(Merge(x, y))
  {
    hide MergeInt32, MergeInt64, MergeBool, MergeBytes, MergeOneof;
    hide ColumnMessage.RecordsOfAll;
    hide PairMessage.RecordsOfAll;
    hide Step, Fold, ValidUtf8, UnknownTo, IntField, BoolField, BytesField, IntOneof, BoolOneof;
    var x1 := x.(beforeColumns := x.beforeColumns + y.beforeColumns);
    ReplayBeforeColumns(x, y.beforeColumns);
    var s1 := ColumnMessage.RecordsOfAll(1, y.beforeColumns);
    var x2 := x1.(afterColumns := x1.afterColumns + y.afterColumns);
    ReplayAfterColumns(x1, y.afterColumns);
    FoldThen(Step, x, s1, x1, ColumnMessage.RecordsOfAll(2, y.afterColumns), x2);
    var s2 := s1 + ColumnMessage.RecordsOfAll(2, y.afterColumns);
    var x3 := x2.(props := x2.props + y.props);
    ReplayProps(x2, y.props);
    FoldThen(Step, x, s2, x2, PairMessage.RecordsOfAll(3, y.props), x3);
    var s3 := s2 + PairMessage.RecordsOfAll(3, y.props);
    ReplayUnknown(x3, y.unknown);
    FoldThen(Step, x, s3, x3, y.unknown, Merge(x, y));
  }

  lemma ParseEncoded(x: RowDataValue, y: RowDataValue)
    requires Valid(y) && Size(y) <= INT_MAX
    ensures ParseFrom(x, Encode(y)) == Some(Merge(x, y))
  {
    SizeIsLength(y);
    RecordsSizeIsLength(Records(y));
    PartsFit(y);
    RecordsHaveNumbers(y);
    hide Fold, EncodeRecords, RecordsSize, Records, Size, Valid, Merge;
    SmallRecordsAreValid(Records(y));
    Codec.ParseEncoded(Step, x, Records(y));
    Replay(x, y);
  }

  lemma PartsFit(m: RowDataValue)
    ensures forall c :: c in m.beforeColumns ==> ColumnMessage.Size(c) <= Size(m)
    ensures forall c :: c in m.afterColumns ==> ColumnMessage.Size(c) <= Size(m)
    ensures forall c :: c in m.props ==> PairMessage.Size(c) <= Size(m)
  {
    hide RecordsSize, VarintSize;
    hide ColumnMessage.SizeOfAll, ColumnMessage.Size;
    hide PairMessage.SizeOfAll, PairMessage.Size;
    forall c | c in m.beforeColumns ensures ColumnMessage.Size(c) <= Size(m) {
      ColumnMessage.ElementFits(m.beforeColumns, c);
    }
    forall c | c in m.afterColumns ensures ColumnMessage.Size(c) <= Size(m) {
      ColumnMessage.ElementFits(m.afterColumns, c);
    }
    forall c | c in m.props ensures PairMessage.Size(c) <= Size(m) {
      PairMessage.ElementFits(m.props, c);
    }
  }

  /** Every record written for a field is one the parser stores in a field. */
  lemma KnownRecordsAreKnown(m: RowDataValue)
    ensures AllKnown(Known, KnownRecords(m))
  {
    hide ColumnMessage.RecordsOfAll, ColumnMessage.Encode;
    hide PairMessage.RecordsOfAll, PairMessage.Encode;
    ColumnMessage.RecordsOfAllKnown(Known, 1, m.beforeColumns);
    ColumnMessage.RecordsOfAllKnown(Known, 2, m.afterColumns);
    PairMessage.RecordsOfAllKnown(Known, 3, m.props);
    hide AllKnown, Known, IntField, BoolField, BytesField, IntOneof, BoolOneof;
    var s0 := ColumnMessage.RecordsOfAll(1, m.beforeColumns);
    AllKnownConcat(Known, s0, ColumnMessage.RecordsOfAll(2, m.afterColumns));
    var s1 := s0 + ColumnMessage.RecordsOfAll(2, m.afterColumns);
    AllKnownConcat(Known, s1, PairMessage.RecordsOfAll(3, m.props));
  }

  lemma RecordsHaveNumbers(m: RowDataValue)
    requires Valid(m)
    ensures forall i :: 0 <= i < |Records(m)| ==> 1 <= Records(m)[i].number < 0x2000_0000
  {
    KnownRecordsAreKnown(m);
    hide KnownRecords, Known;
  }

  lemma MergeLaws(x: RowDataValue, y: RowDataValue, z: RowDataValue)
    ensures Merge(EMPTY, x) == x
    ensures Merge(x, EMPTY) == x
    ensures Merge(Merge(x, y), z) == Merge(x, Merge(y, z))
  {
    assert (x.beforeColumns + y.beforeColumns) + z.beforeColumns
        == x.beforeColumns + (y.beforeColumns + z.beforeColumns)
           && [] + x.beforeColumns == x.beforeColumns == x.beforeColumns + [];
    assert (x.afterColumns + y.afterColumns) + z.afterColumns == x.afterColumns + (y.afterColumns + z.afterColumns)
           && [] + x.afterColumns == x.afterColumns == x.afterColumns + [];
    assert (x.props + y.props) + z.props == x.props + (y.props + z.props) && [] + x.props == x.props == x.props + [];
    assert (x.unknown + y.unknown) + z.unknown == x.unknown + (y.unknown + z.unknown)
           && [] + x.unknown == x.unknown == x.unknown + [];
  }

  lemma StepKeeps(x: RowDataValue, r: Record)
    requires ValidRecord(r) && Step(x, r).Some?
    ensures Valid(x) ==> Valid(Step(x, r).value)
    ensures Step(x, r).value.unknown == x.unknown + (if Known(r) then [] else [r])
  {
    if r.number == 1 && r.value.LenValue? {
      ColumnMessage.EmptyIsValid();
      ColumnMessage.ParseIsValid(ColumnMessage.EMPTY, r.value.data);
    }
    if r.number == 2 && r.value.LenValue? {
      ColumnMessage.EmptyIsValid();
      ColumnMessage.ParseIsValid(ColumnMessage.EMPTY, r.value.data);
    }
    if r.number == 3 && r.value.LenValue? {
      PairMessage.EmptyIsValid();
      PairMessage.ParseIsValid(PairMessage.EMPTY, r.value.data);
    }
    hide ColumnMessage.Parse, ColumnMessage.Valid;
    hide PairMessage.Parse, PairMessage.Valid;
    hide ValidUtf8;
  }

  lemma StepAccepts(m: RowDataValue, r: Record)
    ensures Step(m, r).Some? <==> Acceptable(r)
  {
    hide ValidUtf8, ColumnMessage.Parse, PairMessage.Parse;
  }

  /** A byte string parses exactly if it splits into records of which each is acceptable. */
  lemma ParsesExactlyIf(m: RowDataValue, b: Bytes)
    ensures ParseFrom(m, b).Some? <==>
              DecodeRecords(b).Some? && forall r :: r in DecodeRecords(b).value ==> Acceptable(r)
  {
    forall x: RowDataValue, r: Record ensures Step(x, r).Some? <==> Acceptable(r) { StepAccepts(x, r); }
    hide Step, Acceptable;
    if DecodeRecords(b).Some? { FoldSucceeds(Step, Acceptable, m, DecodeRecords(b).value); }
  }

  lemma EmptyIsValid()
    ensures Valid(EMPTY)
  {
  }

  lemma ParseIsValid(x: RowDataValue, b: Bytes)
    requires ParseFrom(x, b).Some?
    ensures Valid(x) ==> Valid(ParseFrom(x, b).value)
    ensures ParseFrom(x, b).value.unknown == x.unknown + Unknowns(Known, DecodeRecords(b).value)
  {
    SplitIsBounded(b);
    var unknownOf, valid := (m: RowDataValue) => m.unknown, (m: RowDataValue) => Valid(m);
    forall m: RowDataValue, r: Record | ValidRecord(r) ensures Keeps(Step, Known, unknownOf, valid, m, r) {
      if Step(m, r).Some? { StepKeeps(m, r); }
    }
    hide Step, Valid, Known, Keeps;
    FoldKeeps(Step, Known, unknownOf, valid, x, DecodeRecords(b).value);
  }

  /** What was serialised parses back to the same message exactly if the message is valid. */
  lemma RoundTrip(m: RowDataValue)
    requires Serialize(m).Some?
    ensures Parse(Serialize(m).value) == Some(m) <==> Valid(m)
  {
    hide ParseFrom, Encode, Size, Valid, Merge;
    if Valid(m) { ParseEncoded(EMPTY, m); MergeLaws(m, m, m); }
    EmptyIsValid();
    if Parse(Encode(m)).Some? { ParseIsValid(EMPTY, Encode(m)); }
  }

  /** Parsing one serialisation after another is merging the messages. */
  lemma MergeLaw(x: RowDataValue, y: RowDataValue)
    requires Valid(x) && Valid(y) && Serialize(x).Some? && Serialize(y).Some?
    ensures Parse(Serialize(x).value + Serialize(y).value) == Some(Merge(x, y))
  {
    hide ParseInto, Encode, Size, Valid, Merge;
    ParseEncoded(EMPTY, x);
    MergeLaws(x, x, x);
    ParseEncoded(x, y);
    ParseConcat(Step, EMPTY, Encode(x), Encode(y));
  }

  /** Whatever parses is re-serialised to bytes that parse to the same message: the records of
      the fields, then every record of the input the parser did not recognise, in order. */
  lemma ForwardCompatible(b: Bytes)
    requires Parse(b).Some? && Serialize(Parse(b).value).Some?
    ensures var m := Parse(b).value;
            && Parse(Serialize(m).value) == Some(m)
            && DecodeRecords(Serialize(m).value)
            == Some(KnownRecords(m) + Unknowns(Known, DecodeRecords(b).value))
            && AllKnown(Known, KnownRecords(m))
  {
    var m := Parse(b).value;
    EmptyIsValid();
    ParseIsValid(EMPTY, b);
    RoundTrip(m);
    KnownRecordsAreKnown(m);
    RecordsHaveNumbers(m);
    SizeIsLength(m);
    RecordsSizeIsLength(Records(m));
    hide EncodeRecords, DecodeRecords, RecordsSize, Size, Valid, KnownRecords, ParseFrom, Unknowns, Known;
    SmallRecordsAreValid(Records(m));
    DecodeInverts(Records(m));
    assert [] + Unknowns(Known, DecodeRecords(b).value) == Unknowns(Known, DecodeRecords(b).value);
  }

  // ------------------------------------------ parsing any bytes, and merging

  /** Where records that fold to y from the empty message fold to z from x: a singular field is that
      of its last record, or as before if it has none; a list is extended by its sub-messages. */
  ghost predicate Overlays(x: RowDataValue, y: RowDataValue, z: RowDataValue, rs: seq<Record>) {
    && ColumnMessage.ParsedAll(AllOf(Known, 1, rs), y.beforeColumns)
        && z.beforeColumns == x.beforeColumns + y.beforeColumns
    && ColumnMessage.ParsedAll(AllOf(Known, 2, rs), y.afterColumns) && z.afterColumns == x.afterColumns + y.afterColumns
    && PairMessage.ParsedAll(AllOf(Known, 3, rs), y.props) && z.props == x.props + y.props
    && z.unknown == x.unknown + y.unknown
  }

  /** The last record of every field, and the records of every list, with one record more. */
  lemma FieldsUnroll(rs: seq<Record>)
    requires rs != []
    ensures var init, r := rs[..|rs| - 1], rs[|rs| - 1];
            var n := if Known(r) then r.number else 0;
            && AllOf(Known, 1, rs) == (if n == 1 then AllOf(Known, 1, init) + [r] else AllOf(Known, 1, init))
            && AllOf(Known, 2, rs) == (if n == 2 then AllOf(Known, 2, init) + [r] else AllOf(Known, 2, init))
            && AllOf(Known, 3, rs) == (if n == 3 then AllOf(Known, 3, init) + [r] else AllOf(Known, 3, init))
  {
    hide ToInt32, ToInt64;
  }

  lemma UnknownOverlays(x: RowDataValue, y: RowDataValue, z: RowDataValue, rs: seq<Record>)
    requires rs != [] && Overlays(x, y, z, rs[..|rs| - 1]) && Step(y, rs[|rs| - 1]).Some?
    requires !Known(rs[|rs| - 1])
    ensures Step(z, rs[|rs| - 1]).Some?
    ensures Overlays(x, Step(y, rs[|rs| - 1]).value, Step(z, rs[|rs| - 1]).value, rs)
  {
    FieldsUnroll(rs);
    hide AllOf, ToInt32, ToInt64, ValidUtf8, ColumnMessage.Parse, ColumnMessage.ParsedAll, PairMessage.Parse,
         PairMessage.ParsedAll;
  }

  lemma BeforeColumnsOverlays(x: RowDataValue, y: RowDataValue, z: RowDataValue, rs: seq<Record>)
    requires rs != [] && Overlays(x, y, z, rs[..|rs| - 1]) && Step(y, rs[|rs| - 1]).Some?
    requires Known(rs[|rs| - 1]) && rs[|rs| - 1].number == 1
    ensures Step(z, rs[|rs| - 1]).Some?
    ensures Overlays(x, Step(y, rs[|rs| - 1]).value, Step(z, rs[|rs| - 1]).value, rs)
  {
    FieldsUnroll(rs);
    hide AllOf, ToInt32, ToInt64, ValidUtf8, ColumnMessage.Parse, ColumnMessage.ParsedAll, PairMessage.Parse,
         PairMessage.ParsedAll;
    var init, r := rs[..|rs| - 1], rs[|rs| - 1];
    var p := ColumnMessage.Parse(r.value.data).value;
    ColumnMessage.OneMoreParsed(AllOf(Known, 1, init), y.beforeColumns, r, p);
    assert x.beforeColumns + (y.beforeColumns + [p]) == (x.beforeColumns + y.beforeColumns) + [p];
  }

  lemma AfterColumnsOverlays(x: RowDataValue, y: RowDataValue, z: RowDataValue, rs: seq<Record>)
    requires rs != [] && Overlays(x, y, z, rs[..|rs| - 1]) && Step(y, rs[|rs| - 1]).Some?
    requires Known(rs[|rs| - 1]) && rs[|rs| - 1].number == 2
    ensures Step(z, rs[|rs| - 1]).Some?
    ensures Overlays(x, Step(y, rs[|rs| - 1]).value, Step(z, rs[|rs| - 1]).value, rs)
  {
    FieldsUnroll(rs);
    hide AllOf, ToInt32, ToInt64, ValidUtf8, ColumnMessage.Parse, ColumnMessage.ParsedAll, PairMessage.Parse,
         PairMessage.ParsedAll;
    var init, r := rs[..|rs| - 1], rs[|rs| - 1];
    var p := ColumnMessage.Parse(r.value.data).value;
    ColumnMessage.OneMoreParsed(AllOf(Known, 2, init), y.afterColumns, r, p);
    assert x.afterColumns + (y.afterColumns + [p]) == (x.afterColumns + y.afterColumns) + [p];
  }

  lemma PropsOverlays(x: RowDataValue, y: RowDataValue, z: RowDataValue, rs: seq<Record>)
    requires rs != [] && Overlays(x, y, z, rs[..|rs| - 1]) && Step(y, rs[|rs| - 1]).Some?
    requires Known(rs[|rs| - 1]) && rs[|rs| - 1].number == 3
    ensures Step(z, rs[|rs| - 1]).Some?
    ensures Overlays(x, Step(y, rs[|rs| - 1]).value, Step(z, rs[|rs| - 1]).value, rs)
  {
    FieldsUnroll(rs);
    hide AllOf, ToInt32, ToInt64, ValidUtf8, ColumnMessage.Parse, ColumnMessage.ParsedAll, PairMessage.Parse,
         PairMessage.ParsedAll;
    var init, r := rs[..|rs| - 1], rs[|rs| - 1];
    var p := PairMessage.Parse(r.value.data).value;
    PairMessage.OneMoreParsed(AllOf(Known, 3, init), y.props, r, p);
    assert x.props + (y.props + [p]) == (x.props + y.props) + [p];
  }

  lemma StepOverlays(x: RowDataValue, y: RowDataValue, z: RowDataValue, rs: seq<Record>)
    requires rs != [] && Overlays(x, y, z, rs[..|rs| - 1]) && Step(y, rs[|rs| - 1]).Some?
    ensures Step(z, rs[|rs| - 1]).Some?
    ensures Overlays(x, Step(y, rs[|rs| - 1]).value, Step(z, rs[|rs| - 1]).value, rs)
  {
    var r := rs[|rs| - 1];
    hide Overlays, Step;
    if !Known(r) {
      UnknownOverlays(x, y, z, rs);
    } else if r.number == 1 {
      BeforeColumnsOverlays(x, y, z, rs);
    } else if r.number == 2 {
      AfterColumnsOverlays(x, y, z, rs);
    } else {
      PropsOverlays(x, y, z, rs);
    }
  }

  /** Last One Wins: what any records do to x, told by what they do to the empty message. */
  lemma {:induction false} LastOneWins(x: RowDataValue, rs: seq<Record>)
    requires Fold(Step, EMPTY, rs).Some?
    ensures Fold(Step, x, rs).Some?
    ensures Overlays(x, Fold(Step, EMPTY, rs).value, Fold(Step, x, rs).value, rs)
    decreases |rs|
  {
    if rs == [] {
      assert x.beforeColumns + [] == x.beforeColumns;
      assert x.afterColumns + [] == x.afterColumns;
      assert x.props + [] == x.props;
      assert x.unknown + [] == x.unknown;
    } else {
      var init := rs[..|rs| - 1];
      FoldLast(Step, EMPTY, rs);
      FoldLast(Step, x, rs);
      hide Step, Overlays, Fold;
      LastOneWins(x, init);
      StepOverlays(x, Fold(Step, EMPTY, init).value, Fold(Step, x, init).value, rs);
    }
  }

  /** Parsing b into any message is merging the parse of b: no field can spell out a default. */
  lemma MergesLikeParsed(x: RowDataValue, b: Bytes)
    requires Parse(b).Some?
    ensures ParseFrom(x, b) == Some(Merge(x, Parse(b).value))
  {
    LastOneWins(x, DecodeRecords(b).value);
  }

  /** The merge law on any bytes that parse. */
  lemma ConcatMerges(a: Bytes, b: Bytes)
    requires Parse(a).Some? && Parse(b).Some?
    ensures Parse(a + b) == Some(Merge(Parse(a).value, Parse(b).value))
  {
    MergesLikeParsed(Parse(a).value, b);
    hide ParseInto, Merge;
    ParseConcat(Step, EMPTY, a, b);
  }

  // --------------------------------------------------------- nodes of a tree

  /** A message inside its parent: its members and its cached size. */
  type RowDataNode = Node<RowDataFields<ColumnMessage.ColumnNode, PairMessage.PairNode>>

  function ValueOf(c: RowDataFields<ColumnMessage.ColumnNode, PairMessage.PairNode>): RowDataValue {
    RowDataFields(
      ColumnMessage.ValuesOf(c.beforeColumns), ColumnMessage.ValuesOf(c.afterColumns),
      PairMessage.ValuesOf(c.props), c.unknown)
  }

  function ValuesOf(ns: seq<RowDataNode>): (vs: seq<RowDataValue>)
    ensures |vs| == |ns| && forall i :: 0 <= i < |ns| ==> vs[i] == ValueOf(ns[i].contents)
  {
    if ns == [] then [] else ValuesOf(ns[..|ns| - 1]) + [ValueOf(ns[|ns| - 1].contents)]
  }

  lemma ValuesOfAppend(ns: seq<RowDataNode>, n: RowDataNode)
    ensures ValuesOf(ns + [n]) == ValuesOf(ns) + [ValueOf(n.contents)]
  {
    assert (ns + [n])[..|ns|] == ns;
  }

  /** Every cached size in the tree is the size of what it caches. */
  ghost predicate Sized(n: RowDataNode) {
    && n.cachedSize == ToCachedSize(Size(ValueOf(n.contents)))
    && ColumnMessage.AllSized(n.contents.beforeColumns)
    && ColumnMessage.AllSized(n.contents.afterColumns)
    && PairMessage.AllSized(n.contents.props)
  }

  ghost predicate AllSized(ns: seq<RowDataNode>) {
    forall i :: 0 <= i < |ns| ==> Sized(ns[i])
  }

  /** Ready to be written: the sizes are cached, and each of them is an int. */
  ghost predicate Ready(ns: seq<RowDataNode>) {
    forall i :: 0 <= i < |ns| ==> Sized(ns[i]) && Size(ValueOf(ns[i].contents)) <= INT_MAX
  }

  lemma PartsReady(n: RowDataNode)
    requires Sized(n) && Size(ValueOf(n.contents)) <= INT_MAX
    ensures ColumnMessage.Ready(n.contents.beforeColumns)
    ensures ColumnMessage.Ready(n.contents.afterColumns)
    ensures PairMessage.Ready(n.contents.props)
  {
    PartsFit(ValueOf(n.contents));
    hide ColumnMessage.Size, ColumnMessage.Sized, ColumnMessage.ValueOf, ColumnMessage.ValuesOf;
    hide PairMessage.Size, PairMessage.Sized, PairMessage.ValueOf, PairMessage.ValuesOf;
    hide Size, ToCachedSize;
    assert forall i :: 0 <= i < |n.contents.beforeColumns| ==>
             ColumnMessage.ValuesOf(n.contents.beforeColumns)[i] in ValueOf(n.contents).beforeColumns;
    assert forall i :: 0 <= i < |n.contents.afterColumns| ==>
             ColumnMessage.ValuesOf(n.contents.afterColumns)[i] in ValueOf(n.contents).afterColumns;
    assert forall i :: 0 <= i < |n.contents.props| ==>
             PairMessage.ValuesOf(n.contents.props)[i] in ValueOf(n.contents).props;
  }

  // ------------------------------------------------------ the mutable message

  /** What the loop does with the record after a tag: ok says whether it goes on, from m1 and rest1. */
  ghost predicate Merges(tag: nat, m0: RowDataValue, rest0: Bytes, ok: bool, m1: RowDataValue, rest1: Bytes)
    requires tag < TWO32
  {
    MergedRecord(Step, tag, m0, rest0, ok, m1, rest1)
  }

  /** What reading a length-prefixed message into m0 does: ok, and then m1 and rest1. */
  ghost predicate Reads(m0: RowDataValue, rest0: Bytes, ok: bool, m1: RowDataValue, rest1: Bytes) {
    match ReadPayload(2, rest0)
    case None => !ok
    case Some((w, k)) => ParseFrom(m0, w.data) == (if ok then Some(m1) else None) && (ok ==> rest1 == rest0[k..])
  }

  lemma Turns(m: RowDataValue, b: Bytes, tag: nat, n: nat, ok: bool, m1: RowDataValue, rest1: Bytes)
    requires b != [] && ReadTag(b) == Some((tag, n))
    requires Merges(tag, m, b[n..], ok, m1, rest1)
    ensures ok ==> ParseFrom(m, b) == ParseFrom(m1, rest1) && |rest1| < |b|
    ensures !ok ==> ParseFrom(m, b) == None
  {
    hide ReadTag, ReadAfterTag, ParseInto, Step;
    LoopTurns(Step, m, b, tag, n, ok, m1, rest1);
  }

  /** The loop stops at tag 0: rightly at the end of the window, wrongly anywhere else. */
  lemma Stops(m: RowDataValue, b: Bytes)
    requires b == [] || ReadTag(b) == None || ReadTag(b).value.0 == 0
    ensures ParseFrom(m, b) == if b == [] then Some(m) else None
  {
    hide ParseInto;
    LoopStops(Step, m, b);
  }

  class RowData {
    var beforeColumns: seq<ColumnMessage.ColumnNode>
    var afterColumns: seq<ColumnMessage.ColumnNode>
    var props: seq<PairMessage.PairNode>
    var unknown: seq<Record>
    var cachedSize: int32

    function Contents(): RowDataFields<ColumnMessage.ColumnNode, PairMessage.PairNode>
      reads this
    {
      RowDataFields(beforeColumns, afterColumns, props, unknown)
    }

    function AsNode(): RowDataNode
      reads this
    {
      Node(Contents(), cachedSize)
    }

    ghost function Value(): RowDataValue
      reads this
    {
      ValueOf(AsNode().contents)
    }

    constructor ()
      ensures Value() == EMPTY
    {
      beforeColumns := [];
      afterColumns := [];
      props := [];
      unknown := [];
      cachedSize := 0;
    }

    /** A message taken out of its parent. */
    constructor At(node: RowDataNode)
      ensures AsNode() == node
    {
      beforeColumns := node.contents.beforeColumns;
      afterColumns := node.contents.afterColumns;
      props := node.contents.props;
      unknown := node.contents.unknown;
      cachedSize := node.cachedSize;
    }

    constructor Copy(from: RowData)
      ensures Value() == from.Value()
    {
      ColumnMessage.ValuesOfNothing();
      PairMessage.ValuesOfNothing();
      hide ColumnMessage.ValuesOf, ColumnMessage.ValueOf;
      hide PairMessage.ValuesOf, PairMessage.ValueOf;
      var beforeColumnsCopy := ColumnMessage.MergeAll([], from.beforeColumns);
      var afterColumnsCopy := ColumnMessage.MergeAll([], from.afterColumns);
      var propsCopy := PairMessage.MergeAll([], from.props);
      assert ColumnMessage.ValuesOf(beforeColumnsCopy) == ColumnMessage.ValuesOf(from.beforeColumns);
      assert ColumnMessage.ValuesOf(afterColumnsCopy) == ColumnMessage.ValuesOf(from.afterColumns);
      assert PairMessage.ValuesOf(propsCopy) == PairMessage.ValuesOf(from.props);
      unknown := from.unknown;
      beforeColumns := beforeColumnsCopy;
      afterColumns := afterColumnsCopy;
      props := propsCopy;
      cachedSize := 0;
    }

    method Clear()
      modifies this
      ensures Value() == EMPTY
    {
      beforeColumns := [];
      afterColumns := [];
      props := [];
      unknown := [];
    }

    method MergeFrom(from: RowData)
      requires from != this
      modifies this
      ensures Value() == Merge(old(Value()), from.Value())
    {
      hide ColumnMessage.ValuesOf;
      hide PairMessage.ValuesOf;
      var c := from.Contents();
      unknown := unknown + c.unknown;
      beforeColumns := ColumnMessage.MergeAll(beforeColumns, c.beforeColumns);
      afterColumns := ColumnMessage.MergeAll(afterColumns, c.afterColumns);
      props := PairMessage.MergeAll(props, c.props);
    }

    method CopyFrom(from: RowData)
      modifies this
      ensures Value() == old(from.Value())
    {
      if from == this { return; }
      hide Merge;
      Clear();
      MergeFrom(from);
      MergeLaws(from.Value(), EMPTY, EMPTY);
    }

    method MergePartialFromCodedStream(input: CodedInputStream) returns (ok: bool)
      requires input.Valid()
      modifies this, input
      ensures input.Valid() && (ok ==> input.limit == old(input.limit))
      ensures ok && input.legitimateEnd ==> input.Rest() == []
      ensures (if ok && input.legitimateEnd then Some(Value()) else None)
           == ParseFrom(old(Value()), old(input.Rest()))
    {
      hide Merges, ReadTag, ParseFrom, Value, CodedInputStream.Rest;
      while true
        invariant input.Valid() && input.limit == old(input.limit)
        invariant ParseFrom(Value(), input.Rest()) == ParseFrom(old(Value()), old(input.Rest()))
        decreases |input.Rest()|
      {
        ghost var m, rest := Value(), input.Rest();
        var tag, known := input.ReadTagWithCutoffNoLastTag(127);
        if tag == 0 {
          Stops(m, rest);
          return true;
        }
        ok := MergeRecord(tag, known, input);
        Turns(m, rest, tag, ReadTag(rest).value.1, ok, Value(), input.Rest());
        if !ok { return false; }
      }
    }

    /** The switch of the parse loop. Outside sub-messages every case reads the payload its wire
        type calls for, so the read stands before the switch. */
    method MergeRecord(tag: nat, known: bool, input: CodedInputStream) returns (ok: bool)
      requires input.Valid() && tag < TWO32 && (known <==> 1 <= tag <= 127)
      modifies this, input
      ensures input.Valid() && (ok ==> input.limit == old(input.limit))
      ensures Merges(tag, old(Value()), old(input.Rest()), ok, Value(), input.Rest())
    {
      hide ReadPayload, CodedInputStream.Rest, ToInt32, ToInt64;
      hide ColumnMessage.ValuesOf;
      hide PairMessage.ValuesOf;
      if known && tag / 8 == 1 && tag % 256 == 10 {
        ok := AddBeforeColumns(input);
        return;
      }
      if known && tag / 8 == 2 && tag % 256 == 18 {
        ok := AddAfterColumns(input);
        return;
      }
      if known && tag / 8 == 3 && tag % 256 == 26 {
        ok := AddProps(input);
        return;
      }
      if tag / 8 == 0 { return false; }
      var w;
      ok, w := input.ReadPayloadOf(tag % 8);
      if !ok { return false; }
      assert Contents() == old(Contents());
      hide Contents, Step;
      AddUnknown(Record(tag / 8, w));
    }

    /** The library's SkipField: the record is kept as unknown. */
    method AddUnknown(r: Record)
      requires !Known(r)
      modifies this
      ensures Some(Value()) == Step(old(Value()), r)
    {
      unknown := unknown + [r];
    }

    /** A new element at the end of beforeColumns, read from the input. */
    method AddBeforeColumns(input: CodedInputStream) returns (ok: bool)
      requires input.Valid()
      modifies this, input
      ensures input.Valid() && (ok ==> input.limit == old(input.limit))
      ensures Merges(10, old(Value()), old(input.Rest()), ok, Value(), input.Rest())
    {
      hide ReadPayload, CodedInputStream.Rest, ColumnMessage.ParseFrom;
      hide ColumnMessage.ValuesOf, ColumnMessage.ValueOf;
      hide PairMessage.ValuesOf, PairMessage.ValueOf;
      var x := new ColumnMessage.Column();
      ok := x.ReadMessage(input);
      var node := x.AsNode();
      ColumnMessage.ValuesOfAppend(beforeColumns, node);
      beforeColumns := beforeColumns + [node];
    }

    /** A new element at the end of afterColumns, read from the input. */
    method AddAfterColumns(input: CodedInputStream) returns (ok: bool)
      requires input.Valid()
      modifies this, input
      ensures input.Valid() && (ok ==> input.limit == old(input.limit))
      ensures Merges(18, old(Value()), old(input.Rest()), ok, Value(), input.Rest())
    {
      hide ReadPayload, CodedInputStream.Rest, ColumnMessage.ParseFrom;
      hide ColumnMessage.ValuesOf, ColumnMessage.ValueOf;
      hide PairMessage.ValuesOf, PairMessage.ValueOf;
      var x := new ColumnMessage.Column();
      ok := x.ReadMessage(input);
      var node := x.AsNode();
      ColumnMessage.ValuesOfAppend(afterColumns, node);
      afterColumns := afterColumns + [node];
    }

    /** A new element at the end of props, read from the input. */
    method AddProps(input: CodedInputStream) returns (ok: bool)
      requires input.Valid()
      modifies this, input
      ensures input.Valid() && (ok ==> input.limit == old(input.limit))
      ensures Merges(26, old(Value()), old(input.Rest()), ok, Value(), input.Rest())
    {
      hide ReadPayload, CodedInputStream.Rest, PairMessage.ParseFrom;
      hide ColumnMessage.ValuesOf, ColumnMessage.ValueOf;
      hide PairMessage.ValuesOf, PairMessage.ValueOf;
      var x := new PairMessage.Pair();
      ok := x.ReadMessage(input);
      var node := x.AsNode();
      PairMessage.ValuesOfAppend(props, node);
      props := props + [node];
    }

    /** A RowData as a length-delimited field of another message. */
    method ReadMessage(input: CodedInputStream) returns (ok: bool)
      requires input.Valid()
      modifies this, input
      ensures input.Valid() && (ok ==> input.limit == old(input.limit))
      ensures Reads(old(Value()), old(input.Rest()), ok, Value(), input.Rest())
    {
      hide ReadPayload, ParseFrom, Value;
      var pushed, outer := input.PushLength();
      if !pushed { return false; }
      ok := MergePartialFromCodedStream(input);
      ok := ok && input.legitimateEnd;
      if ok { input.PopLimit(outer); }
    }

    method ByteSizeLong() returns (total: nat)
      modifies this
      ensures total == Size(Value())
      ensures Value() == old(Value()) && Sized(AsNode())
    {
      hide RecordsSize, ToCachedSize;
      hide ColumnMessage.SizeOfAll, ColumnMessage.ValuesOf, ColumnMessage.AllSized;
      hide PairMessage.SizeOfAll, PairMessage.ValuesOf, PairMessage.AllSized;
      var c := Contents();
      NoRecordsSize(c.unknown);
      total := 0;
      if |c.unknown| > 0 { total := total + RecordsSize(c.unknown); }
      var beforeColumnsSize, beforeColumnsSized := ColumnMessage.ByteSizeOfAll(c.beforeColumns);
      beforeColumns := beforeColumnsSized;
      total := total + beforeColumnsSize;
      var afterColumnsSize, afterColumnsSized := ColumnMessage.ByteSizeOfAll(c.afterColumns);
      afterColumns := afterColumnsSized;
      total := total + afterColumnsSize;
      var propsSize, propsSized := PairMessage.ByteSizeOfAll(c.props);
      props := propsSized;
      total := total + propsSize;
      cachedSize := ToCachedSize(total);
    }

    method InternalSerializeWithCachedSizesToArray(target: array<byte>, at: nat) returns (end: nat)
      requires Sized(AsNode()) && Size(Value()) <= INT_MAX
      requires at + Size(Value()) <= target.Length
      modifies target
      ensures end == at + Size(Value())
      ensures target[..end] == old(target[..at]) + Encode(Value())
    {
      var c := Contents();
      ghost var v, pre, done := ValueOf(c), target[..at], [];
      PartsReady(AsNode());
      hide Wrote, EncodeRecords, RecordsSize, IntField, BoolField, BytesField, IntOneof, BoolOneof;
      hide IntFieldSize, BoolFieldSize, BytesFieldSize, IntOneofSize, BoolOneofSize;
      hide ColumnMessage.RecordsOfAll, ColumnMessage.SizeOfAll, ColumnMessage.ValuesOf, ColumnMessage.ValueOf,
           ColumnMessage.Ready;
      hide PairMessage.RecordsOfAll, PairMessage.SizeOfAll, PairMessage.ValuesOf, PairMessage.ValueOf,
           PairMessage.Ready;
      assert v == Value();
      hide Sized, Contents, AsNode, Value;
      NothingWrote(target, at);
      end := at;
      end := ColumnMessage.WriteAllToArray(1, c.beforeColumns, target, end, pre, done);
      NothingBefore(ColumnMessage.RecordsOfAll(1, v.beforeColumns));
      done := ColumnMessage.RecordsOfAll(1, v.beforeColumns);
      end := ColumnMessage.WriteAllToArray(2, c.afterColumns, target, end, pre, done);
      done := done + ColumnMessage.RecordsOfAll(2, v.afterColumns);
      end := PairMessage.WriteAllToArray(3, c.props, target, end, pre, done);
      done := done + PairMessage.RecordsOfAll(3, v.props);
      assert done == KnownRecords(v);
      end := SerializeUnknownFieldsToArray(c.unknown, target, end, pre, done);
      assert done + c.unknown == Records(v);
      WroteMeans(target, end, pre, Records(v));
    }

    method SerializeWithCachedSizes(output: CodedOutputStream)
      requires Sized(AsNode()) && Size(Value()) <= INT_MAX
      modifies output
      ensures output.written == old(output.written) + Encode(Value())
    {
      var c := Contents();
      ghost var v, pre, done := ValueOf(c), output.written, [];
      PartsReady(AsNode());
      hide CodedOutputStream.Holds, EncodeRecords, IntField, BoolField, BytesField, IntOneof, BoolOneof;
      hide ColumnMessage.RecordsOfAll, ColumnMessage.ValuesOf, ColumnMessage.ValueOf, ColumnMessage.Ready;
      hide PairMessage.RecordsOfAll, PairMessage.ValuesOf, PairMessage.ValueOf, PairMessage.Ready;
      assert v == Value();
      hide Sized, Contents, AsNode, Value;
      output.HoldsNothing();
      ColumnMessage.WriteAll(1, c.beforeColumns, output, pre, done);
      NothingBefore(ColumnMessage.RecordsOfAll(1, v.beforeColumns));
      done := ColumnMessage.RecordsOfAll(1, v.beforeColumns);
      ColumnMessage.WriteAll(2, c.afterColumns, output, pre, done);
      done := done + ColumnMessage.RecordsOfAll(2, v.afterColumns);
      PairMessage.WriteAll(3, c.props, output, pre, done);
      done := done + PairMessage.RecordsOfAll(3, v.props);
      assert done == KnownRecords(v);
      output.SerializeUnknownFields(c.unknown, pre, done);
      assert done + c.unknown == Records(v);
      output.HoldsMeans(pre, Records(v));
    }
  }

  // ------------------------------------------- fields of this type

  /** Appending copies of the elements of from. */
  method MergeAll(to: seq<RowDataNode>, from: seq<RowDataNode>) returns (r: seq<RowDataNode>)
    ensures ValuesOf(r) == ValuesOf(to) + ValuesOf(from)
  {
    hide ValuesOf, ValueOf;
    r := to;
    var i := 0;
    while i < |from|
      invariant 0 <= i <= |from|
      invariant ValuesOf(r) == ValuesOf(to) + ValuesOf(from)[..i]
    {
      var node := CopyOfOne(from[i]);
      ValuesOfAppend(r, node);
      r := r + [node];
      i := i + 1;
    }
  }

  /** A new element that the given one is merged into. */
  method CopyOfOne(node: RowDataNode) returns (copy: RowDataNode)
    ensures ValueOf(copy.contents) == ValueOf(node.contents)
  {
    hide ValueOf, Merge, RowData.AsNode, RowData.Contents;
    var x := new RowData();
    var y := new RowData.At(node);
    x.MergeFrom(y);
    MergeLaws(y.Value(), EMPTY, EMPTY);
    copy := x.AsNode();
  }

  /** The size loop over a repeated field: it leaves every cached size right. */
  method ByteSizeOfAll(ns: seq<RowDataNode>) returns (total: nat, sized: seq<RowDataNode>)
    ensures total == SizeOfAll(ValuesOf(ns))
    ensures ValuesOf(sized) == ValuesOf(ns) && AllSized(sized)
  {
    hide ValuesOf, ValueOf, Size, SizeOfAll, LengthDelimitedSize, Sized, RowData.AsNode, RowData.Contents;
    ghost var vs := ValuesOf(ns);
    total, sized := 0, [];
    var i := 0;
    AllOfNothing(1, vs);
    ValuesOfNothing();
    while i < |ns|
      invariant 0 <= i <= |ns|
      invariant total == SizeOfAll(vs[..i])
      invariant ValuesOf(sized) == vs[..i] && AllSized(sized)
    {
      var n, node := ByteSizeOfOne(ns[i]);
      ValuesOfAppend(sized, node);
      assert vs[..i + 1] == vs[..i] + [vs[i]];
      AllPrefix(1, vs, i);
      total, sized := total + 1 + LengthDelimitedSize(n), sized + [node];
      i := i + 1;
    }
    assert vs[..i] == vs;
  }

  method ByteSizeOfOne(node: RowDataNode) returns (total: nat, sized: RowDataNode)
    ensures total == Size(ValueOf(node.contents))
    ensures ValueOf(sized.contents) == ValueOf(node.contents) && Sized(sized)
  {
    hide ValueOf, Size, Sized, RowData.AsNode, RowData.Contents;
    var x := new RowData.At(node);
    total := x.ByteSizeLong();
    sized := x.AsNode();
  }

  lemma ValuesOfNothing()
    ensures ValuesOf([]) == []
  {
  }

  method WriteAllToArray(n: nat, ns: seq<RowDataNode>, target: array<byte>, at: nat, ghost pre: Bytes,
                         ghost recs: seq<Record>)
    returns (end: nat)
    requires n < 16
    requires Ready(ns)
    requires Wrote(target, at, pre, recs)
    requires at + SizeOfAll(ValuesOf(ns)) <= target.Length
    modifies target
    ensures end == at + SizeOfAll(ValuesOf(ns))
    ensures Wrote(target, end, pre, recs + RecordsOfAll(n, ValuesOf(ns)))
  {
    hide ValuesOf, ValueOf, Size, Encode, SizeOfAll, LengthDelimitedSize, RecordsOfAll, Wrote, Sized;
    ghost var vs, done := ValuesOf(ns), recs;
    end := at;
    var i := 0;
    AllOfNothing(n, vs);
    while i < |ns|
      invariant 0 <= i <= |ns|
      invariant done == recs + RecordsOfAll(n, vs[..i])
      invariant end == at + SizeOfAll(vs[..i]) <= target.Length
      invariant Wrote(target, end, pre, done)
    {
      AllPrefix(n, vs, i);
      end := WriteOneToArray(n, ns[i], target, end, pre, done);
      done := done + [BytesRecord(n, Encode(vs[i]))];
      i := i + 1;
    }
    assert vs[..i] == vs;
  }

  /** The length prefix is the cached size; the contents follow it. */
  method WriteOneToArray(n: nat, node: RowDataNode, target: array<byte>, at: nat, ghost pre: Bytes,
                         ghost recs: seq<Record>)
    returns (end: nat)
    requires n < 16
    requires Sized(node) && Size(ValueOf(node.contents)) <= INT_MAX
    requires Wrote(target, at, pre, recs)
    requires at + 1 + LengthDelimitedSize(Size(ValueOf(node.contents))) <= target.Length
    modifies target
    ensures end == at + 1 + LengthDelimitedSize(Size(ValueOf(node.contents)))
    ensures Wrote(target, end, pre, recs + [BytesRecord(n, Encode(ValueOf(node.contents)))])
  {
    ghost var v := ValueOf(node.contents);
    SizeIsLength(v);
    SmallSizeIsCached(Size(v));
    hide ValueOf, Size, Encode, EncodeRecords, Varint, VarintSize, ToCachedSize, RowData.Contents;
    var x := new RowData.At(node);
    end := WriteMessageHeadToArray(n, x.cachedSize, target, at, pre, recs);
    end := x.InternalSerializeWithCachedSizesToArray(target, end);
    MessageIsRecord(pre, recs, n, Encode(v));
  }

  method WriteAll(n: nat, ns: seq<RowDataNode>, output: CodedOutputStream, ghost pre: Bytes, ghost recs: seq<Record>)
    requires n < 16
    requires Ready(ns)
    requires output.Holds(pre, recs)
    modifies output
    ensures output.Holds(pre, recs + RecordsOfAll(n, ValuesOf(ns)))
  {
    hide ValuesOf, ValueOf, Size, Encode, RecordsOfAll, SizeOfAll, LengthDelimitedSize, CodedOutputStream.Holds, Sized;
    ghost var vs, done := ValuesOf(ns), recs;
    var i := 0;
    AllOfNothing(n, vs);
    while i < |ns|
      invariant 0 <= i <= |ns|
      invariant done == recs + RecordsOfAll(n, vs[..i])
      invariant output.Holds(pre, done)
    {
      AllPrefix(n, vs, i);
      WriteOne(n, ns[i], output, pre, done);
      done := done + [BytesRecord(n, Encode(vs[i]))];
      i := i + 1;
    }
    assert vs[..i] == vs;
  }

  /** Into the stream's buffer if it has room for the whole message, piecewise otherwise. */
  method WriteOne(n: nat, node: RowDataNode, output: CodedOutputStream, ghost pre: Bytes, ghost recs: seq<Record>)
    requires n < 16
    requires Sized(node) && Size(ValueOf(node.contents)) <= INT_MAX
    requires output.Holds(pre, recs)
    modifies output
    ensures output.Holds(pre, recs + [BytesRecord(n, Encode(ValueOf(node.contents)))])
  {
    ghost var v := ValueOf(node.contents);
    SizeIsLength(v);
    SmallSizeIsCached(Size(v));
    hide ValueOf, Size, Encode, EncodeRecords, Varint, VarintSize, ToCachedSize, RowData.Contents;
    var x := new RowData.At(node);
    var size: nat := x.cachedSize;
    output.Write(Varint(n * 8 + 2) + Varint(size));
    if output.HasDirectBuffer(size) {
      var buffer := new byte[size];
      var end := x.InternalSerializeWithCachedSizesToArray(buffer, 0);
      assert buffer[..end] == Encode(v);
      output.Write(buffer[..end]);
    } else {
      x.SerializeWithCachedSizes(output);
    }
    MessageIsRecord(pre, recs, n, Encode(v));
  }
}
