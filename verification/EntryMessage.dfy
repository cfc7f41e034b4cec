/** Message Entry: a header, a type, and the serialisation of a second message. */
module EntryMessage {
  import opened Wire
  import opened Codec
  import opened Fields
  import opened CodedStream
  import HeaderMessage
  import PairMessage

  /** The members of the message; the header is a value or a node. */
  datatype EntryFields<H> = EntryFields(
    header: Option<H>,
    entryType: Option<int32>,
    storeValue: Bytes,
    unknown: seq<Record>)

  type EntryValue = EntryFields<HeaderMessage.HeaderValue>

  const EMPTY: EntryValue := EntryFields(None, None, [], [])

  // ---------------------------------------------------- what the codec means

  /** The records the parser stores in a field; all others it keeps as unknown. */
  predicate Known(r: Record) {
    match r.number
    case 1 => r.value.LenValue?
    case 2 => r.value.VarintValue?
    case 3 => r.value.LenValue?
    case _ => false
  }

  /** A record that does not stop the parser: a string must be UTF-8, a sub-message must parse. */
  predicate Acceptable(r: Record) {
    match r.number
    case 1 => r.value.LenValue? ==> HeaderMessage.Parse(r.value.data).Some?
    case _ => true
  }

  /** The header a record is read into: the present one, or an empty one. */
  function MutableHeader(m: EntryValue): HeaderMessage.HeaderValue {
    OrElse(m.header, HeaderMessage.EMPTY)
  }

  function Step(m: EntryValue, r: Record): Option<EntryValue> {
    if !Known(r) then Some(m.(unknown := m.unknown + [r]))
    else
      match r.number
      case 1 =>
        (match HeaderMessage.ParseFrom(MutableHeader(m), r.value.data)
         case None => None
         case Some(h) => Some(m.(header := Some(h))))
      case 2 => Some(m.(entryType := Some(ToInt32(r.value.v))))
      case _ => Some(m.(storeValue := r.value.data))
  }

  /** The records of the fields, in the order they are written. */
  function KnownRecords(m: EntryValue): seq<Record> {
    HeaderMessage.RecordsOfMember(1, m.header) + IntOneof(2, m.entryType) + BytesField(3, m.storeValue)
  }

  function Records(m: EntryValue): seq<Record> { KnownRecords(m) + m.unknown }

  function Encode(m: EntryValue): Bytes { EncodeRecords(Records(m)) }

  /** Summed in the order of ByteSizeLong, which is not the order of emission. */
  function Size(m: EntryValue): nat {
    RecordsSize(m.unknown) + BytesFieldSize(m.storeValue) + HeaderMessage.SizeOfMember(m.header) +
    IntOneofSize(m.entryType)
  }

  function Merge(x: EntryValue, y: EntryValue): EntryValue {
    EntryFields(
      header := HeaderMessage.MergeMember(x.header, y.header),
      entryType := MergeOneof(x.entryType, y.entryType),
      storeValue := MergeBytes(x.storeValue, y.storeValue),
      unknown := x.unknown + y.unknown)
  }

  /** The messages a parser can produce. */
  ghost predicate Valid(m: EntryValue) {
    && (m.header.Some? ==> HeaderMessage.Valid(m.header.value))
    && UnknownTo(Known, m.unknown)
  }

  /** Parsing b into m: the fold of Step over the records of b. */
  function ParseFrom(m: EntryValue, b: Bytes): Option<EntryValue> { ParseInto(Step, m, b) }

  function Parse(b: Bytes): Option<EntryValue> { ParseFrom(EMPTY, b) }

  /** A message over the two-gigabyte limit of the library is not serialised. */
  function Serialize(m: EntryValue): Option<Bytes> {
    if Size(m) <= INT_MAX then Some(Encode(m)) else None
  }

  // -------------------------------------------------------------------- laws

  lemma HeaderSizeIsLength(v: Option<HeaderMessage.HeaderValue>)
    ensures RecordsSize(HeaderMessage.RecordsOfMember(1, v)) == HeaderMessage.SizeOfMember(v)
  {
    hide HeaderMessage.Size, HeaderMessage.Encode, RecordSize;
    if v.Some? {
      HeaderMessage.SizeIsLength(v.value);
      OneRecordSize(BytesRecord(1, HeaderMessage.Encode(v.value)));
    }
  }

  lemma SizeIsLength(m: EntryValue)
    ensures |Encode(m)| == Size(m)
  {
    HeaderSizeIsLength(m.header);
    hide RecordsSize, EncodeRecords, Varint, VarintSize;
    hide HeaderMessage.RecordsOfMember, HeaderMessage.SizeOfMember;
    hide IntField, BoolField, BytesField, IntOneof, BoolOneof;
    hide IntFieldSize, BoolFieldSize, BytesFieldSize, IntOneofSize, BoolOneofSize;
    var s0 := HeaderMessage.RecordsOfMember(1, m.header);
    IntOneofLength(2, m.entryType);
    RecordsSizeConcat(s0, IntOneof(2, m.entryType));
    var s1 := s0 + IntOneof(2, m.entryType);
    BytesFieldLength(3, m.storeValue);
    RecordsSizeConcat(s1, BytesField(3, m.storeValue));
    var s2 := s1 + BytesField(3, m.storeValue);
    RecordsSizeConcat(s2, m.unknown);
    RecordsSizeIsLength(Records(m));
  }

  lemma ReplayHeader(x: EntryValue, v: Option<HeaderMessage.HeaderValue>)
    requires v.Some? ==> HeaderMessage.Valid(v.value) && HeaderMessage.Size(v.value) <= INT_MAX
    ensures Fold(Step, x, HeaderMessage.RecordsOfMember(1, v))
         == Some(x.(header := HeaderMessage.MergeMember(x.header, v)))
  {
    hide Fold, HeaderMessage.Encode, HeaderMessage.Valid, HeaderMessage.Merge, HeaderMessage.ParseFrom;
    FoldNothing(Step, x);
    if v.Some? {
      HeaderMessage.ParseEncoded(MutableHeader(x), v.value);
      FoldOne(Step, x, BytesRecord(1, HeaderMessage.Encode(v.value)));
    }
  }

  lemma ReplayUnknown(x: EntryValue, us: seq<Record>)
    requires UnknownTo(Known, us)
    ensures Fold(Step, x, us) == Some(x.(unknown := x.unknown + us))
  {
    var append := (m: EntryValue, rs: seq<Record>) => m.(unknown := m.unknown + rs);
    forall m: EntryValue, a: seq<Record>, b: seq<Record> ensures append(append(m, a), b) == append(m, a + b) {
      assert (m.unknown + a) + b == m.unknown + (a + b);
    }
    forall m: EntryValue ensures append(m, []) == m {
      assert m.unknown + [] == m.unknown;
    }
    FoldAppends(Step, Known, append, x, us);
  }

  lemma ReplayEntryType(x: EntryValue, v: Option<int32>)
    ensures Fold(Step, x, IntOneof(2, v)) == Some(x.(entryType := MergeOneof(x.entryType, v)))
  {
    hide Fold, ValidUtf8;
    if v.Some? { Int32Inverts(v.value); }
    FoldIntOneof(Step, x, 2, v);
  }

  lemma ReplayStoreValue(x: EntryValue, v: Bytes)
    ensures Fold(Step, x, BytesField(3, v)) == Some(x.(storeValue := MergeBytes(x.storeValue, v)))
  {
    hide Fold, ValidUtf8;
    FoldBytesField(Step, x, 3, v);
  }

  /** Replaying the records of y is merging y. */
  lemma Replay(x: EntryValue, y: EntryValue)
    requires Valid(y)
    requires y.header.Some? ==> HeaderMessage.Size(y.header.value) <= INT_MAX
    ensures Fold(Step, x, Records(y)) == Some(Merge(x, y))
  {
    hide MergeInt32, MergeInt64, MergeBool, MergeBytes, MergeOneof;
    hide HeaderMessage.RecordsOfMember, HeaderMessage.MergeMember;
    hide Step, Fold, ValidUtf8, UnknownTo, IntField, BoolField, BytesField, IntOneof, BoolOneof;
    var x1 := x.(header := HeaderMessage.MergeMember(x.header, y.header));
    ReplayHeader(x, y.header);
    var s1 := HeaderMessage.RecordsOfMember(1, y.header);
    var x2 := x1.(entryType := MergeOneof(x1.entryType, y.entryType));
    ReplayEntryType(x1, y.entryType);
    FoldThen(Step, x, s1, x1, IntOneof(2, y.entryType), x2);
    var s2 := s1 + IntOneof(2, y.entryType);
    var x3 := x2.(storeValue := MergeBytes(x2.storeValue, y.storeValue));
    ReplayStoreValue(x2, y.storeValue);
    FoldThen(Step, x, s2, x2, BytesField(3, y.storeValue), x3);
    var s3 := s2 + BytesField(3, y.storeValue);
    ReplayUnknown(x3, y.unknown);
    FoldThen(Step, x, s3, x3, y.unknown, Merge(x, y));
  }

  lemma ParseEncoded(x: EntryValue, y: EntryValue)
    requires Valid(y) && Size(y) <= INT_MAX
    ensures ParseFrom(x, Encode(y)) == Some(Merge(x, y))
  {
    SizeIsLength(y);
    RecordsSizeIsLength(Records(y));
    PartsFit(y);
    RecordsHaveNumbers(y);
    hide Fold, EncodeRecords, RecordsSize, Records, Size, Valid, Merge;
    SmallRecordsAreValid(Records(y));
    Codec.ParseEncoded(Step, x, Records(y));
    Replay(x, y);
  }

  lemma PartsFit(m: EntryValue)
    ensures m.header.Some? ==> HeaderMessage.Size(m.header.value) <= Size(m)
  {
    hide RecordsSize, VarintSize, HeaderMessage.Size;
  }

  /** Every record written for a field is one the parser stores in a field. */
  lemma KnownRecordsAreKnown(m: EntryValue)
    ensures AllKnown(Known, KnownRecords(m))
  {
    hide HeaderMessage.RecordsOfMember, HeaderMessage.Encode;
    HeaderMessage.RecordsOfMemberKnown(Known, 1, m.header);
    IntOneofKnown(Known, 2, m.entryType);
    BytesFieldKnown(Known, 3, m.storeValue);
    hide AllKnown, Known, IntField, BoolField, BytesField, IntOneof, BoolOneof;
    var s0 := HeaderMessage.RecordsOfMember(1, m.header);
    AllKnownConcat(Known, s0, IntOneof(2, m.entryType));
    var s1 := s0 + IntOneof(2, m.entryType);
    AllKnownConcat(Known, s1, BytesField(3, m.storeValue));
  }

  lemma RecordsHaveNumbers(m: EntryValue)
    requires Valid(m)
    ensures forall i :: 0 <= i < |Records(m)| ==> 1 <= Records(m)[i].number < 0x2000_0000
  {
    KnownRecordsAreKnown(m);
    hide KnownRecords, Known;
  }

  lemma MergeLaws(x: EntryValue, y: EntryValue, z: EntryValue)
    ensures Merge(EMPTY, x) == x
    ensures Merge(x, EMPTY) == x
    ensures Merge(Merge(x, y), z) == Merge(x, Merge(y, z))
  {
    HeaderMessage.MergeLaws(MutableHeader(x), MutableHeader(y), MutableHeader(z));
    HeaderMessage.MergeLaws(MutableHeader(y), MutableHeader(z), MutableHeader(z));
    hide HeaderMessage.Merge;
    assert (x.unknown + y.unknown) + z.unknown == x.unknown + (y.unknown + z.unknown)
           && [] + x.unknown == x.unknown == x.unknown + [];
  }

  lemma StepKeeps(x: EntryValue, r: Record)
    requires ValidRecord(r) && Step(x, r).Some?
    ensures Valid(x) ==> Valid(Step(x, r).value)
    ensures Step(x, r).value.unknown == x.unknown + (if Known(r) then [] else [r])
  {
    if r.number == 1 && r.value.LenValue? {
      HeaderMessage.EmptyIsValid();
      HeaderMessage.ParseIsValid(MutableHeader(x), r.value.data);
    }
    hide HeaderMessage.ParseFrom, HeaderMessage.Valid;
    hide ValidUtf8;
  }

  lemma StepAccepts(m: EntryValue, r: Record)
    ensures Step(m, r).Some? <==> Acceptable(r)
  {
    hide ValidUtf8, HeaderMessage.ParseFrom, HeaderMessage.Acceptable;
    if r.value.LenValue? {
      HeaderMessage.ParsesExactlyIf(MutableHeader(m), r.value.data);
      HeaderMessage.ParsesExactlyIf(HeaderMessage.EMPTY, r.value.data);
    }
  }

  /** A byte string parses exactly if it splits into records of which each is acceptable. */
  lemma ParsesExactlyIf(m: EntryValue, b: Bytes)
    ensures ParseFrom(m, b).Some? <==>
              DecodeRecords(b).Some? && forall r :: r in DecodeRecords(b).value ==> Acceptable(r)
  {
    forall x: EntryValue, r: Record ensures Step(x, r).Some? <==> Acceptable(r) { StepAccepts(x, r); }
    hide Step, Acceptable;
    if DecodeRecords(b).Some? { FoldSucceeds(Step, Acceptable, m, DecodeRecords(b).value); }
  }

  lemma EmptyIsValid()
    ensures Valid(EMPTY)
  {
  }

  lemma ParseIsValid(x: EntryValue, b: Bytes)
    requires ParseFrom(x, b).Some?
    ensures Valid(x) ==> Valid(ParseFrom(x, b).value)
    ensures ParseFrom(x, b).value.unknown == x.unknown + Unknowns(Known, DecodeRecords(b).value)
  {
    SplitIsBounded(b);
    var unknownOf, valid := (m: EntryValue) => m.unknown, (m: EntryValue) => Valid(m);
    forall m: EntryValue, r: Record | ValidRecord(r) ensures Keeps(Step, Known, unknownOf, valid, m, r) {
      if Step(m, r).Some? { StepKeeps(m, r); }
    }
    hide Step, Valid, Known, Keeps;
    FoldKeeps(Step, Known, unknownOf, valid, x, DecodeRecords(b).value);
  }

  /** What was serialised parses back to the same message exactly if the message is valid. */
  lemma RoundTrip(m: EntryValue)
    requires Serialize(m).Some?
    ensures Parse(Serialize(m).value) == Some(m) <==> Valid(m)
  {
    hide ParseFrom, Encode, Size, Valid, Merge;
    if Valid(m) { ParseEncoded(EMPTY, m); MergeLaws(m, m, m); }
    EmptyIsValid();
    if Parse(Encode(m)).Some? { ParseIsValid(EMPTY, Encode(m)); }
  }

  /** Parsing one serialisation after another is merging the messages. */
  lemma MergeLaw(x: EntryValue, y: EntryValue)
    requires Valid(x) && Valid(y) && Serialize(x).Some? && Serialize(y).Some?
    ensures Parse(Serialize(x).value + Serialize(y).value) == Some(Merge(x, y))
  {
    hide ParseInto, Encode, Size, Valid, Merge;
    ParseEncoded(EMPTY, x);
    MergeLaws(x, x, x);
    ParseEncoded(x, y);
    ParseConcat(Step, EMPTY, Encode(x), Encode(y));
  }

  /** Whatever parses is re-serialised to bytes that parse to the same message: the records of
      the fields, then every record of the input the parser did not recognise, in order. */
  lemma ForwardCompatible(b: Bytes)
    requires Parse(b).Some? && Serialize(Parse(b).value).Some?
    ensures var m := Parse(b).value;
            && Parse(Serialize(m).value) == Some(m)
            && DecodeRecords(Serialize(m).value)
            == Some(KnownRecords(m) + Unknowns(Known, DecodeRecords(b).value))
            && AllKnown(Known, KnownRecords(m))
  {
    var m := Parse(b).value;
    EmptyIsValid();
    ParseIsValid(EMPTY, b);
    RoundTrip(m);
    KnownRecordsAreKnown(m);
    RecordsHaveNumbers(m);
    SizeIsLength(m);
    RecordsSizeIsLength(Records(m));
    hide EncodeRecords, DecodeRecords, RecordsSize, Size, Valid, KnownRecords, ParseFrom, Unknowns, Known;
    SmallRecordsAreValid(Records(m));
    DecodeInverts(Records(m));
    assert [] + Unknowns(Known, DecodeRecords(b).value) == Unknowns(Known, DecodeRecords(b).value);
  }

  // ------------------------------------------ parsing any bytes, and merging

  predicate IsHeader(r: Record) { Known(r) && r.number == 1 }

  /** The records of all header records in a row, if there is a header record. */
  function HeaderRecords(rs: seq<Record>): Option<seq<Record>> {
    if rs == [] then None
    else
      var before, r := HeaderRecords(rs[..|rs| - 1]), rs[|rs| - 1];
      if IsHeader(r) && DecodeRecords(r.value.data).Some?
      then Some(OrElse(before, []) + DecodeRecords(r.value.data).value)
      else before
  }

  /** What the last storeValue and the headers, taken together, leave at its default is so in x. */
  predicate KeepsDefaults(x: EntryValue, rs: seq<Record>) {
    && (LastBytes(Known, 3, rs) == Some([]) ==> x.storeValue == [])
    && (HeaderRecords(rs).Some? ==> HeaderMessage.KeepsDefaults(MutableHeader(x), HeaderRecords(rs).value))
  }

  /** The header that header records fold into, from the one there is or from an empty one. */
  function FoldedHeader(h: Option<HeaderMessage.HeaderValue>, hs: seq<Record>): Option<HeaderMessage.HeaderValue> {
    Fold(HeaderMessage.Step, OrElse(h, HeaderMessage.EMPTY), hs)
  }

  /** Where records that fold to y from the empty message fold to z from x: a singular field is that
      of its last record, or as before if it has none; the headers are folded into one. */
  ghost predicate Overlays(x: EntryValue, y: EntryValue, z: EntryValue, rs: seq<Record>) {
    && HeaderOverlays(x.header, y.header, z.header, HeaderRecords(rs))
    && y.entryType == LastInt32(Known, 2, rs) && z.entryType == MergeOneof(x.entryType, y.entryType)
    && y.storeValue == OrElse(LastBytes(Known, 3, rs), [])
        && z.storeValue == OrElse(LastBytes(Known, 3, rs), x.storeValue)
    && z.unknown == x.unknown + y.unknown
  }

  ghost predicate HeaderOverlays(x: Option<HeaderMessage.HeaderValue>, y: Option<HeaderMessage.HeaderValue>,
                                 z: Option<HeaderMessage.HeaderValue>, hs: Option<seq<Record>>) {
    match hs
    case None => y == None && z == x
    case Some(records) =>
      && y.Some? && y == FoldedHeader(None, records)
      && z.Some? && z == FoldedHeader(x, records)
  }

  /** One more header record, read into y and into z. */
  lemma HeaderStep(x: Option<HeaderMessage.HeaderValue>, y: Option<HeaderMessage.HeaderValue>,
                   z: Option<HeaderMessage.HeaderValue>, hs: Option<seq<Record>>, data: Bytes)
    requires HeaderOverlays(x, y, z, hs)
    requires HeaderMessage.ParseFrom(OrElse(y, HeaderMessage.EMPTY), data).Some?
    ensures DecodeRecords(data).Some?
    ensures HeaderMessage.ParseFrom(OrElse(z, HeaderMessage.EMPTY), data).Some?
    ensures HeaderOverlays(x, HeaderMessage.ParseFrom(OrElse(y, HeaderMessage.EMPTY), data),
                           HeaderMessage.ParseFrom(OrElse(z, HeaderMessage.EMPTY), data),
                           Some(OrElse(hs, []) + DecodeRecords(data).value))
  {
    HeaderMessage.ParsesExactlyIf(OrElse(y, HeaderMessage.EMPTY), data);
    HeaderMessage.ParsesExactlyIf(OrElse(z, HeaderMessage.EMPTY), data);
    var records := DecodeRecords(data).value;
    hide Fold, HeaderMessage.Step;
    if hs.Some? {
      FoldConcat(HeaderMessage.Step, HeaderMessage.EMPTY, hs.value, records);
      FoldConcat(HeaderMessage.Step, OrElse(x, HeaderMessage.EMPTY), hs.value, records);
    } else {
      assert [] + records == records;
    }
  }

  lemma StepOverlays(x: EntryValue, y: EntryValue, z: EntryValue, rs: seq<Record>)
    requires rs != [] && Overlays(x, y, z, rs[..|rs| - 1]) && Step(y, rs[|rs| - 1]).Some?
    ensures Step(z, rs[|rs| - 1]).Some?
    ensures Overlays(x, Step(y, rs[|rs| - 1]).value, Step(z, rs[|rs| - 1]).value, rs)
  {
    LastInt32Unrolls(Known, 2, rs);
    LastBytesUnrolls(Known, 3, rs);
    var r := rs[|rs| - 1];
    if IsHeader(r) { HeaderStep(x.header, y.header, z.header, HeaderRecords(rs[..|rs| - 1]), r.value.data); }
    hide LastInt32, LastBytes, ToInt32, HeaderOverlays, HeaderMessage.ParseFrom;
  }

  /** Last One Wins: what any records do to x, told by what they do to the empty message. */
  lemma {:induction false} LastOneWins(x: EntryValue, rs: seq<Record>)
    requires Fold(Step, EMPTY, rs).Some?
    ensures Fold(Step, x, rs).Some?
    ensures Overlays(x, Fold(Step, EMPTY, rs).value, Fold(Step, x, rs).value, rs)
    decreases |rs|
  {
    if rs == [] {
      assert x.unknown + [] == x.unknown;
    } else {
      var init := rs[..|rs| - 1];
      FoldLast(Step, EMPTY, rs);
      FoldLast(Step, x, rs);
      hide Step, Overlays, Fold;
      LastOneWins(x, init);
      StepOverlays(x, Fold(Step, EMPTY, init).value, Fold(Step, x, init).value, rs);
    }
  }

  /** Folding records into x is merging what they fold to, exactly if x keeps the defaults they
      spell out, its header those of the headers taken together. */
  lemma FoldsLikeMerged(x: EntryValue, rs: seq<Record>)
    requires Fold(Step, EMPTY, rs).Some?
    ensures Fold(Step, x, rs) == Some(Merge(x, Fold(Step, EMPTY, rs).value)) <==> KeepsDefaults(x, rs)
  {
    LastOneWins(x, rs);
    if HeaderRecords(rs).Some? { HeaderMessage.FoldsLikeMerged(MutableHeader(x), HeaderRecords(rs).value); }
    hide LastInt32, LastBytes, Fold, HeaderMessage.Merge, HeaderMessage.KeepsDefaults, HeaderRecords;
  }

  /** Parsing b into x is merging the parse of b, exactly if x keeps the defaults b spells out. */
  lemma MergesLikeParsed(x: EntryValue, b: Bytes)
    requires Parse(b).Some?
    ensures ParseFrom(x, b) == Some(Merge(x, Parse(b).value)) <==> KeepsDefaults(x, DecodeRecords(b).value)
  {
    FoldsLikeMerged(x, DecodeRecords(b).value);
    hide Merge, KeepsDefaults, Fold;
  }

  /** The merge law on any bytes that parse. */
  lemma ConcatMerges(a: Bytes, b: Bytes)
    requires Parse(a).Some? && Parse(b).Some?
    ensures Parse(a + b) == Some(Merge(Parse(a).value, Parse(b).value))
       <==> KeepsDefaults(Parse(a).value, DecodeRecords(b).value)
  {
    MergesLikeParsed(Parse(a).value, b);
    hide ParseInto, Merge, KeepsDefaults;
    ParseConcat(Step, EMPTY, a, b);
  }

  // --------------------------------------------------------- nodes of a tree

  /** The members and the cached size. */
  type EntryNode = Node<EntryFields<HeaderMessage.HeaderNode>>

  function ValueOf(c: EntryFields<HeaderMessage.HeaderNode>): EntryValue {
    EntryFields(
      HeaderMessage.ValueOfMember(c.header), c.entryType, c.storeValue, c.unknown)
  }

  /** Every cached size in the tree is the size of what it caches. */
  ghost predicate Sized(n: EntryNode) {
    && n.cachedSize == ToCachedSize(Size(ValueOf(n.contents)))
    && HeaderMessage.SizedMember(n.contents.header)
  }

  lemma PartsReady(n: EntryNode)
    requires Sized(n) && Size(ValueOf(n.contents)) <= INT_MAX
    ensures HeaderMessage.ReadyMember(n.contents.header)
  {
    PartsFit(ValueOf(n.contents));
    hide Size, ToCachedSize, HeaderMessage.Size, HeaderMessage.Sized, HeaderMessage.ValueOf;
  }

  // ------------------------------------------------------ the mutable message

  /** What the loop does with the record after a tag: ok says whether it goes on, from m1 and rest1. */
  ghost predicate Merges(tag: nat, m0: EntryValue, rest0: Bytes, ok: bool, m1: EntryValue, rest1: Bytes)
    requires tag < TWO32
  {
    MergedRecord(Step, tag, m0, rest0, ok, m1, rest1)
  }

  lemma Turns(m: EntryValue, b: Bytes, tag: nat, n: nat, ok: bool, m1: EntryValue, rest1: Bytes)
    requires b != [] && ReadTag(b) == Some((tag, n))
    requires Merges(tag, m, b[n..], ok, m1, rest1)
    ensures ok ==> ParseFrom(m, b) == ParseFrom(m1, rest1) && |rest1| < |b|
    ensures !ok ==> ParseFrom(m, b) == None
  {
    hide ReadTag, ReadAfterTag, ParseInto, Step;
    LoopTurns(Step, m, b, tag, n, ok, m1, rest1);
  }

  /** The loop stops at tag 0: rightly at the end of the window, wrongly anywhere else. */
  lemma Stops(m: EntryValue, b: Bytes)
    requires b == [] || ReadTag(b) == None || ReadTag(b).value.0 == 0
    ensures ParseFrom(m, b) == if b == [] then Some(m) else None
  {
    hide ParseInto;
    LoopStops(Step, m, b);
  }

  class Entry {
    var header: Option<HeaderMessage.HeaderNode>
    var entryType: Option<int32>
    var storeValue: Bytes
    var unknown: seq<Record>
    var cachedSize: int32

    function Contents(): EntryFields<HeaderMessage.HeaderNode>
      reads this
    {
      EntryFields(header, entryType, storeValue, unknown)
    }

    function AsNode(): EntryNode
      reads this
    {
      Node(Contents(), cachedSize)
    }

    ghost function Value(): EntryValue
      reads this
    {
      ValueOf(AsNode().contents)
    }

    constructor ()
      ensures Value() == EMPTY
    {
      header := None;
      entryType := None;
      storeValue := [];
      unknown := [];
      cachedSize := 0;
    }

    constructor Copy(from: Entry)
      ensures Value() == from.Value()
    {
      hide HeaderMessage.ValueOf;
      var headerCopy := None;
      if from.header.Some? {
        var given := new HeaderMessage.Header.At(from.header.value);
        var copy := new HeaderMessage.Header.Copy(given);
        headerCopy := Some(copy.AsNode());
      }
      unknown := from.unknown;
      storeValue := if |from.storeValue| > 0 then from.storeValue else [];
      header := headerCopy;
      entryType := from.entryType;
      cachedSize := 0;
    }

    /** The type, or 0 if it is absent. */
    function EntryType(): (v: int32)
      reads this
      ensures v == if Value().entryType.Some? then Value().entryType.value else 0
    {
      if entryType.Some? then entryType.value else 0
    }

    method ClearStoreValue()
      modifies `storeValue
      ensures Value() == old(Value()).(storeValue := [])
    {
      storeValue := [];
    }

    method Clear()
      modifies this
      ensures Value() == EMPTY
    {
      header := None;
      entryType := None;
      storeValue := [];
      unknown := [];
    }

    method MergeFrom(from: Entry)
      requires from != this
      modifies this
      ensures Value() == Merge(old(Value()), from.Value())
    {
      hide MergeOneof, MergeBytes;
      hide HeaderMessage.ValueOfMember;
      var c := from.Contents();
      unknown := unknown + c.unknown;
      storeValue := MergeBytes(storeValue, c.storeValue);
      header := HeaderMessage.MergeIntoMember(header, c.header);
      entryType := MergeOneof(entryType, c.entryType);
    }

    method CopyFrom(from: Entry)
      modifies this
      ensures Value() == old(from.Value())
    {
      if from == this { return; }
      hide Merge;
      Clear();
      MergeFrom(from);
      MergeLaws(from.Value(), EMPTY, EMPTY);
    }

    method MergePartialFromCodedStream(input: CodedInputStream) returns (ok: bool)
      requires input.Valid()
      modifies this, input
      ensures input.Valid() && (ok ==> input.limit == old(input.limit))
      ensures ok && input.legitimateEnd ==> input.Rest() == []
      ensures (if ok && input.legitimateEnd then Some(Value()) else None)
           == ParseFrom(old(Value()), old(input.Rest()))
    {
      hide Merges, ReadTag, ParseFrom, Value, CodedInputStream.Rest;
      while true
        invariant input.Valid() && input.limit == old(input.limit)
        invariant ParseFrom(Value(), input.Rest()) == ParseFrom(old(Value()), old(input.Rest()))
        decreases |input.Rest()|
      {
        ghost var m, rest := Value(), input.Rest();
        var tag, known := input.ReadTagWithCutoffNoLastTag(127);
        if tag == 0 {
          Stops(m, rest);
          return true;
        }
        ok := MergeRecord(tag, known, input);
        Turns(m, rest, tag, ReadTag(rest).value.1, ok, Value(), input.Rest());
        if !ok { return false; }
      }
    }

    /** The switch of the parse loop. Outside sub-messages every case reads the payload its wire
        type calls for, so the read stands before the switch. */
    method MergeRecord(tag: nat, known: bool, input: CodedInputStream) returns (ok: bool)
      requires input.Valid() && tag < TWO32 && (known <==> 1 <= tag <= 127)
      modifies this, input
      ensures input.Valid() && (ok ==> input.limit == old(input.limit))
      ensures Merges(tag, old(Value()), old(input.Rest()), ok, Value(), input.Rest())
    {
      hide ReadPayload, CodedInputStream.Rest, ToInt32, ToInt64;
      hide HeaderMessage.ValueOfMember;
      if known && tag / 8 == 1 && tag % 256 == 10 {
        ok := MergeHeader(input);
        return;
      }
      if tag / 8 == 0 { return false; }
      var w;
      ok, w := input.ReadPayloadOf(tag % 8);
      if !ok { return false; }
      assert Contents() == old(Contents());
      hide Contents, Step;
      if known && tag == 16 {
        SetEntryType(w.v);
        return;
      }
      if known && tag == 26 {
        SetStoreValue(w.data);
        return;
      }
      AddUnknown(Record(tag / 8, w));
    }

    /** The library's SkipField: the record is kept as unknown. */
    method AddUnknown(r: Record)
      requires !Known(r)
      modifies this
      ensures Some(Value()) == Step(old(Value()), r)
    {
      unknown := unknown + [r];
    }

    method SetEntryType(v: uint64)
      modifies this
      ensures Some(Value()) == Step(old(Value()), Record(2, VarintValue(v)))
    {
      hide ToInt32, HeaderMessage.ValueOfMember;
      entryType := Some(ToInt32(v));
    }

    /** Bytes, not a string: nothing is checked. */
    method SetStoreValue(s: Bytes)
      modifies this
      ensures Some(Value()) == Step(old(Value()), Record(3, LenValue(s)))
    {
      hide HeaderMessage.ValueOfMember;
      storeValue := s;
    }

    /** The header, allocated if it is absent, with a record of the input merged into it. */
    method MergeHeader(input: CodedInputStream) returns (ok: bool)
      requires input.Valid()
      modifies this, input
      ensures input.Valid() && (ok ==> input.limit == old(input.limit))
      ensures Merges(10, old(Value()), old(input.Rest()), ok, Value(), input.Rest())
    {
      hide ReadPayload, CodedInputStream.Rest, HeaderMessage.ParseFrom, HeaderMessage.ValueOf;
      var x := HeaderMessage.MutableMember(header);
      ok := x.ReadMessage(input);
      header := Some(x.AsNode());
    }

    method ByteSizeLong() returns (total: nat)
      modifies this
      ensures total == Size(Value())
      ensures Value() == old(Value()) && Sized(AsNode())
    {
      hide RecordsSize, ToCachedSize;
      hide HeaderMessage.SizeOfMember, HeaderMessage.ValueOfMember, HeaderMessage.SizedMember;
      var c := Contents();
      NoRecordsSize(c.unknown);
      total := 0;
      if |c.unknown| > 0 { total := total + RecordsSize(c.unknown); }
      hide BytesFieldSize, IntOneofSize;
      total := total + BytesFieldSize(c.storeValue);
      var headerSize, headerSized := HeaderMessage.ByteSizeOfMember(c.header);
      header := headerSized;
      total := total + headerSize;
      total := total + IntOneofSize(c.entryType);
      cachedSize := ToCachedSize(total);
    }

    method InternalSerializeWithCachedSizesToArray(target: array<byte>, at: nat) returns (end: nat)
      requires Sized(AsNode()) && Size(Value()) <= INT_MAX
      requires at + Size(Value()) <= target.Length
      modifies target
      ensures end == at + Size(Value())
      ensures target[..end] == old(target[..at]) + Encode(Value())
    {
      var c := Contents();
      ghost var v, pre, done := ValueOf(c), target[..at], [];
      PartsReady(AsNode());
      hide Wrote, EncodeRecords, RecordsSize, IntField, BoolField, BytesField, IntOneof, BoolOneof;
      hide IntFieldSize, BoolFieldSize, BytesFieldSize, IntOneofSize, BoolOneofSize;
      hide HeaderMessage.RecordsOfMember, HeaderMessage.SizeOfMember, HeaderMessage.ValueOfMember,
           HeaderMessage.ValueOf, HeaderMessage.ReadyMember;
      assert v == Value();
      hide Sized, Contents, AsNode, Value;
      NothingWrote(target, at);
      end := at;
      end := HeaderMessage.WriteMemberToArray(1, c.header, target, end, pre, done);
      NothingBefore(HeaderMessage.RecordsOfMember(1, v.header));
      done := HeaderMessage.RecordsOfMember(1, v.header);
      end := WriteIntOneofToArray(2, c.entryType, target, end, pre, done);
      done := done + IntOneof(2, v.entryType);
      end := WriteBytesFieldToArray(3, c.storeValue, target, end, pre, done);
      done := done + BytesField(3, v.storeValue);
      assert done == KnownRecords(v);
      end := SerializeUnknownFieldsToArray(c.unknown, target, end, pre, done);
      assert done + c.unknown == Records(v);
      WroteMeans(target, end, pre, Records(v));
    }

    method SerializeWithCachedSizes(output: CodedOutputStream)
      requires Sized(AsNode()) && Size(Value()) <= INT_MAX
      modifies output
      ensures output.written == old(output.written) + Encode(Value())
    {
      var c := Contents();
      ghost var v, pre, done := ValueOf(c), output.written, [];
      PartsReady(AsNode());
      hide CodedOutputStream.Holds, EncodeRecords, IntField, BoolField, BytesField, IntOneof, BoolOneof;
      hide HeaderMessage.RecordsOfMember, HeaderMessage.ValueOfMember, HeaderMessage.ValueOf, HeaderMessage.ReadyMember;
      assert v == Value();
      hide Sized, Contents, AsNode, Value;
      output.HoldsNothing();
      HeaderMessage.WriteMember(1, c.header, output, pre, done);
      NothingBefore(HeaderMessage.RecordsOfMember(1, v.header));
      done := HeaderMessage.RecordsOfMember(1, v.header);
      output.WriteIntOneof(2, c.entryType, pre, done);
      done := done + IntOneof(2, v.entryType);
      output.WriteBytesField(3, c.storeValue, pre, done);
      done := done + BytesField(3, v.storeValue);
      assert done == KnownRecords(v);
      output.SerializeUnknownFields(c.unknown, pre, done);
      assert done + c.unknown == Records(v);
      output.HoldsMeans(pre, Records(v));
    }

    /** The library's ParseFromString: the message is cleared first, and all of the input must be used. */
    method ParseFromString(data: Bytes) returns (ok: bool)
      modifies this
      ensures (if ok then Some(Value()) else None) == Parse(data)
    {
      hide ParseFrom, Value;
      Clear();
      var input := new CodedInputStream(data);
      ok := MergePartialFromCodedStream(input);
      ok := ok && input.legitimateEnd;
    }

    /** The library's SerializeToString: the sizes are cached, and then the array writer fills
        exactly that many bytes. */
    method SerializeToString() returns (s: Option<Bytes>)
      modifies this
      ensures Value() == old(Value()) && s == Serialize(Value())
    {
      var size := ByteSizeLong();
      hide Size, Encode, Value, Sized;
      if size > INT_MAX { return None; }
      var buffer := new byte[size];
      var end := InternalSerializeWithCachedSizesToArray(buffer, 0);
      assert buffer[..end] == buffer[..] && buffer[..0] == [];
      s := Some(buffer[..]);
    }
  }
}
