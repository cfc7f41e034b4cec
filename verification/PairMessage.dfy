/** Message Pair: two strings. The leaf of every message tree. */
module PairMessage {
  import opened Wire
  import opened Codec
  import opened Fields
  import opened CodedStream

  datatype PairValue = PairValue(
    key: Bytes,
    value: Bytes,
    unknown: seq<Record>)

  const EMPTY: PairValue := PairValue([], [], [])

  // ---------------------------------------------------- what the codec means

  /** The records the parser stores in a field; all others it keeps as unknown. */
  predicate Known(r: Record) {
    match r.number
    case 1 => r.value.LenValue?
    case 2 => r.value.LenValue?
    case _ => false
  }

  /** A record that does not stop the parser: a string must be UTF-8, a sub-message must parse. */
  predicate Acceptable(r: Record) {
    match r.number
    case 1 => r.value.LenValue? ==> ValidUtf8(r.value.data)
    case 2 => r.value.LenValue? ==> ValidUtf8(r.value.data)
    case _ => true
  }

  function Step(m: PairValue, r: Record): Option<PairValue> {
    if !Known(r) then Some(m.(unknown := m.unknown + [r]))
    else
      match r.number
      case 1 => if ValidUtf8(r.value.data) then Some(m.(key := r.value.data)) else None
      case _ => if ValidUtf8(r.value.data) then Some(m.(value := r.value.data)) else None
  }

  /** The records of the fields, in the order they are written. */
  function KnownRecords(m: PairValue): seq<Record> {
    BytesField(1, m.key) + BytesField(2, m.value)
  }

  function Records(m: PairValue): seq<Record> { KnownRecords(m) + m.unknown }

  function Encode(m: PairValue): Bytes { EncodeRecords(Records(m)) }

  /** Summed in the order of ByteSizeLong, which is not the order of emission. */
  function Size(m: PairValue): nat {
    RecordsSize(m.unknown) + BytesFieldSize(m.key) + BytesFieldSize(m.value)
  }

  function Merge(x: PairValue, y: PairValue): PairValue {
    PairValue(
      key := MergeBytes(x.key, y.key),
      value := MergeBytes(x.value, y.value),
      unknown := x.unknown + y.unknown)
  }

  /** The messages a parser can produce. */
  ghost predicate Valid(m: PairValue) {
    && ValidUtf8(m.key)
    && ValidUtf8(m.value)
    && UnknownTo(Known, m.unknown)
  }

  /** Parsing b into m: the fold of Step over the records of b. */
  function ParseFrom(m: PairValue, b: Bytes): Option<PairValue> { ParseInto(Step, m, b) }

  function Parse(b: Bytes): Option<PairValue> { ParseFrom(EMPTY, b) }

  /** A message over the two-gigabyte limit of the library is not serialised. */
  function Serialize(m: PairValue): Option<Bytes> {
    if Size(m) <= INT_MAX then Some(Encode(m)) else None
  }

  /** A repeated field of this type: its records, and their size. */
  function RecordsOfAll(n: nat, xs: seq<PairValue>): seq<Record> { MessageFields(n, Encode, xs) }

  function SizeOfAll(xs: seq<PairValue>): nat { |xs| + RepeatedSize(Size, xs) }

  /** Messages that records of such a field hold, one each, in order. */
  ghost predicate ParsedAll(rs: seq<Record>, xs: seq<PairValue>) {
    |rs| == |xs| &&
    forall i :: 0 <= i < |rs| ==> rs[i].value.LenValue? && Parse(rs[i].value.data) == Some(xs[i])
  }

  // -------------------------------------------------------------------- laws

  lemma SizeIsLength(m: PairValue)
    ensures |Encode(m)| == Size(m)
  {
    hide RecordsSize, EncodeRecords, Varint, VarintSize;
    hide IntField, BoolField, BytesField, IntOneof, BoolOneof;
    hide IntFieldSize, BoolFieldSize, BytesFieldSize, IntOneofSize, BoolOneofSize;
    BytesFieldLength(1, m.key);
    var s0 := BytesField(1, m.key);
    BytesFieldLength(2, m.value);
    RecordsSizeConcat(s0, BytesField(2, m.value));
    var s1 := s0 + BytesField(2, m.value);
    RecordsSizeConcat(s1, m.unknown);
    RecordsSizeIsLength(Records(m));
  }

  lemma SizeOfAllIsLength(n: nat, xs: seq<PairValue>)
    requires n < 16
    ensures RecordsSize(RecordsOfAll(n, xs)) == SizeOfAll(xs)
  {
    hide RecordsSize, RepeatedSize, MessageFields, Encode, Size;
    forall x | x in xs ensures |Encode(x)| == Size(x) { SizeIsLength(x); }
    RepeatedSizeIsLength(n, Encode, Size, xs);
  }

  lemma ElementFits(xs: seq<PairValue>, x: PairValue)
    requires x in xs
    ensures Size(x) < SizeOfAll(xs)
  {
    hide RepeatedSize, Size;
    ElementBelowRepeatedSize(Size, xs, x);
  }

  lemma AllPrefix(n: nat, xs: seq<PairValue>, i: nat)
    requires i < |xs|
    ensures RecordsOfAll(n, xs[..i + 1]) == RecordsOfAll(n, xs[..i]) + [BytesRecord(n, Encode(xs[i]))]
    ensures SizeOfAll(xs[..i + 1]) == SizeOfAll(xs[..i]) + 1 + LengthDelimitedSize(Size(xs[i]))
    ensures SizeOfAll(xs[..i + 1]) <= SizeOfAll(xs)
  {
    hide RepeatedSize, MessageFields, Encode, Size, LengthDelimitedSize;
    MessageFieldsPrefix(n, Encode, xs, i);
    RepeatedSizePrefix(Size, xs, i);
  }

  lemma RecordsOfAllKnown(known: Record -> bool, n: nat, xs: seq<PairValue>)
    requires 1 <= n < 16 && forall x :: x in xs ==> known(BytesRecord(n, Encode(x)))
    ensures AllKnown(known, RecordsOfAll(n, xs))
  {
    hide Encode;
    MessageFieldsKnown(known, n, Encode, xs);
  }

  lemma OneMoreParsed(rs: seq<Record>, xs: seq<PairValue>, r: Record, x: PairValue)
    requires ParsedAll(rs, xs) && r.value.LenValue? && Parse(r.value.data) == Some(x)
    ensures ParsedAll(rs + [r], xs + [x])
  {
    hide Parse;
  }

  lemma AllOfNothing(n: nat, xs: seq<PairValue>)
    ensures RecordsOfAll(n, xs[..0]) == [] && SizeOfAll(xs[..0]) == 0
  {
  }

  lemma ReplayUnknown(x: PairValue, us: seq<Record>)
    requires UnknownTo(Known, us)
    ensures Fold(Step, x, us) == Some(x.(unknown := x.unknown + us))
  {
    var append := (m: PairValue, rs: seq<Record>) => m.(unknown := m.unknown + rs);
    forall m: PairValue, a: seq<Record>, b: seq<Record> ensures append(append(m, a), b) == append(m, a + b) {
      assert (m.unknown + a) + b == m.unknown + (a + b);
    }
    forall m: PairValue ensures append(m, []) == m {
      assert m.unknown + [] == m.unknown;
    }
    FoldAppends(Step, Known, append, x, us);
  }

  lemma ReplayKey(x: PairValue, v: Bytes)
    requires ValidUtf8(v)
    ensures Fold(Step, x, BytesField(1, v)) == Some(x.(key := MergeBytes(x.key, v)))
  {
    hide Fold, ValidUtf8;
    FoldBytesField(Step, x, 1, v);
  }

  lemma ReplayValue(x: PairValue, v: Bytes)
    requires ValidUtf8(v)
    ensures Fold(Step, x, BytesField(2, v)) == Some(x.(value := MergeBytes(x.value, v)))
  {
    hide Fold, ValidUtf8;
    FoldBytesField(Step, x, 2, v);
  }

  /** Replaying the records of y is merging y. */
  lemma Replay(x: PairValue, y: PairValue)
    requires Valid(y)
    ensures Fold(Step, x, Records(y)) == Some(Merge(x, y))
  {
    hide MergeInt32, MergeInt64, MergeBool, MergeBytes, MergeOneof;
    hide Step, Fold, ValidUtf8, UnknownTo, IntField, BoolField, BytesField, IntOneof, BoolOneof;
    var x1 := x.(key := MergeBytes(x.key, y.key));
    ReplayKey(x, y.key);
    var s1 := BytesField(1, y.key);
    var x2 := x1.(value := MergeBytes(x1.value, y.value));
    ReplayValue(x1, y.value);
    FoldThen(Step, x, s1, x1, BytesField(2, y.value), x2);
    var s2 := s1 + BytesField(2, y.value);
    ReplayUnknown(x2, y.unknown);
    FoldThen(Step, x, s2, x2, y.unknown, Merge(x, y));
  }

  lemma ParseEncoded(x: PairValue, y: PairValue)
    requires Valid(y) && Size(y) <= INT_MAX
    ensures ParseFrom(x, Encode(y)) == Some(Merge(x, y))
  {
    SizeIsLength(y);
    RecordsSizeIsLength(Records(y));
    RecordsHaveNumbers(y);
    hide Fold, EncodeRecords, RecordsSize, Records, Size, Valid, Merge;
    SmallRecordsAreValid(Records(y));
    Codec.ParseEncoded(Step, x, Records(y));
    Replay(x, y);
  }

  /** Every record written for a field is one the parser stores in a field. */
  lemma KnownRecordsAreKnown(m: PairValue)
    ensures AllKnown(Known, KnownRecords(m))
  {
    BytesFieldKnown(Known, 1, m.key);
    BytesFieldKnown(Known, 2, m.value);
    hide AllKnown, Known, IntField, BoolField, BytesField, IntOneof, BoolOneof;
    var s0 := BytesField(1, m.key);
    AllKnownConcat(Known, s0, BytesField(2, m.value));
  }

  lemma RecordsHaveNumbers(m: PairValue)
    requires Valid(m)
    ensures forall i :: 0 <= i < |Records(m)| ==> 1 <= Records(m)[i].number < 0x2000_0000
  {
    KnownRecordsAreKnown(m);
    hide KnownRecords, Known;
  }

  lemma MergeLaws(x: PairValue, y: PairValue, z: PairValue)
    ensures Merge(EMPTY, x) == x
    ensures Merge(x, EMPTY) == x
    ensures Merge(Merge(x, y), z) == Merge(x, Merge(y, z))
  {
    assert (x.unknown + y.unknown) + z.unknown == x.unknown + (y.unknown + z.unknown)
           && [] + x.unknown == x.unknown == x.unknown + [];
  }

  lemma StepKeeps(x: PairValue, r: Record)
    requires ValidRecord(r) && Step(x, r).Some?
    ensures Valid(x) ==> Valid(Step(x, r).value)
    ensures Step(x, r).value.unknown == x.unknown + (if Known(r) then [] else [r])
  {
    hide ValidUtf8;
  }

  lemma StepAccepts(m: PairValue, r: Record)
    ensures Step(m, r).Some? <==> Acceptable(r)
  {
    hide ValidUtf8;
  }

  /** A byte string parses exactly if it splits into records of which each is acceptable. */
  lemma ParsesExactlyIf(m: PairValue, b: Bytes)
    ensures ParseFrom(m, b).Some? <==>
              DecodeRecords(b).Some? && forall r :: r in DecodeRecords(b).value ==> Acceptable(r)
  {
    forall x: PairValue, r: Record ensures Step(x, r).Some? <==> Acceptable(r) { StepAccepts(x, r); }
    hide Step, Acceptable;
    if DecodeRecords(b).Some? { FoldSucceeds(Step, Acceptable, m, DecodeRecords(b).value); }
  }

  lemma EmptyIsValid()
    ensures Valid(EMPTY)
  {
  }

  lemma ParseIsValid(x: PairValue, b: Bytes)
    requires ParseFrom(x, b).Some?
    ensures Valid(x) ==> Valid(ParseFrom(x, b).value)
    ensures ParseFrom(x, b).value.unknown == x.unknown + Unknowns(Known, DecodeRecords(b).value)
  {
    SplitIsBounded(b);
    var unknownOf, valid := (m: PairValue) => m.unknown, (m: PairValue) => Valid(m);
    forall m: PairValue, r: Record | ValidRecord(r) ensures Keeps(Step, Known, unknownOf, valid, m, r) {
      if Step(m, r).Some? { StepKeeps(m, r); }
    }
    hide Step, Valid, Known, Keeps;
    FoldKeeps(Step, Known, unknownOf, valid, x, DecodeRecords(b).value);
  }

  /** What was serialised parses back to the same message exactly if the message is valid. */
  lemma RoundTrip(m: PairValue)
    requires Serialize(m).Some?
    ensures Parse(Serialize(m).value) == Some(m) <==> Valid(m)
  {
    hide ParseFrom, Encode, Size, Valid, Merge;
    if Valid(m) { ParseEncoded(EMPTY, m); MergeLaws(m, m, m); }
    EmptyIsValid();
    if Parse(Encode(m)).Some? { ParseIsValid(EMPTY, Encode(m)); }
  }

  /** Parsing one serialisation after another is merging the messages. */
  lemma MergeLaw(x: PairValue, y: PairValue)
    requires Valid(x) && Valid(y) && Serialize(x).Some? && Serialize(y).Some?
    ensures Parse(Serialize(x).value + Serialize(y).value) == Some(Merge(x, y))
  {
    hide ParseInto, Encode, Size, Valid, Merge;
    ParseEncoded(EMPTY, x);
    MergeLaws(x, x, x);
    ParseEncoded(x, y);
    ParseConcat(Step, EMPTY, Encode(x), Encode(y));
  }

  /** Whatever parses is re-serialised to bytes that parse to the same message: the records of
      the fields, then every record of the input the parser did not recognise, in order. */
  lemma ForwardCompatible(b: Bytes)
    requires Parse(b).Some? && Serialize(Parse(b).value).Some?
    ensures var m := Parse(b).value;
            && Parse(Serialize(m).value) == Some(m)
            && DecodeRecords(Serialize(m).value)
            == Some(KnownRecords(m) + Unknowns(Known, DecodeRecords(b).value))
            && AllKnown(Known, KnownRecords(m))
  {
    var m := Parse(b).value;
    EmptyIsValid();
    ParseIsValid(EMPTY, b);
    RoundTrip(m);
    KnownRecordsAreKnown(m);
    RecordsHaveNumbers(m);
    SizeIsLength(m);
    RecordsSizeIsLength(Records(m));
    hide EncodeRecords, DecodeRecords, RecordsSize, Size, Valid, KnownRecords, ParseFrom, Unknowns, Known;
    SmallRecordsAreValid(Records(m));
    DecodeInverts(Records(m));
    assert [] + Unknowns(Known, DecodeRecords(b).value) == Unknowns(Known, DecodeRecords(b).value);
  }

  // ------------------------------------------ parsing any bytes, and merging

  /** Every implicit-presence field whose last record holds the default is at its default in x. */
  predicate KeepsDefaults(x: PairValue, rs: seq<Record>) {
    && (LastBytes(Known, 1, rs) == Some([]) ==> x.key == [])
    && (LastBytes(Known, 2, rs) == Some([]) ==> x.value == [])
  }

  /** Where records that fold to y from the empty message fold to z from x: a singular field is that
      of its last record, or as before if it has none. */
  ghost predicate Overlays(x: PairValue, y: PairValue, z: PairValue, rs: seq<Record>) {
    && y.key == OrElse(LastBytes(Known, 1, rs), EMPTY.key) && z.key == OrElse(LastBytes(Known, 1, rs), x.key)
    && y.value == OrElse(LastBytes(Known, 2, rs), EMPTY.value) && z.value == OrElse(LastBytes(Known, 2, rs), x.value)
    && z.unknown == x.unknown + y.unknown
  }

  /** The last record of every field, and the records of every list, with one record more. */
  lemma FieldsUnroll(rs: seq<Record>)
    requires rs != []
    ensures var init, r := rs[..|rs| - 1], rs[|rs| - 1];
            var n := if Known(r) then r.number else 0;
            && LastBytes(Known, 1, rs) == (if n == 1 then Some(r.value.data) else LastBytes(Known, 1, init))
            && LastBytes(Known, 2, rs) == (if n == 2 then Some(r.value.data) else LastBytes(Known, 2, init))
  {
    LastBytesUnrolls(Known, 1, rs);
    LastBytesUnrolls(Known, 2, rs);
    hide LastBytes, ToInt32, ToInt64;
  }

  lemma StepOverlays(x: PairValue, y: PairValue, z: PairValue, rs: seq<Record>)
    requires rs != [] && Overlays(x, y, z, rs[..|rs| - 1]) && Step(y, rs[|rs| - 1]).Some?
    ensures Step(z, rs[|rs| - 1]).Some?
    ensures Overlays(x, Step(y, rs[|rs| - 1]).value, Step(z, rs[|rs| - 1]).value, rs)
  {
    FieldsUnroll(rs);
    hide LastBytes, ToInt32, ToInt64, ValidUtf8;
  }

  /** Last One Wins: what any records do to x, told by what they do to the empty message. */
  lemma {:induction false} LastOneWins(x: PairValue, rs: seq<Record>)
    requires Fold(Step, EMPTY, rs).Some?
    ensures Fold(Step, x, rs).Some?
    ensures Overlays(x, Fold(Step, EMPTY, rs).value, Fold(Step, x, rs).value, rs)
    decreases |rs|
  {
    if rs == [] {
      assert x.unknown + [] == x.unknown;
    } else {
      var init := rs[..|rs| - 1];
      FoldLast(Step, EMPTY, rs);
      FoldLast(Step, x, rs);
      hide Step, Overlays, Fold;
      LastOneWins(x, init);
      StepOverlays(x, Fold(Step, EMPTY, init).value, Fold(Step, x, init).value, rs);
    }
  }

  /** Folding records into x is merging what they fold to, exactly if x keeps the defaults they
      spell out: a default that is spelled out overwrites, and a merge overlooks it. */
  lemma FoldsLikeMerged(x: PairValue, rs: seq<Record>)
    requires Fold(Step, EMPTY, rs).Some?
    ensures Fold(Step, x, rs) == Some(Merge(x, Fold(Step, EMPTY, rs).value)) <==> KeepsDefaults(x, rs)
  {
    LastOneWins(x, rs);
    hide LastBytes, Fold;
  }

  /** Parsing b into x is merging the parse of b, exactly if x keeps the defaults b spells out. */
  lemma MergesLikeParsed(x: PairValue, b: Bytes)
    requires Parse(b).Some?
    ensures ParseFrom(x, b) == Some(Merge(x, Parse(b).value)) <==> KeepsDefaults(x, DecodeRecords(b).value)
  {
    FoldsLikeMerged(x, DecodeRecords(b).value);
    hide Merge, KeepsDefaults, Fold;
  }

  /** The merge law on any bytes that parse. */
  lemma ConcatMerges(a: Bytes, b: Bytes)
    requires Parse(a).Some? && Parse(b).Some?
    ensures Parse(a + b) == Some(Merge(Parse(a).value, Parse(b).value))
       <==> KeepsDefaults(Parse(a).value, DecodeRecords(b).value)
  {
    MergesLikeParsed(Parse(a).value, b);
    hide ParseInto, Merge, KeepsDefaults;
    ParseConcat(Step, EMPTY, a, b);
  }

  /** An input of two bytes that spells out a default: an empty key, which erases a key already
      there. No shorter input that parses does so. */
  lemma AnEmptyKeyErases()
    ensures var b := [10, 0]; var x := PairValue([65], [], []);
            && Parse(b) == Some(EMPTY)
            && ParseFrom(x, b) == Some(EMPTY)
            && Merge(x, EMPTY) == x
    ensures forall x: PairValue, c: Bytes | |c| < 2 && Parse(c).Some? ::
              ParseFrom(x, c) == Some(Merge(x, Parse(c).value))
  {
    var b: Bytes := [10, 0];
    var x := PairValue([65], [], []);
    var r := BytesRecord(1, []);
    assert Varint(10) == [10] && Varint(0) == [0];
    assert b == EncodeRecord(r);
    DecodeOne(r);
    FoldOne(Step, EMPTY, r);
    FoldOne(Step, x, r);
    forall x: PairValue, c: Bytes | |c| < 2 && Parse(c).Some?
      ensures ParseFrom(x, c) == Some(Merge(x, Parse(c).value))
    {
      SplitIsBounded(c);
      assert DecodeRecords(c).value == [];
      MergeLaws(x, x, x);
    }
  }

  /** A key that is not UTF-8 is written all the same, and what is written does not parse. */
  lemma InvalidUtf8IsWritten()
    ensures var m := PairValue([0xFF], [], []);
            !Valid(m) && Serialize(m) == Some([10, 1, 0xFF]) && Parse([10, 1, 0xFF]) == None
  {
    var m := PairValue([0xFF], [], []);
    var r := BytesRecord(1, [0xFF]);
    assert Varint(10) == [10] && Varint(1) == [1];
    assert EncodeRecord(r) == [10, 1, 0xFF];
    assert Records(m) == [r] && [r][..0] == [];
    assert Encode(m) == EncodeRecords([]) + EncodeRecord(r);
    SizeIsLength(m);
    assert EncodeRecords([]) == [] && [] + EncodeRecord(r) == EncodeRecord(r);
    assert Utf8CharLength([0xFF]) == 0 && !ValidUtf8([0xFF]);
    DecodeOne(r);
    FoldOne(Step, EMPTY, r);
    assert Step(EMPTY, r) == None;
    hide EncodeRecord, EncodeRecords, Fold, Step;
  }

  // --------------------------------------------------------- nodes of a tree

  /** A message inside its parent: its members and its cached size. */
  type PairNode = Node<PairValue>

  function ValueOf(c: PairValue): PairValue {
    c
  }

  function ValuesOf(ns: seq<PairNode>): (vs: seq<PairValue>)
    ensures |vs| == |ns| && forall i :: 0 <= i < |ns| ==> vs[i] == ValueOf(ns[i].contents)
  {
    if ns == [] then [] else ValuesOf(ns[..|ns| - 1]) + [ValueOf(ns[|ns| - 1].contents)]
  }

  lemma ValuesOfAppend(ns: seq<PairNode>, n: PairNode)
    ensures ValuesOf(ns + [n]) == ValuesOf(ns) + [ValueOf(n.contents)]
  {
    assert (ns + [n])[..|ns|] == ns;
  }

  /** Every cached size in the tree is the size of what it caches. */
  ghost predicate Sized(n: PairNode) {
    && n.cachedSize == ToCachedSize(Size(ValueOf(n.contents)))
  }

  ghost predicate AllSized(ns: seq<PairNode>) {
    forall i :: 0 <= i < |ns| ==> Sized(ns[i])
  }

  /** Ready to be written: the sizes are cached, and each of them is an int. */
  ghost predicate Ready(ns: seq<PairNode>) {
    forall i :: 0 <= i < |ns| ==> Sized(ns[i]) && Size(ValueOf(ns[i].contents)) <= INT_MAX
  }

  // ------------------------------------------------------ the mutable message

  /** What the loop does with the record after a tag: ok says whether it goes on, from m1 and rest1. */
  ghost predicate Merges(tag: nat, m0: PairValue, rest0: Bytes, ok: bool, m1: PairValue, rest1: Bytes)
    requires tag < TWO32
  {
    MergedRecord(Step, tag, m0, rest0, ok, m1, rest1)
  }

  /** What reading a length-prefixed message into m0 does: ok, and then m1 and rest1. */
  ghost predicate Reads(m0: PairValue, rest0: Bytes, ok: bool, m1: PairValue, rest1: Bytes) {
    match ReadPayload(2, rest0)
    case None => !ok
    case Some((w, k)) => ParseFrom(m0, w.data) == (if ok then Some(m1) else None) && (ok ==> rest1 == rest0[k..])
  }

  lemma Turns(m: PairValue, b: Bytes, tag: nat, n: nat, ok: bool, m1: PairValue, rest1: Bytes)
    requires b != [] && ReadTag(b) == Some((tag, n))
    requires Merges(tag, m, b[n..], ok, m1, rest1)
    ensures ok ==> ParseFrom(m, b) == ParseFrom(m1, rest1) && |rest1| < |b|
    ensures !ok ==> ParseFrom(m, b) == None
  {
    hide ReadTag, ReadAfterTag, ParseInto, Step;
    LoopTurns(Step, m, b, tag, n, ok, m1, rest1);
  }

  /** The loop stops at tag 0: rightly at the end of the window, wrongly anywhere else. */
  lemma Stops(m: PairValue, b: Bytes)
    requires b == [] || ReadTag(b) == None || ReadTag(b).value.0 == 0
    ensures ParseFrom(m, b) == if b == [] then Some(m) else None
  {
    hide ParseInto;
    LoopStops(Step, m, b);
  }

  class Pair {
    var key: Bytes
    var value: Bytes
    var unknown: seq<Record>
    var cachedSize: int32

    function Contents(): PairValue
      reads this
    {
      PairValue(key, value, unknown)
    }

    function AsNode(): PairNode
      reads this
    {
      Node(Contents(), cachedSize)
    }

    ghost function Value(): PairValue
      reads this
    {
      ValueOf(AsNode().contents)
    }

    constructor ()
      ensures Value() == EMPTY
    {
      key := [];
      value := [];
      unknown := [];
      cachedSize := 0;
    }

    /** A message taken out of its parent. */
    constructor At(node: PairNode)
      ensures AsNode() == node
    {
      key := node.contents.key;
      value := node.contents.value;
      unknown := node.contents.unknown;
      cachedSize := node.cachedSize;
    }

    constructor Copy(from: Pair)
      ensures Value() == from.Value()
    {
      unknown := from.unknown;
      key := if |from.key| > 0 then from.key else [];
      value := if |from.value| > 0 then from.value else [];
      cachedSize := 0;
    }

    method Clear()
      modifies this
      ensures Value() == EMPTY
    {
      key := [];
      value := [];
      unknown := [];
    }

    method MergeFrom(from: Pair)
      requires from != this
      modifies this
      ensures Value() == Merge(old(Value()), from.Value())
    {
      hide MergeBytes;
      var c := from.Contents();
      unknown := unknown + c.unknown;
      key := MergeBytes(key, c.key);
      value := MergeBytes(value, c.value);
    }

    method CopyFrom(from: Pair)
      modifies this
      ensures Value() == old(from.Value())
    {
      if from == this { return; }
      hide Merge;
      Clear();
      MergeFrom(from);
      MergeLaws(from.Value(), EMPTY, EMPTY);
    }

    method MergePartialFromCodedStream(input: CodedInputStream) returns (ok: bool)
      requires input.Valid()
      modifies this, input
      ensures input.Valid() && (ok ==> input.limit == old(input.limit))
      ensures ok && input.legitimateEnd ==> input.Rest() == []
      ensures (if ok && input.legitimateEnd then Some(Value()) else None)
           == ParseFrom(old(Value()), old(input.Rest()))
    {
      hide Merges, ReadTag, ParseFrom, Value, CodedInputStream.Rest;
      while true
        invariant input.Valid() && input.limit == old(input.limit)
        invariant ParseFrom(Value(), input.Rest()) == ParseFrom(old(Value()), old(input.Rest()))
        decreases |input.Rest()|
      {
        ghost var m, rest := Value(), input.Rest();
        var tag, known := input.ReadTagWithCutoffNoLastTag(127);
        if tag == 0 {
          Stops(m, rest);
          return true;
        }
        ok := MergeRecord(tag, known, input);
        Turns(m, rest, tag, ReadTag(rest).value.1, ok, Value(), input.Rest());
        if !ok { return false; }
      }
    }

    /** The switch of the parse loop. Outside sub-messages every case reads the payload its wire
        type calls for, so the read stands before the switch. */
    method MergeRecord(tag: nat, known: bool, input: CodedInputStream) returns (ok: bool)
      requires input.Valid() && tag < TWO32 && (known <==> 1 <= tag <= 127)
      modifies this, input
      ensures input.Valid() && (ok ==> input.limit == old(input.limit))
      ensures Merges(tag, old(Value()), old(input.Rest()), ok, Value(), input.Rest())
    {
      hide ReadPayload, CodedInputStream.Rest, ToInt32, ToInt64;
      if tag / 8 == 0 { return false; }
      var w;
      ok, w := input.ReadPayloadOf(tag % 8);
      if !ok { return false; }
      assert Contents() == old(Contents());
      hide Contents, Step;
      if known && tag in {10, 18} {
        ok := SetBytes(tag / 8, w.data);
        return;
      }
      AddUnknown(Record(tag / 8, w));
    }

    /** The cases whose payload is a string: it is stored, and then checked. */
    method SetBytes(number: nat, s: Bytes) returns (ok: bool)
      requires number in {1, 2}
      modifies this
      ensures (if ok then Some(Value()) else None) == Step(old(Value()), Record(number, LenValue(s)))
    {
      hide ValidUtf8;
      match number {
        case 1 => key := s;
        case _ => value := s;
      }
      ok := ValidUtf8(s);
    }

    /** The library's SkipField: the record is kept as unknown. */
    method AddUnknown(r: Record)
      requires !Known(r)
      modifies this
      ensures Some(Value()) == Step(old(Value()), r)
    {
      unknown := unknown + [r];
    }

    /** A Pair as a length-delimited field of another message. */
    method ReadMessage(input: CodedInputStream) returns (ok: bool)
      requires input.Valid()
      modifies this, input
      ensures input.Valid() && (ok ==> input.limit == old(input.limit))
      ensures Reads(old(Value()), old(input.Rest()), ok, Value(), input.Rest())
    {
      hide ReadPayload, ParseFrom, Value;
      var pushed, outer := input.PushLength();
      if !pushed { return false; }
      ok := MergePartialFromCodedStream(input);
      ok := ok && input.legitimateEnd;
      if ok { input.PopLimit(outer); }
    }

    method ByteSizeLong() returns (total: nat)
      modifies this
      ensures total == Size(Value())
      ensures Value() == old(Value()) && Sized(AsNode())
    {
      hide RecordsSize, ToCachedSize;
      var c := Contents();
      NoRecordsSize(c.unknown);
      total := 0;
      if |c.unknown| > 0 { total := total + RecordsSize(c.unknown); }
      hide BytesFieldSize;
      total := total + BytesFieldSize(c.key);
      total := total + BytesFieldSize(c.value);
      cachedSize := ToCachedSize(total);
    }

    method InternalSerializeWithCachedSizesToArray(target: array<byte>, at: nat) returns (end: nat)
      requires at + Size(Value()) <= target.Length
      modifies target
      ensures end == at + Size(Value())
      ensures target[..end] == old(target[..at]) + Encode(Value())
    {
      var c := Contents();
      ghost var v, pre, done := ValueOf(c), target[..at], [];
      hide Wrote, EncodeRecords, RecordsSize, IntField, BoolField, BytesField, IntOneof, BoolOneof;
      hide IntFieldSize, BoolFieldSize, BytesFieldSize, IntOneofSize, BoolOneofSize;
      assert v == Value();
      hide Sized, Contents, AsNode, Value;
      NothingWrote(target, at);
      end := at;
      end := WriteBytesFieldToArray(1, c.key, target, end, pre, done);
      NothingBefore(BytesField(1, v.key));
      done := BytesField(1, v.key);
      end := WriteBytesFieldToArray(2, c.value, target, end, pre, done);
      done := done + BytesField(2, v.value);
      assert done == KnownRecords(v);
      end := SerializeUnknownFieldsToArray(c.unknown, target, end, pre, done);
      assert done + c.unknown == Records(v);
      WroteMeans(target, end, pre, Records(v));
    }

    method SerializeWithCachedSizes(output: CodedOutputStream)
      modifies output
      ensures output.written == old(output.written) + Encode(Value())
    {
      var c := Contents();
      ghost var v, pre, done := ValueOf(c), output.written, [];
      hide CodedOutputStream.Holds, EncodeRecords, IntField, BoolField, BytesField, IntOneof, BoolOneof;
      assert v == Value();
      hide Sized, Contents, AsNode, Value;
      output.HoldsNothing();
      output.WriteBytesField(1, c.key, pre, done);
      NothingBefore(BytesField(1, v.key));
      done := BytesField(1, v.key);
      output.WriteBytesField(2, c.value, pre, done);
      done := done + BytesField(2, v.value);
      assert done == KnownRecords(v);
      output.SerializeUnknownFields(c.unknown, pre, done);
      assert done + c.unknown == Records(v);
      output.HoldsMeans(pre, Records(v));
    }
  }

  // ------------------------------------------- fields of this type

  /** Appending copies of the elements of from. */
  method MergeAll(to: seq<PairNode>, from: seq<PairNode>) returns (r: seq<PairNode>)
    ensures ValuesOf(r) == ValuesOf(to) + ValuesOf(from)
  {
    hide ValuesOf, ValueOf;
    r := to;
    var i := 0;
    while i < |from|
      invariant 0 <= i <= |from|
      invariant ValuesOf(r) == ValuesOf(to) + ValuesOf(from)[..i]
    {
      var node := CopyOfOne(from[i]);
      ValuesOfAppend(r, node);
      r := r + [node];
      i := i + 1;
    }
  }

  /** A new element that the given one is merged into. */
  method CopyOfOne(node: PairNode) returns (copy: PairNode)
    ensures ValueOf(copy.contents) == ValueOf(node.contents)
  {
    hide ValueOf, Merge, Pair.AsNode, Pair.Contents;
    var x := new Pair();
    var y := new Pair.At(node);
    x.MergeFrom(y);
    MergeLaws(y.Value(), EMPTY, EMPTY);
    copy := x.AsNode();
  }

  /** The size loop over a repeated field: it leaves every cached size right. */
  method ByteSizeOfAll(ns: seq<PairNode>) returns (total: nat, sized: seq<PairNode>)
    ensures total == SizeOfAll(ValuesOf(ns))
    ensures ValuesOf(sized) == ValuesOf(ns) && AllSized(sized)
  {
    hide ValuesOf, ValueOf, Size, SizeOfAll, LengthDelimitedSize, Sized, Pair.AsNode, Pair.Contents;
    ghost var vs := ValuesOf(ns);
    total, sized := 0, [];
    var i := 0;
    AllOfNothing(1, vs);
    ValuesOfNothing();
    while i < |ns|
      invariant 0 <= i <= |ns|
      invariant total == SizeOfAll(vs[..i])
      invariant ValuesOf(sized) == vs[..i] && AllSized(sized)
    {
      var n, node := ByteSizeOfOne(ns[i]);
      ValuesOfAppend(sized, node);
      assert vs[..i + 1] == vs[..i] + [vs[i]];
      AllPrefix(1, vs, i);
      total, sized := total + 1 + LengthDelimitedSize(n), sized + [node];
      i := i + 1;
    }
    assert vs[..i] == vs;
  }

  method ByteSizeOfOne(node: PairNode) returns (total: nat, sized: PairNode)
    ensures total == Size(ValueOf(node.contents))
    ensures ValueOf(sized.contents) == ValueOf(node.contents) && Sized(sized)
  {
    hide ValueOf, Size, Sized, Pair.AsNode, Pair.Contents;
    var x := new Pair.At(node);
    total := x.ByteSizeLong();
    sized := x.AsNode();
  }

  lemma ValuesOfNothing()
    ensures ValuesOf([]) == []
  {
  }

  method WriteAllToArray(n: nat, ns: seq<PairNode>, target: array<byte>, at: nat, ghost pre: Bytes,
                         ghost recs: seq<Record>)
    returns (end: nat)
    requires n < 16
    requires Ready(ns)
    requires Wrote(target, at, pre, recs)
    requires at + SizeOfAll(ValuesOf(ns)) <= target.Length
    modifies target
    ensures end == at + SizeOfAll(ValuesOf(ns))
    ensures Wrote(target, end, pre, recs + RecordsOfAll(n, ValuesOf(ns)))
  {
    hide ValuesOf, ValueOf, Size, Encode, SizeOfAll, LengthDelimitedSize, RecordsOfAll, Wrote, Sized;
    ghost var vs, done := ValuesOf(ns), recs;
    end := at;
    var i := 0;
    AllOfNothing(n, vs);
    while i < |ns|
      invariant 0 <= i <= |ns|
      invariant done == recs + RecordsOfAll(n, vs[..i])
      invariant end == at + SizeOfAll(vs[..i]) <= target.Length
      invariant Wrote(target, end, pre, done)
    {
      AllPrefix(n, vs, i);
      end := WriteOneToArray(n, ns[i], target, end, pre, done);
      done := done + [BytesRecord(n, Encode(vs[i]))];
      i := i + 1;
    }
    assert vs[..i] == vs;
  }

  /** The length prefix is the cached size; the contents follow it. */
  method WriteOneToArray(n: nat, node: PairNode, target: array<byte>, at: nat, ghost pre: Bytes,
                         ghost recs: seq<Record>)
    returns (end: nat)
    requires n < 16
    requires Sized(node) && Size(ValueOf(node.contents)) <= INT_MAX
    requires Wrote(target, at, pre, recs)
    requires at + 1 + LengthDelimitedSize(Size(ValueOf(node.contents))) <= target.Length
    modifies target
    ensures end == at + 1 + LengthDelimitedSize(Size(ValueOf(node.contents)))
    ensures Wrote(target, end, pre, recs + [BytesRecord(n, Encode(ValueOf(node.contents)))])
  {
    ghost var v := ValueOf(node.contents);
    SizeIsLength(v);
    SmallSizeIsCached(Size(v));
    hide ValueOf, Size, Encode, EncodeRecords, Varint, VarintSize, ToCachedSize, Pair.Contents;
    var x := new Pair.At(node);
    end := WriteMessageHeadToArray(n, x.cachedSize, target, at, pre, recs);
    end := x.InternalSerializeWithCachedSizesToArray(target, end);
    MessageIsRecord(pre, recs, n, Encode(v));
  }

  method WriteAll(n: nat, ns: seq<PairNode>, output: CodedOutputStream, ghost pre: Bytes, ghost recs: seq<Record>)
    requires n < 16
    requires Ready(ns)
    requires output.Holds(pre, recs)
    modifies output
    ensures output.Holds(pre, recs + RecordsOfAll(n, ValuesOf(ns)))
  {
    hide ValuesOf, ValueOf, Size, Encode, RecordsOfAll, SizeOfAll, LengthDelimitedSize, CodedOutputStream.Holds, Sized;
    ghost var vs, done := ValuesOf(ns), recs;
    var i := 0;
    AllOfNothing(n, vs);
    while i < |ns|
      invariant 0 <= i <= |ns|
      invariant done == recs + RecordsOfAll(n, vs[..i])
      invariant output.Holds(pre, done)
    {
      AllPrefix(n, vs, i);
      WriteOne(n, ns[i], output, pre, done);
      done := done + [BytesRecord(n, Encode(vs[i]))];
      i := i + 1;
    }
    assert vs[..i] == vs;
  }

  /** Into the stream's buffer if it has room for the whole message, piecewise otherwise. */
  method WriteOne(n: nat, node: PairNode, output: CodedOutputStream, ghost pre: Bytes, ghost recs: seq<Record>)
    requires n < 16
    requires Sized(node) && Size(ValueOf(node.contents)) <= INT_MAX
    requires output.Holds(pre, recs)
    modifies output
    ensures output.Holds(pre, recs + [BytesRecord(n, Encode(ValueOf(node.contents)))])
  {
    ghost var v := ValueOf(node.contents);
    SizeIsLength(v);
    SmallSizeIsCached(Size(v));
    hide ValueOf, Size, Encode, EncodeRecords, Varint, VarintSize, ToCachedSize, Pair.Contents;
    var x := new Pair.At(node);
    var size: nat := x.cachedSize;
    output.Write(Varint(n * 8 + 2) + Varint(size));
    if output.HasDirectBuffer(size) {
      var buffer := new byte[size];
      var end := x.InternalSerializeWithCachedSizesToArray(buffer, 0);
      assert buffer[..end] == Encode(v);
      output.Write(buffer[..end]);
    } else {
      x.SerializeWithCachedSizes(output);
    }
    MessageIsRecord(pre, recs, n, Encode(v));
  }
}
