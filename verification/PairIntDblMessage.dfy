/**
 Message PairIntDbl of the admin protocol: an integer and a double. The double is written only
 when it is not equal to 0, and -0.0 is equal to 0: the laws of the other messages hold here
 exactly where no -0.0 is lost.
 */
module PairIntDblMessage {
  import opened Wire
  import opened Codec
  import opened Fields
  import opened CodedStream

  datatype PairIntDblValue = PairIntDblValue(
    key: int64,
    val: Bytes8,
    unknown: seq<Record>)

  const EMPTY: PairIntDblValue := PairIntDblValue(0, POSITIVE_ZERO, [])

  // ---------------------------------------------------- what the codec means

  /** The records the parser stores in a field; all others it keeps as unknown. */
  predicate Known(r: Record) {
    match r.number
    case 1 => r.value.VarintValue?
    case 2 => r.value.Fixed64Value?
    case _ => false
  }

  function Step(m: PairIntDblValue, r: Record): Option<PairIntDblValue> {
    if !Known(r) then Some(m.(unknown := m.unknown + [r]))
    else
      match r.number
      case 1 => Some(m.(key := ToInt64(r.value.v)))
      case _ => Some(m.(val := r.value.bits))
  }

  /** The records of the fields, in the order they are written. */
  function KnownRecords(m: PairIntDblValue): seq<Record> {
    IntField(1, m.key) + DoubleField(2, m.val)
  }

  function Records(m: PairIntDblValue): seq<Record> { KnownRecords(m) + m.unknown }

  function Encode(m: PairIntDblValue): Bytes { EncodeRecords(Records(m)) }

  /** Summed in the order of ByteSizeLong, which is not the order of emission. */
  function Size(m: PairIntDblValue): nat {
    RecordsSize(m.unknown) + IntFieldSize(m.key) + DoubleFieldSize(m.val)
  }

  function Merge(x: PairIntDblValue, y: PairIntDblValue): PairIntDblValue {
    PairIntDblValue(
      key := MergeInt64(x.key, y.key),
      val := MergeDouble(x.val, y.val),
      unknown := x.unknown + y.unknown)
  }

  /** What is left of a message that was written and read back. */
  function Normalised(m: PairIntDblValue): PairIntDblValue {
    m.(val := if m.val == NEGATIVE_ZERO then POSITIVE_ZERO else m.val)
  }

  /** The messages a parser can produce. */
  ghost predicate Valid(m: PairIntDblValue) {
    && UnknownTo(Known, m.unknown)
  }

  /** Parsing b into m: the fold of Step over the records of b. */
  function ParseFrom(m: PairIntDblValue, b: Bytes): Option<PairIntDblValue> { ParseInto(Step, m, b) }

  function Parse(b: Bytes): Option<PairIntDblValue> { ParseFrom(EMPTY, b) }

  /** A message over the two-gigabyte limit of the library is not serialised. */
  function Serialize(m: PairIntDblValue): Option<Bytes> {
    if Size(m) <= INT_MAX then Some(Encode(m)) else None
  }

  // -------------------------------------------------------------------- laws

  lemma SizeIsLength(m: PairIntDblValue)
    ensures |Encode(m)| == Size(m)
  {
    hide RecordsSize, EncodeRecords, Varint, VarintSize;
    hide IntField, BoolField, BytesField, IntOneof, BoolOneof;
    hide IntFieldSize, BoolFieldSize, BytesFieldSize, IntOneofSize, BoolOneofSize;
    IntFieldLength(1, m.key);
    var s0 := IntField(1, m.key);
    DoubleFieldLength(2, m.val);
    RecordsSizeConcat(s0, DoubleField(2, m.val));
    var s1 := s0 + DoubleField(2, m.val);
    RecordsSizeConcat(s1, m.unknown);
    RecordsSizeIsLength(Records(m));
  }

  lemma ReplayUnknown(x: PairIntDblValue, us: seq<Record>)
    requires UnknownTo(Known, us)
    ensures Fold(Step, x, us) == Some(x.(unknown := x.unknown + us))
  {
    var append := (m: PairIntDblValue, rs: seq<Record>) => m.(unknown := m.unknown + rs);
    forall m: PairIntDblValue, a: seq<Record>, b: seq<Record> ensures append(append(m, a), b) == append(m, a + b) {
      assert (m.unknown + a) + b == m.unknown + (a + b);
    }
    forall m: PairIntDblValue ensures append(m, []) == m {
      assert m.unknown + [] == m.unknown;
    }
    FoldAppends(Step, Known, append, x, us);
  }

  lemma ReplayKey(x: PairIntDblValue, v: int64)
    ensures Fold(Step, x, IntField(1, v)) == Some(x.(key := MergeInt64(x.key, v)))
  {
    hide Fold, ValidUtf8;
    Int64Inverts(v);
    FoldIntField(Step, x, 1, v);
  }

  lemma ReplayVal(x: PairIntDblValue, v: Bytes8)
    ensures Fold(Step, x, DoubleField(2, v)) == Some(x.(val := MergeDouble(x.val, v)))
  {
    hide Fold, ValidUtf8;
    FoldDoubleField(Step, x, 2, v);
  }

  /** Replaying the records of y is merging y. */
  lemma Replay(x: PairIntDblValue, y: PairIntDblValue)
    requires Valid(y)
    ensures Fold(Step, x, Records(y)) == Some(Merge(x, y))
  {
    hide MergeInt32, MergeInt64, MergeBool, MergeBytes, MergeOneof;
    hide Step, Fold, ValidUtf8, UnknownTo, IntField, BoolField, BytesField, IntOneof, BoolOneof;
    var x1 := x.(key := MergeInt64(x.key, y.key));
    ReplayKey(x, y.key);
    var s1 := IntField(1, y.key);
    var x2 := x1.(val := MergeDouble(x1.val, y.val));
    ReplayVal(x1, y.val);
    FoldThen(Step, x, s1, x1, DoubleField(2, y.val), x2);
    var s2 := s1 + DoubleField(2, y.val);
    ReplayUnknown(x2, y.unknown);
    FoldThen(Step, x, s2, x2, y.unknown, Merge(x, y));
  }

  lemma ParseEncoded(x: PairIntDblValue, y: PairIntDblValue)
    requires Valid(y) && Size(y) <= INT_MAX
    ensures ParseFrom(x, Encode(y)) == Some(Merge(x, y))
  {
    SizeIsLength(y);
    RecordsSizeIsLength(Records(y));
    RecordsHaveNumbers(y);
    hide Fold, EncodeRecords, RecordsSize, Records, Size, Valid, Merge;
    SmallRecordsAreValid(Records(y));
    Codec.ParseEncoded(Step, x, Records(y));
    Replay(x, y);
  }

  /** Every record written for a field is one the parser stores in a field. */
  lemma KnownRecordsAreKnown(m: PairIntDblValue)
    ensures AllKnown(Known, KnownRecords(m))
  {
    IntFieldKnown(Known, 1, m.key);
    DoubleFieldKnown(Known, 2, m.val);
    hide AllKnown, Known, IntField, BoolField, BytesField, IntOneof, BoolOneof;
    var s0 := IntField(1, m.key);
    AllKnownConcat(Known, s0, DoubleField(2, m.val));
  }

  lemma RecordsHaveNumbers(m: PairIntDblValue)
    requires Valid(m)
    ensures forall i :: 0 <= i < |Records(m)| ==> 1 <= Records(m)[i].number < 0x2000_0000
  {
    KnownRecordsAreKnown(m);
    hide KnownRecords, Known;
  }

  lemma MergeLaws(x: PairIntDblValue, y: PairIntDblValue, z: PairIntDblValue)
    ensures Merge(EMPTY, x) == Normalised(x)
    ensures Merge(x, EMPTY) == x
    ensures Merge(Merge(x, y), z) == Merge(x, Merge(y, z))
  {
    assert (x.unknown + y.unknown) + z.unknown == x.unknown + (y.unknown + z.unknown)
           && [] + x.unknown == x.unknown == x.unknown + [];
  }

  lemma StepKeeps(x: PairIntDblValue, r: Record)
    requires ValidRecord(r) && Step(x, r).Some?
    ensures Valid(x) ==> Valid(Step(x, r).value)
    ensures Step(x, r).value.unknown == x.unknown + (if Known(r) then [] else [r])
  {
    hide ValidUtf8;
  }

  /** Nothing is checked: a byte string parses exactly if it splits into records. */
  lemma ParsesExactlyIf(m: PairIntDblValue, b: Bytes)
    ensures ParseFrom(m, b).Some? <==> DecodeRecords(b).Some?
  {
    if DecodeRecords(b).Some? { FoldSucceeds(Step, (r: Record) => true, m, DecodeRecords(b).value); }
  }

  lemma EmptyIsValid()
    ensures Valid(EMPTY)
  {
  }

  lemma ParseIsValid(x: PairIntDblValue, b: Bytes)
    requires ParseFrom(x, b).Some?
    ensures Valid(x) ==> Valid(ParseFrom(x, b).value)
    ensures ParseFrom(x, b).value.unknown == x.unknown + Unknowns(Known, DecodeRecords(b).value)
  {
    SplitIsBounded(b);
    var unknownOf, valid := (m: PairIntDblValue) => m.unknown, (m: PairIntDblValue) => Valid(m);
    forall m: PairIntDblValue, r: Record | ValidRecord(r) ensures Keeps(Step, Known, unknownOf, valid, m, r) {
      if Step(m, r).Some? { StepKeeps(m, r); }
    }
    hide Step, Valid, Known, Keeps;
    FoldKeeps(Step, Known, unknownOf, valid, x, DecodeRecords(b).value);
  }

  /** What was serialised parses back to the same message exactly if the message is valid and
      its double is not -0.0, which reads back as +0.0. */
  lemma RoundTrip(m: PairIntDblValue)
    requires Serialize(m).Some?
    ensures Parse(Serialize(m).value) == Some(m) <==> Valid(m) && m.val != NEGATIVE_ZERO
    ensures Valid(m) ==> Parse(Serialize(m).value) == Some(Normalised(m))
  {
    hide ParseFrom, Encode, Size, Valid, Merge;
    if Valid(m) { ParseEncoded(EMPTY, m); MergeLaws(m, m, m); }
    EmptyIsValid();
    if Parse(Encode(m)).Some? { ParseIsValid(EMPTY, Encode(m)); }
  }

  /** A message that does not survive: only its double is set, to -0.0. */
  lemma NegativeZeroIsLost()
    ensures var m := PairIntDblValue(0, NEGATIVE_ZERO, []);
            Valid(m) && Serialize(m) == Some([]) && Parse([]) == Some(EMPTY) && EMPTY != m
  {
    var m := PairIntDblValue(0, NEGATIVE_ZERO, []);
    assert Records(m) == [];
    SizeIsLength(m);
  }

  /** A parser does keep a -0.0 that is on the wire. */
  lemma NegativeZeroIsRead()
    ensures Parse([17] + NEGATIVE_ZERO) == Some(PairIntDblValue(0, NEGATIVE_ZERO, []))
  {
    var r := Fixed64Record(2, NEGATIVE_ZERO);
    assert Varint(17) == [17];
    assert EncodeRecord(r) == [17] + NEGATIVE_ZERO;
    DecodeOne(r);
    FoldOne(Step, EMPTY, r);
  }

  lemma NormalisedIsWrittenAlike(m: PairIntDblValue)
    ensures Records(Normalised(m)) == Records(m) && Size(Normalised(m)) == Size(m)
  {
  }

  /** Parsing one serialisation after another is merging the messages, unless the first loses
      a -0.0 that the second does not overwrite. */
  lemma MergeLaw(x: PairIntDblValue, y: PairIntDblValue)
    requires Valid(x) && Valid(y) && Serialize(x).Some? && Serialize(y).Some?
    ensures Parse(Serialize(x).value + Serialize(y).value) == Some(Merge(Normalised(x), y))
    ensures Parse(Serialize(x).value + Serialize(y).value) == Some(Merge(x, y))
       <==> x.val != NEGATIVE_ZERO || !IsZero(y.val)
  {
    hide ParseInto, Encode, Size, Valid;
    ParseEncoded(EMPTY, x);
    MergeLaws(x, x, x);
    ParseEncoded(Normalised(x), y);
    ParseConcat(Step, EMPTY, Encode(x), Encode(y));
  }

  /** Whatever parses is re-serialised to bytes that parse to the same message but for a -0.0, and
      that are serialised alike from then on: the records of the fields, then every record of the
      input the parser did not recognise, in order. */
  lemma ForwardCompatible(b: Bytes)
    requires Parse(b).Some? && Serialize(Parse(b).value).Some?
    ensures var m := Parse(b).value;
            && Parse(Serialize(m).value) == Some(Normalised(m))
            && Serialize(Normalised(m)) == Serialize(m)
            && DecodeRecords(Serialize(m).value)
            == Some(KnownRecords(m) + Unknowns(Known, DecodeRecords(b).value))
            && AllKnown(Known, KnownRecords(m))
  {
    var m := Parse(b).value;
    EmptyIsValid();
    ParseIsValid(EMPTY, b);
    RoundTrip(m);
    KnownRecordsAreKnown(m);
    RecordsHaveNumbers(m);
    SizeIsLength(m);
    RecordsSizeIsLength(Records(m));
    hide EncodeRecords, DecodeRecords, RecordsSize, Size, Valid, KnownRecords, ParseFrom, Unknowns, Known;
    SmallRecordsAreValid(Records(m));
    DecodeInverts(Records(m));
    NormalisedIsWrittenAlike(m);
    assert [] + Unknowns(Known, DecodeRecords(b).value) == Unknowns(Known, DecodeRecords(b).value);
  }

  // ------------------------------------------ parsing any bytes, and merging

  /** Every implicit-presence field whose last record holds the default is at its default in x. */
  predicate KeepsDefaults(x: PairIntDblValue, rs: seq<Record>) {
    && (LastInt64(Known, 1, rs) == Some(0) ==> x.key == 0)
    && (EndsInZero(Known, 2, rs) ==> x.val == LastDouble(Known, 2, rs).value)
  }

  /** Where records that fold to y from the empty message fold to z from x: a singular field is that
      of its last record, or as before if it has none. */
  ghost predicate Overlays(x: PairIntDblValue, y: PairIntDblValue, z: PairIntDblValue, rs: seq<Record>) {
    && y.key == OrElse(LastInt64(Known, 1, rs), EMPTY.key) && z.key == OrElse(LastInt64(Known, 1, rs), x.key)
    && y.val == OrElse(LastDouble(Known, 2, rs), EMPTY.val) && z.val == OrElse(LastDouble(Known, 2, rs), x.val)
    && z.unknown == x.unknown + y.unknown
  }

  /** The last record of every field, and the records of every list, with one record more. */
  lemma FieldsUnroll(rs: seq<Record>)
    requires rs != []
    ensures var init, r := rs[..|rs| - 1], rs[|rs| - 1];
            var n := if Known(r) then r.number else 0;
            && LastInt64(Known, 1, rs) == (if n == 1 then Some(ToInt64(r.value.v)) else LastInt64(Known, 1, init))
            && LastDouble(Known, 2, rs) == (if n == 2 then Some(r.value.bits) else LastDouble(Known, 2, init))
  {
    LastInt64Unrolls(Known, 1, rs);
    LastDoubleUnrolls(Known, 2, rs);
    hide LastInt64, LastDouble, ToInt32, ToInt64;
  }

  lemma StepOverlays(x: PairIntDblValue, y: PairIntDblValue, z: PairIntDblValue, rs: seq<Record>)
    requires rs != [] && Overlays(x, y, z, rs[..|rs| - 1]) && Step(y, rs[|rs| - 1]).Some?
    ensures Step(z, rs[|rs| - 1]).Some?
    ensures Overlays(x, Step(y, rs[|rs| - 1]).value, Step(z, rs[|rs| - 1]).value, rs)
  {
    FieldsUnroll(rs);
    hide LastInt64, LastDouble, ToInt32, ToInt64, ValidUtf8;
  }

  /** Last One Wins: what any records do to x, told by what they do to the empty message. */
  lemma {:induction false} LastOneWins(x: PairIntDblValue, rs: seq<Record>)
    requires Fold(Step, EMPTY, rs).Some?
    ensures Fold(Step, x, rs).Some?
    ensures Overlays(x, Fold(Step, EMPTY, rs).value, Fold(Step, x, rs).value, rs)
    decreases |rs|
  {
    if rs == [] {
      assert x.unknown + [] == x.unknown;
    } else {
      var init := rs[..|rs| - 1];
      FoldLast(Step, EMPTY, rs);
      FoldLast(Step, x, rs);
      hide Step, Overlays, Fold;
      LastOneWins(x, init);
      StepOverlays(x, Fold(Step, EMPTY, init).value, Fold(Step, x, init).value, rs);
    }
  }

  /** Folding records into x is merging what they fold to, exactly if x keeps the defaults they
      spell out: a default that is spelled out overwrites, and a merge overlooks it. */
  lemma FoldsLikeMerged(x: PairIntDblValue, rs: seq<Record>)
    requires Fold(Step, EMPTY, rs).Some?
    ensures Fold(Step, x, rs) == Some(Merge(x, Fold(Step, EMPTY, rs).value)) <==> KeepsDefaults(x, rs)
  {
    LastOneWins(x, rs);
    hide LastInt64, LastDouble, Fold;
  }

  /** Parsing b into x is merging the parse of b, exactly if x keeps the defaults b spells out. */
  lemma MergesLikeParsed(x: PairIntDblValue, b: Bytes)
    requires Parse(b).Some?
    ensures ParseFrom(x, b) == Some(Merge(x, Parse(b).value)) <==> KeepsDefaults(x, DecodeRecords(b).value)
  {
    FoldsLikeMerged(x, DecodeRecords(b).value);
    hide Merge, KeepsDefaults, Fold;
  }

  /** The merge law on any bytes that parse. */
  lemma ConcatMerges(a: Bytes, b: Bytes)
    requires Parse(a).Some? && Parse(b).Some?
    ensures Parse(a + b) == Some(Merge(Parse(a).value, Parse(b).value))
       <==> KeepsDefaults(Parse(a).value, DecodeRecords(b).value)
  {
    MergesLikeParsed(Parse(a).value, b);
    hide ParseInto, Merge, KeepsDefaults;
    ParseConcat(Step, EMPTY, a, b);
  }

  // --------------------------------------------------------- nodes of a tree

  /** The members and the cached size. */
  type PairIntDblNode = Node<PairIntDblValue>

  function ValueOf(c: PairIntDblValue): PairIntDblValue {
    c
  }

  /** Every cached size in the tree is the size of what it caches. */
  ghost predicate Sized(n: PairIntDblNode) {
    && n.cachedSize == ToCachedSize(Size(ValueOf(n.contents)))
  }

  // ------------------------------------------------------ the mutable message

  /** What the loop does with the record after a tag: ok says whether it goes on, from m1 and rest1. */
  ghost predicate Merges(tag: nat, m0: PairIntDblValue, rest0: Bytes, ok: bool, m1: PairIntDblValue, rest1: Bytes)
    requires tag < TWO32
  {
    MergedRecord(Step, tag, m0, rest0, ok, m1, rest1)
  }

  lemma Turns(m: PairIntDblValue, b: Bytes, tag: nat, n: nat, ok: bool, m1: PairIntDblValue, rest1: Bytes)
    requires b != [] && ReadTag(b) == Some((tag, n))
    requires Merges(tag, m, b[n..], ok, m1, rest1)
    ensures ok ==> ParseFrom(m, b) == ParseFrom(m1, rest1) && |rest1| < |b|
    ensures !ok ==> ParseFrom(m, b) == None
  {
    hide ReadTag, ReadAfterTag, ParseInto, Step;
    LoopTurns(Step, m, b, tag, n, ok, m1, rest1);
  }

  /** The loop stops at tag 0: rightly at the end of the window, wrongly anywhere else. */
  lemma Stops(m: PairIntDblValue, b: Bytes)
    requires b == [] || ReadTag(b) == None || ReadTag(b).value.0 == 0
    ensures ParseFrom(m, b) == if b == [] then Some(m) else None
  {
    hide ParseInto;
    LoopStops(Step, m, b);
  }

  class PairIntDbl {
    var key: int64
    var val: Bytes8
    var unknown: seq<Record>
    var cachedSize: int32

    function Contents(): PairIntDblValue
      reads this
    {
      PairIntDblValue(key, val, unknown)
    }

    function AsNode(): PairIntDblNode
      reads this
    {
      Node(Contents(), cachedSize)
    }

    ghost function Value(): PairIntDblValue
      reads this
    {
      ValueOf(AsNode().contents)
    }

    constructor ()
      ensures Value() == EMPTY
    {
      key := 0;
      val := POSITIVE_ZERO;
      unknown := [];
      cachedSize := 0;
    }

    /** The copy constructor copies the double's bytes, -0.0 or not. */
    constructor Copy(from: PairIntDbl)
      ensures Value() == from.Value()
    {
      unknown := from.unknown;
      key := from.key;
      val := from.val;
      cachedSize := 0;
    }

    method Clear()
      modifies this
      ensures Value() == EMPTY
    {
      key := 0;
      val := POSITIVE_ZERO;
      unknown := [];
    }

    method MergeFrom(from: PairIntDbl)
      requires from != this
      modifies this
      ensures Value() == Merge(old(Value()), from.Value())
    {
      hide MergeInt64, MergeDouble;
      var c := from.Contents();
      unknown := unknown + c.unknown;
      key := MergeInt64(key, c.key);
      val := MergeDouble(val, c.val);
    }

    /** Clearing and merging does not copy a -0.0: CopyFrom and the copy constructor differ there. */
    method CopyFrom(from: PairIntDbl)
      modifies this
      ensures Value() == if from == this then old(Value()) else Normalised(old(from.Value()))
    {
      if from == this { return; }
      hide Merge;
      Clear();
      MergeFrom(from);
      MergeLaws(from.Value(), EMPTY, EMPTY);
    }

    method MergePartialFromCodedStream(input: CodedInputStream) returns (ok: bool)
      requires input.Valid()
      modifies this, input
      ensures input.Valid() && (ok ==> input.limit == old(input.limit))
      ensures ok && input.legitimateEnd ==> input.Rest() == []
      ensures (if ok && input.legitimateEnd then Some(Value()) else None)
           == ParseFrom(old(Value()), old(input.Rest()))
    {
      hide Merges, ReadTag, ParseFrom, Value, CodedInputStream.Rest;
      while true
        invariant input.Valid() && input.limit == old(input.limit)
        invariant ParseFrom(Value(), input.Rest()) == ParseFrom(old(Value()), old(input.Rest()))
        decreases |input.Rest()|
      {
        ghost var m, rest := Value(), input.Rest();
        var tag, known := input.ReadTagWithCutoffNoLastTag(127);
        if tag == 0 {
          Stops(m, rest);
          return true;
        }
        ok := MergeRecord(tag, known, input);
        Turns(m, rest, tag, ReadTag(rest).value.1, ok, Value(), input.Rest());
        if !ok { return false; }
      }
    }

    /** The switch of the parse loop. Outside sub-messages every case reads the payload its wire
        type calls for, so the read stands before the switch. */
    method MergeRecord(tag: nat, known: bool, input: CodedInputStream) returns (ok: bool)
      requires input.Valid() && tag < TWO32 && (known <==> 1 <= tag <= 127)
      modifies this, input
      ensures input.Valid() && (ok ==> input.limit == old(input.limit))
      ensures Merges(tag, old(Value()), old(input.Rest()), ok, Value(), input.Rest())
    {
      hide ReadPayload, CodedInputStream.Rest, ToInt32, ToInt64;
      if tag / 8 == 0 { return false; }
      var w;
      ok, w := input.ReadPayloadOf(tag % 8);
      if !ok { return false; }
      assert Contents() == old(Contents());
      hide Contents, Step;
      if known && tag in {8} {
        SetVarint(tag / 8, w.v);
        return;
      }
      if known && tag == 17 {
        SetVal(w.bits);
        return;
      }
      AddUnknown(Record(tag / 8, w));
    }

    /** The cases whose payload is a varint. */
    method SetVarint(number: nat, v: uint64)
      requires number in {1}
      modifies this
      ensures Some(Value()) == Step(old(Value()), Record(number, VarintValue(v)))
    {
      hide ToInt32, ToInt64;
      match number {
        case _ => key := ToInt64(v);
      }
    }

    method SetVal(bits: Bytes8)
      modifies this
      ensures Some(Value()) == Step(old(Value()), Record(2, Fixed64Value(bits)))
    {
      val := bits;
    }

    /** The library's SkipField: the record is kept as unknown. */
    method AddUnknown(r: Record)
      requires !Known(r)
      modifies this
      ensures Some(Value()) == Step(old(Value()), r)
    {
      unknown := unknown + [r];
    }

    method ByteSizeLong() returns (total: nat)
      modifies this
      ensures total == Size(Value())
      ensures Value() == old(Value()) && Sized(AsNode())
    {
      hide RecordsSize, ToCachedSize;
      var c := Contents();
      NoRecordsSize(c.unknown);
      total := 0;
      if |c.unknown| > 0 { total := total + RecordsSize(c.unknown); }
      hide IntFieldSize, DoubleFieldSize;
      total := total + IntFieldSize(c.key);
      total := total + DoubleFieldSize(c.val);
      cachedSize := ToCachedSize(total);
    }

    method InternalSerializeWithCachedSizesToArray(target: array<byte>, at: nat) returns (end: nat)
      requires at + Size(Value()) <= target.Length
      modifies target
      ensures end == at + Size(Value())
      ensures target[..end] == old(target[..at]) + Encode(Value())
    {
      var c := Contents();
      ghost var v, pre, done := ValueOf(c), target[..at], [];
      hide Wrote, EncodeRecords, RecordsSize, IntField, BoolField, BytesField, IntOneof, BoolOneof;
      hide IntFieldSize, BoolFieldSize, BytesFieldSize, IntOneofSize, BoolOneofSize;
      assert v == Value();
      hide Sized, Contents, AsNode, Value;
      NothingWrote(target, at);
      end := at;
      end := WriteIntFieldToArray(1, c.key, target, end, pre, done);
      NothingBefore(IntField(1, v.key));
      done := IntField(1, v.key);
      end := WriteDoubleFieldToArray(2, c.val, target, end, pre, done);
      done := done + DoubleField(2, v.val);
      assert done == KnownRecords(v);
      end := SerializeUnknownFieldsToArray(c.unknown, target, end, pre, done);
      assert done + c.unknown == Records(v);
      WroteMeans(target, end, pre, Records(v));
    }

    method SerializeWithCachedSizes(output: CodedOutputStream)
      modifies output
      ensures output.written == old(output.written) + Encode(Value())
    {
      var c := Contents();
      ghost var v, pre, done := ValueOf(c), output.written, [];
      hide CodedOutputStream.Holds, EncodeRecords, IntField, BoolField, BytesField, IntOneof, BoolOneof;
      assert v == Value();
      hide Sized, Contents, AsNode, Value;
      output.HoldsNothing();
      output.WriteIntField(1, c.key, pre, done);
      NothingBefore(IntField(1, v.key));
      done := IntField(1, v.key);
      output.WriteDoubleField(2, c.val, pre, done);
      done := done + DoubleField(2, v.val);
      assert done == KnownRecords(v);
      output.SerializeUnknownFields(c.unknown, pre, done);
      assert done + c.unknown == Records(v);
      output.HoldsMeans(pre, Records(v));
    }

    /** The library's ParseFromString: the message is cleared first, and all of the input must be used. */
    method ParseFromString(data: Bytes) returns (ok: bool)
      modifies this
      ensures (if ok then Some(Value()) else None) == Parse(data)
    {
      hide ParseFrom, Value;
      Clear();
      var input := new CodedInputStream(data);
      ok := MergePartialFromCodedStream(input);
      ok := ok && input.legitimateEnd;
    }

    /** The library's SerializeToString: the sizes are cached, and then the array writer fills
        exactly that many bytes. */
    method SerializeToString() returns (s: Option<Bytes>)
      modifies this
      ensures Value() == old(Value()) && s == Serialize(Value())
    {
      var size := ByteSizeLong();
      hide Size, Encode, Value, Sized;
      if size > INT_MAX { return None; }
      var buffer := new byte[size];
      var end := InternalSerializeWithCachedSizesToArray(buffer, 0);
      assert buffer[..end] == buffer[..] && buffer[..0] == [];
      s := Some(buffer[..]);
    }
  }
}
