/** Message MsgVal of the admin protocol: a oneof of four members, one of them a string. */
module MsgValMessage {
  import opened Wire
  import opened Codec
  import opened Fields
  import opened CodedStream

  /** The member that is set, with its value. A double is its eight bytes. */
  datatype Member = NotSet | I32(i32: int32) | I64(i64: int64) | F64(f64: Bytes8) | Str(str: Bytes)

  datatype MsgValValue = MsgValValue(member: Member, unknown: seq<Record>)

  const EMPTY: MsgValValue := MsgValValue(NotSet, [])

  // ---------------------------------------------------- what the codec means

  predicate Known(r: Record) {
    match r.number
    case 1 => r.value.VarintValue?
    case 2 => r.value.VarintValue?
    case 3 => r.value.Fixed64Value?
    case 4 => r.value.LenValue?
    case _ => false
  }

  /** The member a recognised record stands for. */
  function MemberOf(r: Record): Member
    requires Known(r)
  {
    match r.number
    case 1 => I32(ToInt32(r.value.v))
    case 2 => I64(ToInt64(r.value.v))
    case 3 => F64(r.value.bits)
    case _ => Str(r.value.data)
  }

  /** A string member must be UTF-8 to be parsed. */
  predicate Acceptable(r: Record) {
    r.number == 4 && r.value.LenValue? ==> ValidUtf8(r.value.data)
  }

  function Step(m: MsgValValue, r: Record): Option<MsgValValue> {
    if !Known(r) then Some(m.(unknown := m.unknown + [r]))
    else if Acceptable(r) then Some(m.(member := MemberOf(r)))
    else None
  }

  function KnownRecords(m: MsgValValue): seq<Record> {
    match m.member
    case NotSet => []
    case I32(x) => [IntRecord(1, x)]
    case I64(x) => [IntRecord(2, x)]
    case F64(x) => [Fixed64Record(3, x)]
    case Str(s) => [BytesRecord(4, s)]
  }

  function Records(m: MsgValValue): seq<Record> { KnownRecords(m) + m.unknown }

  function Encode(m: MsgValValue): Bytes { EncodeRecords(Records(m)) }

  function MemberSize(m: Member): nat {
    match m
    case NotSet => 0
    case I32(x) => 1 + IntSize(x)
    case I64(x) => 1 + IntSize(x)
    case F64(_) => 1 + 8
    case Str(s) => 1 + LengthDelimitedSize(|s|)
  }

  function Size(m: MsgValValue): nat { RecordsSize(m.unknown) + MemberSize(m.member) }

  function Merge(x: MsgValValue, y: MsgValValue): MsgValValue {
    MsgValValue(if y.member.NotSet? then x.member else y.member, x.unknown + y.unknown)
  }

  ghost predicate Valid(m: MsgValValue) {
    && (m.member.Str? ==> ValidUtf8(m.member.str))
    && UnknownTo(Known, m.unknown)
  }

  function ParseFrom(m: MsgValValue, b: Bytes): Option<MsgValValue> { ParseInto(Step, m, b) }

  function Parse(b: Bytes): Option<MsgValValue> { ParseFrom(EMPTY, b) }

  function Serialize(m: MsgValValue): Option<Bytes> {
    if Size(m) <= INT_MAX then Some(Encode(m)) else None
  }

  // ------------------------------------------------------ the last member wins

  /** The member of the last record of rs that is recognised, or before if there is none. */
  function LastMember(before: Member, rs: seq<Record>): Member {
    if rs == [] then before
    else if Known(rs[|rs| - 1]) then MemberOf(rs[|rs| - 1])
    else LastMember(before, rs[..|rs| - 1])
  }

  lemma {:induction false} FoldKeepsLast(m: MsgValValue, rs: seq<Record>)
    ensures Fold(Step, m, rs).Some? <==> forall i :: 0 <= i < |rs| ==> Acceptable(rs[i])
    ensures var after := MsgValValue(LastMember(m.member, rs), m.unknown + Unknowns(Known, rs));
            Fold(Step, m, rs).Some? ==> Fold(Step, m, rs).value == after
    decreases |rs|
  {
    if rs != [] {
      var init, last := rs[..|rs| - 1], rs[|rs| - 1];
      FoldKeepsLast(m, init);
      assert rs == init + [last];
      FoldConcat(Step, m, init, [last]);
      UnknownsConcat(init, [last]);
      hide Fold, Unknowns, ValidUtf8;
      if Fold(Step, m, init).Some? { FoldOne(Step, Fold(Step, m, init).value, last); }
      assert Unknowns(Known, [last]) == if Known(last) then [] else [last] by { UnknownsOfOne(last); }
      assert (m.unknown + Unknowns(Known, init)) + [last] == m.unknown + (Unknowns(Known, init) + [last]);
    }
  }

  lemma UnknownsOfOne(r: Record)
    ensures Unknowns(Known, [r]) == if Known(r) then [] else [r]
  {
    assert [r][1..] == [];
  }

  lemma {:induction false} UnknownsConcat(xs: seq<Record>, ys: seq<Record>)
    ensures Unknowns(Known, xs + ys) == Unknowns(Known, xs) + Unknowns(Known, ys)
  {
    if xs == [] {
      assert xs + ys == ys;
    } else {
      assert (xs + ys)[1..] == xs[1..] + ys;
      UnknownsConcat(xs[1..], ys);
    }
  }

  /** A byte string parses exactly if it splits into records and every string among the members is
      UTF-8; the message then holds the member of the last recognised record, and no other. */
  lemma LastMemberWins(m: MsgValValue, b: Bytes)
    ensures ParseFrom(m, b).Some? <==>
              DecodeRecords(b).Some? && forall r :: r in DecodeRecords(b).value ==> Acceptable(r)
    ensures ParseFrom(m, b).Some? ==>
              var rs := DecodeRecords(b).value;
              ParseFrom(m, b).value == MsgValValue(LastMember(m.member, rs), m.unknown + Unknowns(Known, rs))
  {
    if DecodeRecords(b).Some? {
      var rs := DecodeRecords(b).value;
      FoldKeepsLast(m, rs);
      assert forall i :: 0 <= i < |rs| ==> rs[i] in rs;
    }
  }

  // -------------------------------------------------------------------- laws

  lemma SizeIsLength(m: MsgValValue)
    ensures |Encode(m)| == Size(m)
  {
    hide RecordsSize, EncodeRecords, Varint, VarintSize;
    RecordsSizeConcat(KnownRecords(m), m.unknown);
    RecordsSizeIsLength(Records(m));
    if m.member.NotSet? {
      NoRecordsSize(KnownRecords(m));
    } else {
      OneRecordSize(KnownRecords(m)[0]);
    }
  }

  lemma ReplayKnown(x: MsgValValue, y: MsgValValue)
    requires Valid(y)
    ensures Fold(Step, x, KnownRecords(y)) == Some(Merge(x, y.(unknown := [])))
  {
    hide Fold, ValidUtf8, ToInt32, ToInt64;
    if y.member.NotSet? {
      FoldNothing(Step, x);
    } else {
      if y.member.I32? { Int32Inverts(y.member.i32); }
      if y.member.I64? { Int64Inverts(y.member.i64); }
      FoldOne(Step, x, KnownRecords(y)[0]);
    }
    assert x.unknown + [] == x.unknown;
  }

  lemma ReplayUnknown(x: MsgValValue, us: seq<Record>)
    requires UnknownTo(Known, us)
    ensures Fold(Step, x, us) == Some(x.(unknown := x.unknown + us))
  {
    var append := (m: MsgValValue, rs: seq<Record>) => m.(unknown := m.unknown + rs);
    forall m: MsgValValue, a: seq<Record>, b: seq<Record> ensures append(append(m, a), b) == append(m, a + b) {
      assert (m.unknown + a) + b == m.unknown + (a + b);
    }
    forall m: MsgValValue ensures append(m, []) == m {
      assert m.unknown + [] == m.unknown;
    }
    FoldAppends(Step, Known, append, x, us);
  }

  /** Replaying the serialisation of y into x is merging y into x. */
  lemma ParseEncoded(x: MsgValValue, y: MsgValValue)
    requires Valid(y) && Size(y) <= INT_MAX
    ensures ParseFrom(x, Encode(y)) == Some(Merge(x, y))
  {
    SizeIsLength(y);
    RecordsSizeIsLength(Records(y));
    var x1 := Merge(x, y.(unknown := []));
    ReplayKnown(x, y);
    ReplayUnknown(x1, y.unknown);
    FoldThen(Step, x, KnownRecords(y), x1, y.unknown, Merge(x, y)) by {
      assert (x.unknown + []) + y.unknown == x.unknown + y.unknown;
    }
    hide Fold, EncodeRecords, RecordsSize, Merge;
    SmallRecordsAreValid(Records(y));
    Codec.ParseEncoded(Step, x, Records(y));
  }

  lemma MergeLaws(x: MsgValValue, y: MsgValValue, z: MsgValValue)
    ensures Merge(EMPTY, x) == x
    ensures Merge(x, EMPTY) == x
    ensures Merge(Merge(x, y), z) == Merge(x, Merge(y, z))
  {
  }

  /** A parse of anything is valid. */
  lemma ParseIsValid(b: Bytes)
    requires Parse(b).Some?
    ensures Valid(Parse(b).value)
  {
    SplitIsBounded(b);
    LastMemberWins(EMPTY, b);
    var rs := DecodeRecords(b).value;
    UnknownsAreUnknown(rs);
    LastIsAcceptable(rs);
    assert [] + Unknowns(Known, rs) == Unknowns(Known, rs);
  }

  lemma {:induction false} UnknownsAreUnknown(rs: seq<Record>)
    requires ValidRecords(rs)
    ensures UnknownTo(Known, Unknowns(Known, rs))
  {
    if rs != [] { UnknownsAreUnknown(rs[1..]); }
  }

  lemma {:induction false} LastIsAcceptable(rs: seq<Record>)
    requires forall r :: r in rs ==> Acceptable(r)
    ensures LastMember(NotSet, rs).Str? ==> ValidUtf8(LastMember(NotSet, rs).str)
  {
    if rs != [] {
      assert Acceptable(rs[|rs| - 1]);
      LastIsAcceptable(rs[..|rs| - 1]);
    }
  }

  /** What was serialised parses back exactly if the message is valid, an empty string included. */
  lemma RoundTrip(m: MsgValValue)
    requires Serialize(m).Some?
    ensures Parse(Serialize(m).value) == Some(m) <==> Valid(m)
  {
    hide ParseFrom, Encode, Size, Valid, Merge;
    if Valid(m) { ParseEncoded(EMPTY, m); MergeLaws(m, m, m); }
    if Parse(Encode(m)).Some? { ParseIsValid(Encode(m)); }
  }

  lemma MergeLaw(x: MsgValValue, y: MsgValValue)
    requires Valid(x) && Valid(y) && Serialize(x).Some? && Serialize(y).Some?
    ensures Parse(Serialize(x).value + Serialize(y).value) == Some(Merge(x, y))
  {
    hide ParseInto, Encode, Size, Valid, Merge;
    ParseEncoded(EMPTY, x);
    MergeLaws(x, x, x);
    ParseEncoded(x, y);
    ParseConcat(Step, EMPTY, Encode(x), Encode(y));
  }

  lemma {:induction false} LastMemberFrom(before: Member, rs: seq<Record>)
    ensures LastMember(before, rs) == if LastMember(NotSet, rs).NotSet? then before else LastMember(NotSet, rs)
  {
    if rs != [] { LastMemberFrom(before, rs[..|rs| - 1]); }
  }

  /** Parsing b into any message is merging the parse of b: a member has no default to spell out. */
  lemma MergesLikeParsed(x: MsgValValue, b: Bytes)
    requires Parse(b).Some?
    ensures ParseFrom(x, b) == Some(Merge(x, Parse(b).value))
  {
    LastMemberWins(x, b);
    LastMemberWins(EMPTY, b);
    LastMemberFrom(x.member, DecodeRecords(b).value);
    assert [] + Unknowns(Known, DecodeRecords(b).value) == Unknowns(Known, DecodeRecords(b).value);
  }

  // ------------------------------------------------------ the mutable message

  ghost predicate Merges(tag: nat, m0: MsgValValue, rest0: Bytes, ok: bool, m1: MsgValValue, rest1: Bytes)
    requires tag < TWO32
  {
    MergedRecord(Step, tag, m0, rest0, ok, m1, rest1)
  }

  lemma Turns(m: MsgValValue, b: Bytes, tag: nat, n: nat, ok: bool, m1: MsgValValue, rest1: Bytes)
    requires b != [] && ReadTag(b) == Some((tag, n))
    requires Merges(tag, m, b[n..], ok, m1, rest1)
    ensures ok ==> ParseFrom(m, b) == ParseFrom(m1, rest1) && |rest1| < |b|
    ensures !ok ==> ParseFrom(m, b) == None
  {
    hide ReadTag, ReadAfterTag, ParseInto, Step;
    LoopTurns(Step, m, b, tag, n, ok, m1, rest1);
  }

  lemma Stops(m: MsgValValue, b: Bytes)
    requires b == [] || ReadTag(b) == None || ReadTag(b).value.0 == 0
    ensures ParseFrom(m, b) == if b == [] then Some(m) else None
  {
    hide ParseInto;
    LoopStops(Step, m, b);
  }

  /** The bytes the four members share: what was stored there last, as the member it was stored as. */
  datatype Union = OfI32(i32: int32) | OfI64(i64: int64) | OfF64(f64: Bytes8) | OfStr(str: Bytes)

  const MSG_VAL_NOT_SET: nat := 0
  const K_I32_VAL: nat := 1
  const K_I64_VAL: nat := 2
  const K_F64_VAL: nat := 3
  const K_STR_VAL: nat := 4

  class MsgVal {
    var oneofCase: nat
    var msgVal: Union
    var unknown: seq<Record>
    var cachedSize: int32

    /** The case tag never names a member other than the one the union was last stored as. */
    ghost predicate Valid()
      reads this
    {
      && oneofCase <= 4
      && (oneofCase == K_I32_VAL ==> msgVal.OfI32?)
      && (oneofCase == K_I64_VAL ==> msgVal.OfI64?)
      && (oneofCase == K_F64_VAL ==> msgVal.OfF64?)
      && (oneofCase == K_STR_VAL ==> msgVal.OfStr?)
    }

    ghost function Value(): MsgValValue
      reads this
      requires Valid()
    {
      MsgValValue(
        match oneofCase
        case 0 => NotSet
        case 1 => I32(msgVal.i32)
        case 2 => I64(msgVal.i64)
        case 3 => F64(msgVal.f64)
        case _ => Str(msgVal.str),
        unknown)
    }

    constructor ()
      ensures Valid() && Value() == EMPTY
    {
      oneofCase, msgVal, unknown, cachedSize := MSG_VAL_NOT_SET, OfI32(0), [], 0;
    }

    constructor Copy(from: MsgVal)
      requires from.Valid()
      ensures Valid() && Value() == from.Value()
    {
      oneofCase, msgVal, unknown, cachedSize := MSG_VAL_NOT_SET, OfI32(0), from.unknown, 0;
      new;
      SetFrom(from);
    }

    method ClearMsgVal()
      requires Valid()
      modifies `oneofCase, `msgVal
      ensures Valid() && Value() == old(Value()).(member := NotSet)
    {
      if oneofCase == K_STR_VAL { msgVal := OfStr([]); }
      oneofCase := MSG_VAL_NOT_SET;
    }

    // A getter returns the default of its type unless its member is the one that is set.

    function GetI32(): (v: int32)
      reads this
      requires Valid()
      ensures v == if Value().member.I32? then Value().member.i32 else 0
    {
      if oneofCase == K_I32_VAL then msgVal.i32 else 0
    }

    function GetI64(): (v: int64)
      reads this
      requires Valid()
      ensures v == if Value().member.I64? then Value().member.i64 else 0
    {
      if oneofCase == K_I64_VAL then msgVal.i64 else 0
    }

    function GetF64(): (v: Bytes8)
      reads this
      requires Valid()
      ensures v == if Value().member.F64? then Value().member.f64 else POSITIVE_ZERO
    {
      if oneofCase == K_F64_VAL then msgVal.f64 else POSITIVE_ZERO
    }

    function GetStr(): (v: Bytes)
      reads this
      requires Valid()
      ensures v == if Value().member.Str? then Value().member.str else []
    {
      if oneofCase == K_STR_VAL then msgVal.str else []
    }

    // A setter drops whatever member was set before.

    method SetI32(v: int32)
      requires Valid()
      modifies `oneofCase, `msgVal
      ensures Valid() && Value() == old(Value()).(member := I32(v))
    {
      if oneofCase != K_I32_VAL {
        ClearMsgVal();
        oneofCase, msgVal := K_I32_VAL, OfI32(0);
      }
      msgVal := OfI32(v);
    }

    method SetI64(v: int64)
      requires Valid()
      modifies `oneofCase, `msgVal
      ensures Valid() && Value() == old(Value()).(member := I64(v))
    {
      if oneofCase != K_I64_VAL {
        ClearMsgVal();
        oneofCase, msgVal := K_I64_VAL, OfI64(0);
      }
      msgVal := OfI64(v);
    }

    method SetF64(v: Bytes8)
      requires Valid()
      modifies `oneofCase, `msgVal
      ensures Valid() && Value() == old(Value()).(member := F64(v))
    {
      if oneofCase != K_F64_VAL {
        ClearMsgVal();
        oneofCase, msgVal := K_F64_VAL, OfF64(POSITIVE_ZERO);
      }
      msgVal := OfF64(v);
    }

    method SetStr(v: Bytes)
      requires Valid()
      modifies `oneofCase, `msgVal
      ensures Valid() && Value() == old(Value()).(member := Str(v))
    {
      MutableStr();
      msgVal := OfStr(v);
    }

    /** The string member, made the one that is set if it was not, and then empty. */
    method MutableStr()
      requires Valid()
      modifies `oneofCase, `msgVal
      ensures Valid() && oneofCase == K_STR_VAL
      ensures Value() == old(Value()).(member := if old(Value()).member.Str? then old(Value()).member else Str([]))
    {
      if oneofCase != K_STR_VAL {
        ClearMsgVal();
        oneofCase, msgVal := K_STR_VAL, OfStr([]);
      }
    }

    method Clear()
      requires Valid()
      modifies this
      ensures Valid() && Value() == EMPTY
    {
      ClearMsgVal();
      unknown := [];
    }

    /** The switch that copying and merging share: it stores the member that is set in from. */
    method SetFrom(from: MsgVal)
      requires Valid() && from.Valid() && from != this
      modifies `oneofCase, `msgVal
      ensures Valid()
      ensures Value() == old(Value()).(member := if from.Value().member.NotSet? then old(Value()).member
                                                 else from.Value().member)
    {
      match from.oneofCase
      case 1 => SetI32(from.GetI32());
      case 2 => SetI64(from.GetI64());
      case 3 => SetF64(from.GetF64());
      case 4 => SetStr(from.GetStr());
      case _ =>
    }

    method MergeFrom(from: MsgVal)
      requires Valid() && from.Valid() && from != this
      modifies this
      ensures Valid() && Value() == Merge(old(Value()), from.Value())
    {
      unknown := unknown + from.unknown;
      SetFrom(from);
    }

    method CopyFrom(from: MsgVal)
      requires Valid() && from.Valid()
      modifies this
      ensures Valid() && Value() == old(from.Value())
    {
      if from == this { return; }
      Clear();
      MergeFrom(from);
      MergeLaws(from.Value(), EMPTY, EMPTY);
    }

    method MergePartialFromCodedStream(input: CodedInputStream) returns (ok: bool)
      requires Valid() && input.Valid()
      modifies this, input
      ensures Valid() && input.Valid() && (ok ==> input.limit == old(input.limit))
      ensures (if ok && input.legitimateEnd then Some(Value()) else None)
           == ParseFrom(old(Value()), old(input.Rest()))
    {
      hide Merges, ReadTag, ParseFrom, Value, CodedInputStream.Rest;
      while true
        invariant Valid() && input.Valid() && input.limit == old(input.limit)
        invariant ParseFrom(Value(), input.Rest()) == ParseFrom(old(Value()), old(input.Rest()))
        decreases |input.Rest()|
      {
        ghost var m, rest := Value(), input.Rest();
        var tag, known := input.ReadTagWithCutoffNoLastTag(127);
        if tag == 0 {
          Stops(m, rest);
          return true;
        }
        ok := MergeRecord(tag, known, input);
        Turns(m, rest, tag, ReadTag(rest).value.1, ok, Value(), input.Rest());
        if !ok { return false; }
      }
    }

    /** The switch of the parse loop. A number member is cleared, read and then set; the string is
        made the set member, read and then checked. */
    method MergeRecord(tag: nat, known: bool, input: CodedInputStream) returns (ok: bool)
      requires Valid() && input.Valid() && tag < TWO32 && (known <==> 1 <= tag <= 127)
      modifies this, input
      ensures Valid() && input.Valid() && (ok ==> input.limit == old(input.limit))
      ensures Merges(tag, old(Value()), old(input.Rest()), ok, Value(), input.Rest())
    {
      hide ReadPayload, CodedInputStream.Rest, ToInt32, ToInt64, ValidUtf8;
      if known && tag in {8, 16, 25} { ClearMsgVal(); }
      if known && tag == 34 { MutableStr(); }
      if tag / 8 == 0 { return false; }
      var w;
      ok, w := input.ReadPayloadOf(tag % 8);
      if !ok { return false; }
      if known && tag == 8 {
        oneofCase, msgVal := K_I32_VAL, OfI32(ToInt32(w.v));
      } else if known && tag == 16 {
        oneofCase, msgVal := K_I64_VAL, OfI64(ToInt64(w.v));
      } else if known && tag == 25 {
        oneofCase, msgVal := K_F64_VAL, OfF64(w.bits);
      } else if known && tag == 34 {
        msgVal := OfStr(w.data);
        ok := ValidUtf8(w.data);
      } else {
        unknown := unknown + [Record(tag / 8, w)];
      }
    }

    method ByteSizeLong() returns (total: nat)
      requires Valid()
      modifies `cachedSize
      ensures Valid() && Value() == old(Value())
      ensures total == Size(Value()) && cachedSize == ToCachedSize(total)
    {
      hide RecordsSize, VarintSize, ToCachedSize;
      NoRecordsSize(unknown);
      total := 0;
      if |unknown| > 0 { total := total + RecordsSize(unknown); }
      match oneofCase {
        case 1 => total := total + 1 + IntSize(GetI32());
        case 2 => total := total + 1 + IntSize(GetI64());
        case 3 => total := total + 1 + 8;
        case 4 => total := total + 1 + LengthDelimitedSize(|GetStr()|);
        case _ =>
      }
      cachedSize := ToCachedSize(total);
    }

    /** Four guarded writes, of which the case tag lets through at most one. */
    method InternalSerializeWithCachedSizesToArray(target: array<byte>, at: nat) returns (end: nat)
      requires Valid()
      requires at + Size(Value()) <= target.Length
      modifies target
      ensures end == at + Size(Value())
      ensures target[..end] == old(target[..at]) + Encode(Value())
    {
      ghost var pre := target[..at];
      hide Wrote, EncodeRecords, RecordsSize, VarintSize;
      NothingWrote(target, at);
      end := at;
      assert forall r: Record :: [] + [r] == [r];
      if oneofCase == K_I32_VAL { end := WriteFieldToArray(IntRecord(1, GetI32()), target, end, pre, []); }
      if oneofCase == K_I64_VAL { end := WriteFieldToArray(IntRecord(2, GetI64()), target, end, pre, []); }
      if oneofCase == K_F64_VAL { end := WriteFieldToArray(Fixed64Record(3, GetF64()), target, end, pre, []); }
      if oneofCase == K_STR_VAL { end := WriteFieldToArray(BytesRecord(4, GetStr()), target, end, pre, []); }
      end := SerializeUnknownFieldsToArray(unknown, target, end, pre, KnownRecords(Value()));
      WroteMeans(target, end, pre, Records(Value()));
    }

    method SerializeWithCachedSizes(output: CodedOutputStream)
      requires Valid()
      modifies output
      ensures output.written == old(output.written) + Encode(Value())
    {
      ghost var pre := output.written;
      hide CodedOutputStream.Holds, EncodeRecords;
      output.HoldsNothing();
      assert forall r: Record :: [] + [r] == [r];
      if oneofCase == K_I32_VAL { output.WriteRecord(IntRecord(1, GetI32()), pre, []); }
      if oneofCase == K_I64_VAL { output.WriteRecord(IntRecord(2, GetI64()), pre, []); }
      if oneofCase == K_F64_VAL { output.WriteRecord(Fixed64Record(3, GetF64()), pre, []); }
      if oneofCase == K_STR_VAL { output.WriteRecord(BytesRecord(4, GetStr()), pre, []); }
      output.SerializeUnknownFields(unknown, pre, KnownRecords(Value()));
      output.HoldsMeans(pre, Records(Value()));
    }
  }
}
