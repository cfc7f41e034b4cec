/**
 How one field becomes records, and how many bytes that takes. An implicit-presence field
 is written only when it is not the default; a oneof member is written whenever it is
 present, whatever its value; a repeated message is one length-delimited record an element.
 Every field number in the modelled messages is below 16, so every tag is one byte.
 */
module Fields {
  import opened Wire
  import opened Codec

  // ---------------------------------------------------------------- doubles

  const POSITIVE_ZERO: Bytes8 := [0, 0, 0, 0, 0, 0, 0, 0]
  const NEGATIVE_ZERO: Bytes8 := [0, 0, 0, 0, 0, 0, 0, 0x80]

  /** The double whose little-endian bytes these are compares equal to 0. */
  predicate IsZero(bits: Bytes8) { bits == POSITIVE_ZERO || bits == NEGATIVE_ZERO }

  // ---------------------------------------------------------------- records

  function IntRecord(n: nat, v: int64): Record { Record(n, VarintValue(ToUnsigned(v))) }

  function BoolRecord(n: nat, v: bool): Record { Record(n, VarintValue(if v then 1 else 0)) }

  function BytesRecord(n: nat, s: Bytes): Record { Record(n, LenValue(s)) }

  function Fixed64Record(n: nat, bits: Bytes8): Record { Record(n, Fixed64Value(bits)) }

  function IntField(n: nat, v: int64): seq<Record> { if v != 0 then [IntRecord(n, v)] else [] }

  function BoolField(n: nat, v: bool): seq<Record> { if v then [BoolRecord(n, v)] else [] }

  function BytesField(n: nat, s: Bytes): seq<Record> { if |s| > 0 then [BytesRecord(n, s)] else [] }

  /** A double is its eight bytes; both zeros of IEEE 754 compare equal to 0. */
  function DoubleField(n: nat, bits: Bytes8): seq<Record> {
    if IsZero(bits) then [] else [Fixed64Record(n, bits)]
  }

  function IntOneof(n: nat, v: Option<int32>): seq<Record> {
    match v case None => [] case Some(x) => [IntRecord(n, x)]
  }

  function BoolOneof(n: nat, v: Option<bool>): seq<Record> {
    match v case None => [] case Some(x) => [BoolRecord(n, x)]
  }

  function MessageFields<T>(n: nat, bytes: T -> Bytes, xs: seq<T>): seq<Record> {
    if xs == [] then []
    else MessageFields(n, bytes, xs[..|xs| - 1]) + [BytesRecord(n, bytes(xs[|xs| - 1]))]
  }

  // ------------------------------------------------------------------ sizes

  function IntSize(v: int64): nat { VarintSize(ToUnsigned(v)) }

  /** The library's LengthDelimitedSize: a length prefix and that many bytes. */
  function LengthDelimitedSize(size: nat): nat { VarintSize(size) + size }

  function IntFieldSize(v: int64): nat { if v != 0 then 1 + IntSize(v) else 0 }

  function BoolFieldSize(v: bool): nat { if v then 1 + 1 else 0 }

  function BytesFieldSize(s: Bytes): nat { if |s| > 0 then 1 + LengthDelimitedSize(|s|) else 0 }

  function DoubleFieldSize(bits: Bytes8): nat { if IsZero(bits) then 0 else 1 + 8 }

  function IntOneofSize(v: Option<int32>): nat {
    match v case None => 0 case Some(x) => 1 + IntSize(x)
  }

  function BoolOneofSize(v: Option<bool>): nat {
    match v case None => 0 case Some(_) => 1 + 1
  }

  /** Sum over a repeated message field, without its one-byte tags. */
  function RepeatedSize<T>(size: T -> nat, xs: seq<T>): nat {
    if xs == [] then 0
    else RepeatedSize(size, xs[..|xs| - 1]) + LengthDelimitedSize(size(xs[|xs| - 1]))
  }

  // ---------------------------------------------------------------- merging

  /** Merging overwrites an implicit-presence field only with a value that is not the default. */
  function MergeInt32(x: int32, y: int32): int32 { if y != 0 then y else x }

  function MergeInt64(x: int64, y: int64): int64 { if y != 0 then y else x }

  function MergeBool(x: bool, y: bool): bool { if y then y else x }

  function MergeBytes(x: Bytes, y: Bytes): Bytes { if |y| > 0 then y else x }

  function MergeDouble(x: Bytes8, y: Bytes8): Bytes8 { if IsZero(y) then x else y }

  /** A oneof is overwritten by any member that is present. */
  function MergeOneof<T>(x: Option<T>, y: Option<T>): Option<T> { if y.Some? then y else x }

  // ----------------------------------------------- the last record of a field

  function OrElse<T>(v: Option<T>, x: T): T { if v.Some? then v.value else x }

  function LastInt32(known: Record -> bool, n: nat, rs: seq<Record>): Option<int32> {
    match LastOf(known, n, rs)
    case None => None
    case Some(r) => if r.value.VarintValue? then Some(ToInt32(r.value.v)) else None
  }

  lemma LastInt32Unrolls(known: Record -> bool, n: nat, rs: seq<Record>)
    requires rs != []
    ensures var r := rs[|rs| - 1];
            LastInt32(known, n, rs) == if !(known(r) && r.number == n) then LastInt32(known, n, rs[..|rs| - 1])
                                        else if r.value.VarintValue? then Some(ToInt32(r.value.v)) else None
  {
  }

  function LastInt64(known: Record -> bool, n: nat, rs: seq<Record>): Option<int64> {
    match LastOf(known, n, rs)
    case None => None
    case Some(r) => if r.value.VarintValue? then Some(ToInt64(r.value.v)) else None
  }

  lemma LastInt64Unrolls(known: Record -> bool, n: nat, rs: seq<Record>)
    requires rs != []
    ensures var r := rs[|rs| - 1];
            LastInt64(known, n, rs) == if !(known(r) && r.number == n) then LastInt64(known, n, rs[..|rs| - 1])
                                        else if r.value.VarintValue? then Some(ToInt64(r.value.v)) else None
  {
  }

  function LastBool(known: Record -> bool, n: nat, rs: seq<Record>): Option<bool> {
    match LastOf(known, n, rs)
    case None => None
    case Some(r) => if r.value.VarintValue? then Some(r.value.v != 0) else None
  }

  lemma LastBoolUnrolls(known: Record -> bool, n: nat, rs: seq<Record>)
    requires rs != []
    ensures var r := rs[|rs| - 1];
            LastBool(known, n, rs) == if !(known(r) && r.number == n) then LastBool(known, n, rs[..|rs| - 1])
                                        else if r.value.VarintValue? then Some(r.value.v != 0) else None
  {
  }

  function LastBytes(known: Record -> bool, n: nat, rs: seq<Record>): Option<Bytes> {
    match LastOf(known, n, rs) case None => None case Some(r) => if r.value.LenValue? then Some(r.value.data) else None
  }

  lemma LastBytesUnrolls(known: Record -> bool, n: nat, rs: seq<Record>)
    requires rs != []
    ensures var r := rs[|rs| - 1];
            LastBytes(known, n, rs) == if !(known(r) && r.number == n) then LastBytes(known, n, rs[..|rs| - 1])
                                        else if r.value.LenValue? then Some(r.value.data) else None
  {
  }

  function LastDouble(known: Record -> bool, n: nat, rs: seq<Record>): Option<Bytes8> {
    match LastOf(known, n, rs)
    case None => None
    case Some(r) => if r.value.Fixed64Value? then Some(r.value.bits) else None
  }

  lemma LastDoubleUnrolls(known: Record -> bool, n: nat, rs: seq<Record>)
    requires rs != []
    ensures var r := rs[|rs| - 1];
            LastDouble(known, n, rs) == if !(known(r) && r.number == n) then LastDouble(known, n, rs[..|rs| - 1])
                                        else if r.value.Fixed64Value? then Some(r.value.bits) else None
  {
  }

  predicate EndsInZero(known: Record -> bool, n: nat, rs: seq<Record>) {
    LastDouble(known, n, rs).Some? && IsZero(LastDouble(known, n, rs).value)
  }

  // ------------------------------------------------------ sizes are lengths

  lemma {:induction false} RecordsSizeConcat(xs: seq<Record>, ys: seq<Record>)
    ensures RecordsSize(xs + ys) == RecordsSize(xs) + RecordsSize(ys)
  {
    EncodeConcat(xs, ys);
    RecordsSizeIsLength(xs);
    RecordsSizeIsLength(ys);
    RecordsSizeIsLength(xs + ys);
  }

  lemma OneRecordSize(r: Record)
    requires r.number < 16
    ensures RecordsSize([r]) == 1 + PayloadSize(r.value)
  {
    assert [r][..0] == [];
  }

  lemma IntFieldLength(n: nat, v: int64)
    requires n < 16
    ensures RecordsSize(IntField(n, v)) == IntFieldSize(v)
  {
    OneRecordSize(IntRecord(n, v));
  }

  lemma IntOneofLength(n: nat, v: Option<int32>)
    requires n < 16
    ensures RecordsSize(IntOneof(n, v)) == IntOneofSize(v)
  {
    if v.Some? { OneRecordSize(IntRecord(n, v.value)); }
  }

  lemma BoolFieldLength(n: nat, v: bool)
    requires n < 16
    ensures RecordsSize(BoolField(n, v)) == BoolFieldSize(v)
  {
    OneRecordSize(BoolRecord(n, v));
  }

  lemma BoolOneofLength(n: nat, v: Option<bool>)
    requires n < 16
    ensures RecordsSize(BoolOneof(n, v)) == BoolOneofSize(v)
  {
    if v.Some? { OneRecordSize(BoolRecord(n, v.value)); }
  }

  lemma BytesFieldLength(n: nat, s: Bytes)
    requires n < 16
    ensures RecordsSize(BytesField(n, s)) == BytesFieldSize(s)
  {
    OneRecordSize(BytesRecord(n, s));
  }

  lemma DoubleFieldLength(n: nat, bits: Bytes8)
    requires n < 16
    ensures RecordsSize(DoubleField(n, bits)) == DoubleFieldSize(bits)
  {
    OneRecordSize(Fixed64Record(n, bits));
  }

  lemma {:induction false} RepeatedSizeIsLength<T>(n: nat, bytes: T -> Bytes, size: T -> nat, xs: seq<T>)
    requires n < 16
    requires forall x :: x in xs ==> |bytes(x)| == size(x)
    ensures RecordsSize(MessageFields(n, bytes, xs)) == |xs| + RepeatedSize(size, xs)
  {
    if xs != [] {
      var init, last := xs[..|xs| - 1], xs[|xs| - 1];
      RepeatedSizeIsLength(n, bytes, size, init);
      RecordsSizeConcat(MessageFields(n, bytes, init), [BytesRecord(n, bytes(last))]);
      OneRecordSize(BytesRecord(n, bytes(last)));
    }
  }

  lemma {:induction false} ElementBelowRepeatedSize<T>(size: T -> nat, xs: seq<T>, x: T)
    requires x in xs
    ensures size(x) < RepeatedSize(size, xs)
  {
    var init, last := xs[..|xs| - 1], xs[|xs| - 1];
    if x != last {
      assert x in init;
      ElementBelowRepeatedSize(size, init, x);
    }
  }

  lemma {:induction false} RepeatedSizeGrows<T>(size: T -> nat, xs: seq<T>, i: nat)
    requires i <= |xs|
    ensures RepeatedSize(size, xs[..i]) <= RepeatedSize(size, xs)
    decreases |xs|
  {
    if i < |xs| {
      var init := xs[..|xs| - 1];
      assert init[..i] == xs[..i];
      RepeatedSizeGrows(size, init, i);
    } else {
      assert xs[..i] == xs;
    }
  }

  lemma RepeatedSizePrefix<T>(size: T -> nat, xs: seq<T>, i: nat)
    requires i < |xs|
    ensures RepeatedSize(size, xs[..i + 1]) == RepeatedSize(size, xs[..i]) + LengthDelimitedSize(size(xs[i]))
    ensures RepeatedSize(size, xs[..i + 1]) <= RepeatedSize(size, xs)
  {
    assert xs[..i + 1][..i] == xs[..i];
    RepeatedSizeGrows(size, xs, i + 1);
  }

  lemma MessageFieldsPrefix<T>(n: nat, bytes: T -> Bytes, xs: seq<T>, i: nat)
    requires i < |xs|
    ensures MessageFields(n, bytes, xs[..i + 1]) == MessageFields(n, bytes, xs[..i]) + [BytesRecord(n, bytes(xs[i]))]
  {
    assert xs[..i + 1][..i] == xs[..i];
  }

  lemma SmallSizeIsCached(size: nat)
    requires size <= INT_MAX
    ensures ToCachedSize(size) == size
  {
  }

  // ------------------------------------------------------- folding one field

  lemma Rejoined<T>(xs: seq<T>, ys: seq<T>)
    requires ys != []
    ensures (xs + ys[..|ys| - 1]) + [ys[|ys| - 1]] == xs + ys && ys[..|ys|] == ys
  {
  }

  lemma FoldIntField<M>(step: (M, Record) -> Option<M>, m: M, n: nat, v: int64)
    ensures Fold(step, m, IntField(n, v)) == if v != 0 then step(m, IntRecord(n, v)) else Some(m)
  {
    FoldAtMostOne(step, m, v != 0, IntRecord(n, v));
  }

  lemma FoldBoolField<M>(step: (M, Record) -> Option<M>, m: M, n: nat, v: bool)
    ensures Fold(step, m, BoolField(n, v)) == if v then step(m, BoolRecord(n, v)) else Some(m)
  {
    FoldAtMostOne(step, m, v, BoolRecord(n, v));
  }

  lemma FoldBytesField<M>(step: (M, Record) -> Option<M>, m: M, n: nat, s: Bytes)
    ensures Fold(step, m, BytesField(n, s)) == if |s| > 0 then step(m, BytesRecord(n, s)) else Some(m)
  {
    FoldAtMostOne(step, m, |s| > 0, BytesRecord(n, s));
  }

  lemma FoldDoubleField<M>(step: (M, Record) -> Option<M>, m: M, n: nat, bits: Bytes8)
    ensures Fold(step, m, DoubleField(n, bits))
         == if IsZero(bits) then Some(m) else step(m, Fixed64Record(n, bits))
  {
    FoldAtMostOne(step, m, !IsZero(bits), Fixed64Record(n, bits));
  }

  lemma FoldIntOneof<M>(step: (M, Record) -> Option<M>, m: M, n: nat, v: Option<int32>)
    ensures Fold(step, m, IntOneof(n, v)) == if v.Some? then step(m, IntRecord(n, v.value)) else Some(m)
  {
    if v.Some? { FoldOne(step, m, IntRecord(n, v.value)); }
  }

  lemma FoldBoolOneof<M>(step: (M, Record) -> Option<M>, m: M, n: nat, v: Option<bool>)
    ensures Fold(step, m, BoolOneof(n, v)) == if v.Some? then step(m, BoolRecord(n, v.value)) else Some(m)
  {
    if v.Some? { FoldOne(step, m, BoolRecord(n, v.value)); }
  }

  // ------------------------------------------------- the records of one field

  lemma IntFieldKnown(known: Record -> bool, n: nat, v: int64)
    requires 1 <= n < 16 && known(IntRecord(n, v))
    ensures AllKnown(known, IntField(n, v))
  {
  }

  lemma BoolFieldKnown(known: Record -> bool, n: nat, v: bool)
    requires 1 <= n < 16 && known(BoolRecord(n, v))
    ensures AllKnown(known, BoolField(n, v))
  {
  }

  lemma BytesFieldKnown(known: Record -> bool, n: nat, s: Bytes)
    requires 1 <= n < 16 && known(BytesRecord(n, s))
    ensures AllKnown(known, BytesField(n, s))
  {
  }

  lemma DoubleFieldKnown(known: Record -> bool, n: nat, bits: Bytes8)
    requires 1 <= n < 16 && known(Fixed64Record(n, bits))
    ensures AllKnown(known, DoubleField(n, bits))
  {
  }

  lemma IntOneofKnown(known: Record -> bool, n: nat, v: Option<int32>)
    requires 1 <= n < 16 && (v.Some? ==> known(IntRecord(n, v.value)))
    ensures AllKnown(known, IntOneof(n, v))
  {
  }

  lemma BoolOneofKnown(known: Record -> bool, n: nat, v: Option<bool>)
    requires 1 <= n < 16 && (v.Some? ==> known(BoolRecord(n, v.value)))
    ensures AllKnown(known, BoolOneof(n, v))
  {
  }

  lemma {:induction false} MessageFieldsKnown<T>(known: Record -> bool, n: nat, bytes: T -> Bytes, xs: seq<T>)
    requires 1 <= n < 16 && forall x :: x in xs ==> known(BytesRecord(n, bytes(x)))
    ensures AllKnown(known, MessageFields(n, bytes, xs))
  {
    if xs != [] { MessageFieldsKnown(known, n, bytes, xs[..|xs| - 1]); }
  }

  /** Records that encode into an int's worth of bytes have lengths a parser accepts. */
  lemma {:induction false} SmallRecordsAreValid(rs: seq<Record>)
    requires RecordsSize(rs) <= INT_MAX
    requires forall i :: 0 <= i < |rs| ==> 1 <= rs[i].number < 0x2000_0000
    ensures ValidRecords(rs)
  {
    if rs != [] {
      var init, last := rs[..|rs| - 1], rs[|rs| - 1];
      SmallRecordsAreValid(init);
      assert ValidRecord(last);
      assert rs == init + [last];
    }
  }
}
