/**
 The wire format under every message: base-128 varints, tags, length-delimited
 payloads and the split of a byte string into records, as the Protocol Buffers
 Encoding specification gives them ("Base 128 Varints", "Message Structure",
 "Length-Delimited Records"), and UTF-8 as section 4 of RFC 3629 gives it.
 */
module Wire {

  datatype Option<+T> = None | Some(value: T)

  const TWO32: int := 0x1_0000_0000
  const TWO64: int := 0x1_0000_0000_0000_0000
  const INT_MAX: int := 0x7FFF_FFFF
  const MAX_VARINT_BYTES: nat := 10

  type byte = x: int | 0 <= x < 256
  type int32 = x: int | -0x8000_0000 <= x < 0x8000_0000
  type int64 = x: int | -0x8000_0000_0000_0000 <= x < 0x8000_0000_0000_0000
  type uint64 = x: int | 0 <= x < 0x1_0000_0000_0000_0000
  type Bytes = seq<byte>
  type Bytes4 = b: Bytes | |b| == 4 witness [0, 0, 0, 0]
  type Bytes8 = b: Bytes | |b| == 8 witness [0, 0, 0, 0, 0, 0, 0, 0]

  // ---------------------------------------------------------------- varints

  function Varint(v: nat): (b: Bytes)
    ensures |b| >= 1
  {
    if v < 128 then [v] else [v % 128 + 128] + Varint(v / 128)
  }

  /** Number of seven-bit groups of v: the library's VarintSize. */
  function VarintSize(v: nat): (n: nat)
    ensures n >= 1
  {
    if v < 128 then 1 else 1 + VarintSize(v / 128)
  }

  /** Value and byte count of the varint at the start of b, at most k bytes long. */
  function ReadVarint(b: Bytes, k: nat): (r: Option<(nat, nat)>)
    ensures r.Some? ==> 1 <= r.value.1 <= |b|
  {
    if b == [] || k == 0 then None
    else if b[0] < 128 then Some((b[0], 1))
    else
      match ReadVarint(b[1..], k - 1)
      case None => None
      case Some((v, n)) => Some((b[0] - 128 + 128 * v, n + 1))
  }

  /** A 64-bit varint: high-order bits that do not fit are dropped. */
  function ReadVarint64(b: Bytes): (r: Option<(uint64, nat)>)
    ensures r.Some? ==> 1 <= r.value.1 <= |b|
  {
    match ReadVarint(b, MAX_VARINT_BYTES)
    case None => None
    case Some((v, n)) => Some((v % TWO64, n))
  }

  function Pow128(k: nat): nat {
    if k == 0 then 1 else 128 * Pow128(k - 1)
  }

  lemma {:induction false} VarintSizeIsLength(v: nat)
    ensures |Varint(v)| == VarintSize(v)
  {
    if v >= 128 { VarintSizeIsLength(v / 128); }
  }

  lemma {:induction false} ReadVarintInverts(v: nat, k: nat, rest: Bytes)
    requires k >= 1 && v < Pow128(k)
    ensures ReadVarint(Varint(v) + rest, k) == Some((v, |Varint(v)|))
  {
    var b := Varint(v) + rest;
    if v >= 128 {
      assert b[1..] == Varint(v / 128) + rest;
      ReadVarintInverts(v / 128, k - 1, rest);
      assert b[0] == v % 128 + 128;
    } else {
      assert b[0] == v;
    }
  }

  lemma ReadVarint64Inverts(v: uint64, rest: Bytes)
    ensures ReadVarint64(Varint(v) + rest) == Some((v, |Varint(v)|))
  {
    assert Pow128(10) == 128 * 128 * 128 * 128 * 128 * 128 * 128 * 128 * 128 * 128;
    ReadVarintInverts(v, MAX_VARINT_BYTES, rest);
  }

  lemma {:induction false} ReadVarintExtends(b: Bytes, k: nat, c: Bytes)
    requires ReadVarint(b, k).Some?
    ensures ReadVarint(b + c, k) == ReadVarint(b, k)
  {
    if b[0] >= 128 {
      assert (b + c)[1..] == b[1..] + c;
      ReadVarintExtends(b[1..], k - 1, c);
    }
  }

  // ------------------------------------------------- integers in varint form

  /** int64 and sign-extended int32 and enum values as 64-bit varints. */
  function ToUnsigned(v: int64): uint64 {
    if v < 0 then v + TWO64 else v
  }

  function ToInt64(v: uint64): int64 {
    if v < 0x8000_0000_0000_0000 then v else v - TWO64
  }

  /** The low 32 bits, read as a signed number: int32 and open enums. */
  function ToInt32(v: uint64): int32 {
    var low := v % TWO32;
    if low < 0x8000_0000 then low else low - TWO32
  }

  /** The size of a message as an int, as the generated code caches it. */
  function ToCachedSize(size: nat): int32 {
    ToInt32(size % TWO64)
  }

  lemma Int64Inverts(v: int64)
    ensures ToInt64(ToUnsigned(v)) == v
  {
  }

  lemma Int32Inverts(v: int32)
    ensures ToInt32(ToUnsigned(v)) == v
  {
    if v < 0 {
      assert ToUnsigned(v) == (TWO32 - 1) * TWO32 + (v + TWO32);
    }
  }

  lemma {:induction false} VarintSizeBetween(v: nat, k: nat)
    requires Pow128(k) <= v < Pow128(k + 1)
    ensures VarintSize(v) == k + 1
  {
    if k > 0 { VarintSizeBetween(v / 128, k - 1); }
  }

  lemma NegativeIntsTakeTenBytes(v: int64)
    requires v < 0
    ensures VarintSize(ToUnsigned(v)) == 10
  {
    assert Pow128(9) == 128 * 128 * 128 * 128 * 128 * 128 * 128 * 128 * 128;
    VarintSizeBetween(ToUnsigned(v), 9);
  }

  // ---------------------------------------------------------------- records

  datatype WireValue =
    | VarintValue(v: uint64)
    | Fixed64Value(bits: Bytes8)
    | LenValue(data: Bytes)
    | Fixed32Value(bits4: Bytes4)

  datatype Record = Record(number: nat, value: WireValue)

  function WireType(w: WireValue): nat {
    match w
    case VarintValue(_) => 0
    case Fixed64Value(_) => 1
    case LenValue(_) => 2
    case Fixed32Value(_) => 5
  }

  predicate ValidRecord(r: Record) {
    && 1 <= r.number < 0x2000_0000
    && (r.value.LenValue? ==> |r.value.data| <= INT_MAX)
  }

  predicate ValidRecords(rs: seq<Record>) {
    forall i :: 0 <= i < |rs| ==> ValidRecord(rs[i])
  }

  function EncodePayload(w: WireValue): Bytes {
    match w
    case VarintValue(v) => Varint(v)
    case Fixed64Value(bits) => bits
    case LenValue(data) => Varint(|data|) + data
    case Fixed32Value(bits4) => bits4
  }

  function EncodeRecord(r: Record): Bytes {
    Varint(r.number * 8 + WireType(r.value)) + EncodePayload(r.value)
  }

  function EncodeRecords(rs: seq<Record>): Bytes {
    if rs == [] then []
    else EncodeRecords(rs[..|rs| - 1]) + EncodeRecord(rs[|rs| - 1])
  }

  function PayloadSize(w: WireValue): nat {
    match w
    case VarintValue(v) => VarintSize(v)
    case Fixed64Value(_) => 8
    case LenValue(data) => VarintSize(|data|) + |data|
    case Fixed32Value(_) => 4
  }

  function RecordSize(r: Record): nat {
    VarintSize(r.number * 8 + WireType(r.value)) + PayloadSize(r.value)
  }

  /** The library's ComputeUnknownFieldsSize: one record after another. */
  function RecordsSize(rs: seq<Record>): nat {
    if rs == [] then 0 else RecordsSize(rs[..|rs| - 1]) + RecordSize(rs[|rs| - 1])
  }

  lemma NoRecordsSize(rs: seq<Record>)
    ensures rs == [] ==> RecordsSize(rs) == 0
  {
  }

  /** A tag is a 32-bit varint. */
  function ReadTag(b: Bytes): (r: Option<(nat, nat)>)
    ensures r.Some? ==> 1 <= r.value.1 <= |b| && r.value.0 < TWO32
  {
    match ReadVarint(b, MAX_VARINT_BYTES)
    case None => None
    case Some((v, n)) => Some((v % TWO32, n))
  }

  /** A payload of the given wire type. Groups (3 and 4) and 6 and 7 are malformed here. */
  function ReadPayload(wireType: nat, b: Bytes): (r: Option<(WireValue, nat)>)
    ensures r.Some? ==> 1 <= r.value.1 <= |b| && WireType(r.value.0) == wireType
  {
    if wireType == 0 then
      match ReadVarint64(b)
      case None => None
      case Some((v, n)) => Some((VarintValue(v), n))
    else if wireType == 1 then
      if |b| < 8 then None else Some((Fixed64Value(b[..8]), 8))
    else if wireType == 2 then
      match ReadVarint64(b)
      case None => None
      case Some((len, n)) =>
        if len > INT_MAX || n + len > |b| then None
        else Some((LenValue(b[n..n + len]), n + len))
    else if wireType == 5 then
      if |b| < 4 then None else Some((Fixed32Value(b[..4]), 4))
    else None
  }

  /** The record whose tag was just read. */
  function ReadAfterTag(tag: nat, b: Bytes): (r: Option<(Record, nat)>)
    requires tag < TWO32
    ensures r.Some? ==> 1 <= r.value.1 <= |b| && ValidRecord(r.value.0)
  {
    if tag / 8 == 0 then None
    else
      match ReadPayload(tag % 8, b)
      case None => None
      case Some((w, k)) => Some((Record(tag / 8, w), k))
  }

  /** The record at the start of b. Field number 0 is malformed. */
  function ReadRecord(b: Bytes): (r: Option<(Record, nat)>)
    ensures r.Some? ==> 2 <= r.value.1 <= |b| && ValidRecord(r.value.0)
  {
    match ReadTag(b)
    case None => None
    case Some((tag, n)) =>
      match ReadAfterTag(tag, b[n..])
      case None => None
      case Some((r, k)) => Some((r, n + k))
  }

  /** The records b splits into, if it splits into records. */
  function DecodeRecords(b: Bytes): (r: Option<seq<Record>>)
    decreases |b|
  {
    if b == [] then Some([])
    else
      match ReadRecord(b)
      case None => None
      case Some((r, n)) =>
        match DecodeRecords(b[n..])
        case None => None
        case Some(rs) => Some([r] + rs)
  }

  // ------------------------------------------------------- laws of the split

  lemma RecordSizeIsLength(r: Record)
    ensures |EncodeRecord(r)| == RecordSize(r)
  {
    VarintSizeIsLength(r.number * 8 + WireType(r.value));
    match r.value {
      case VarintValue(v) => VarintSizeIsLength(v);
      case LenValue(data) => VarintSizeIsLength(|data|);
      case _ =>
    }
  }

  lemma {:induction false} RecordsSizeIsLength(rs: seq<Record>)
    ensures |EncodeRecords(rs)| == RecordsSize(rs)
  {
    if rs != [] {
      RecordsSizeIsLength(rs[..|rs| - 1]);
      RecordSizeIsLength(rs[|rs| - 1]);
    }
  }

  lemma ConcatAssociates(a: Bytes, b: Bytes, c: Bytes)
    ensures (a + b) + c == a + (b + c)
  {
  }

  lemma SliceOfSlice(b: Bytes, lo: nat, hi: nat, i: nat, j: nat)
    requires lo <= hi <= |b| && i <= j <= hi - lo
    ensures b[lo..hi][i..j] == b[lo + i..lo + j]
  {
    var s, t := b[lo..hi][i..j], b[lo + i..lo + j];
    assert forall k :: 0 <= k < j - i ==> s[k] == b[lo + i + k] == t[k];
  }

  lemma {:induction false} EncodeConcat(xs: seq<Record>, ys: seq<Record>)
    ensures EncodeRecords(xs + ys) == EncodeRecords(xs) + EncodeRecords(ys)
  {
    if ys == [] {
      assert xs + ys == xs;
    } else {
      var init, last := ys[..|ys| - 1], ys[|ys| - 1];
      assert (xs + ys)[..|xs + ys| - 1] == xs + init && (xs + ys)[|xs + ys| - 1] == last;
      EncodeConcat(xs, init);
      ConcatAssociates(EncodeRecords(xs), EncodeRecords(init), EncodeRecord(last));
    }
  }

  lemma ReadPayloadInverts(w: WireValue, rest: Bytes)
    requires w.LenValue? ==> |w.data| <= INT_MAX
    ensures ReadPayload(WireType(w), EncodePayload(w) + rest) == Some((w, |EncodePayload(w)|))
  {
    match w {
      case VarintValue(v) => ReadVarint64Inverts(v, rest);
      case Fixed64Value(bits) => assert (bits + rest)[..8] == bits;
      case LenValue(data) =>
        ReadVarint64Inverts(|data|, data + rest);
        var n := |Varint(|data|)|;
        var b := EncodePayload(w) + rest;
        assert b == Varint(|data|) + (data + rest);
        assert b[n..n + |data|] == data;
      case Fixed32Value(bits4) => assert (bits4 + rest)[..4] == bits4;
    }
  }

  lemma ReadTagInverts(tag: nat, rest: Bytes)
    requires tag < TWO32
    ensures ReadTag(Varint(tag) + rest) == Some((tag, |Varint(tag)|))
  {
    assert Pow128(10) == 128 * 128 * 128 * 128 * 128 * 128 * 128 * 128 * 128 * 128;
    ReadVarintInverts(tag, MAX_VARINT_BYTES, rest);
  }

  lemma ReadRecordInverts(r: Record, rest: Bytes)
    requires ValidRecord(r)
    ensures ReadRecord(EncodeRecord(r) + rest) == Some((r, |EncodeRecord(r)|))
  {
    var tag := r.number * 8 + WireType(r.value);
    var head, payload := Varint(tag), EncodePayload(r.value);
    ConcatAssociates(head, payload, rest);
    ReadTagInverts(tag, payload + rest);
    assert (head + (payload + rest))[|head|..] == payload + rest;
    ReadPayloadInverts(r.value, rest);
    assert tag / 8 == r.number && tag % 8 == WireType(r.value);
  }

  lemma ReadPayloadExtends(wireType: nat, b: Bytes, c: Bytes)
    requires ReadPayload(wireType, b).Some?
    ensures ReadPayload(wireType, b + c) == ReadPayload(wireType, b)
  {
    if wireType == 0 || wireType == 2 {
      ReadVarintExtends(b, MAX_VARINT_BYTES, c);
    }
    if wireType == 2 {
      var (len, n) := ReadVarint64(b).value;
      assert (b + c)[n..n + len] == b[n..n + len];
    }
    if wireType == 1 { assert (b + c)[..8] == b[..8]; }
    if wireType == 5 { assert (b + c)[..4] == b[..4]; }
  }

  lemma ReadRecordExtends(b: Bytes, c: Bytes)
    requires ReadRecord(b).Some?
    ensures ReadRecord(b + c) == ReadRecord(b)
  {
    ReadVarintExtends(b, MAX_VARINT_BYTES, c);
    var (tag, n) := ReadTag(b).value;
    assert (b + c)[n..] == b[n..] + c;
    ReadPayloadExtends(tag % 8, b[n..], c);
  }

  lemma {:induction false} DecodeUnrolls(b: Bytes)
    requires b != []
    ensures DecodeRecords(b) == match ReadRecord(b)
                                case None => None
                                case Some((r, n)) => Prepend(r, DecodeRecords(b[n..]))
  {
  }

  function Prepend(r: Record, rs: Option<seq<Record>>): Option<seq<Record>> {
    match rs case None => None case Some(s) => Some([r] + s)
  }

  function Joined(xs: seq<Record>, ys: Option<seq<Record>>): Option<seq<Record>> {
    match ys case None => None case Some(s) => Some(xs + s)
  }

  lemma PrependJoined(r: Record, xs: seq<Record>, ys: Option<seq<Record>>)
    ensures Prepend(r, Joined(xs, ys)) == Joined([r] + xs, ys)
  {
    if ys.Some? { assert [r] + (xs + ys.value) == ([r] + xs) + ys.value; }
  }

  lemma JoinedNothing(ys: Option<seq<Record>>)
    ensures Joined([], ys) == ys
  {
    if ys.Some? { assert [] + ys.value == ys.value; }
  }

  /** Splitting a concatenation: the records of the first part, then those of the second. */
  lemma {:induction false} DecodeConcat(a: Bytes, c: Bytes)
    requires DecodeRecords(a).Some?
    ensures DecodeRecords(a + c) == Joined(DecodeRecords(a).value, DecodeRecords(c))
    decreases |a|
  {
    if a == [] {
      assert a + c == c;
      JoinedNothing(DecodeRecords(c));
    } else {
      DecodeUnrolls(a);
      DecodeUnrolls(a + c);
      hide DecodeRecords, ReadRecord, Joined;
      var (r, n) := ReadRecord(a).value;
      ReadRecordExtends(a, c);
      assert (a + c)[n..] == a[n..] + c;
      DecodeConcat(a[n..], c);
      PrependJoined(r, DecodeRecords(a[n..]).value, DecodeRecords(c));
    }
  }

  lemma DecodeOne(r: Record)
    requires ValidRecord(r)
    ensures DecodeRecords(EncodeRecord(r)) == Some([r])
  {
    var b := EncodeRecord(r);
    ReadRecordInverts(r, []);
    assert b + [] == b;
    assert b[|b|..] == [];
    assert [r] + [] == [r];
  }

  lemma DecodeLast(init: seq<Record>, last: Record)
    requires ValidRecord(last) && DecodeRecords(EncodeRecords(init)) == Some(init)
    ensures DecodeRecords(EncodeRecords(init) + EncodeRecord(last)) == Some(init + [last])
  {
    DecodeOne(last);
    hide DecodeRecords, EncodeRecord, EncodeRecords;
    DecodeConcat(EncodeRecords(init), EncodeRecord(last));
  }

  lemma EncodeUnrolls(rs: seq<Record>)
    requires rs != []
    ensures EncodeRecords(rs) == EncodeRecords(rs[..|rs| - 1]) + EncodeRecord(rs[|rs| - 1])
  {
  }

  lemma DecodeNothing()
    ensures DecodeRecords(EncodeRecords([])) == Some([])
  {
  }

  /** Splitting what was encoded gives back the records. */
  lemma {:induction false} DecodeInverts(rs: seq<Record>)
    requires ValidRecords(rs)
    ensures DecodeRecords(EncodeRecords(rs)) == Some(rs)
  {
    hide DecodeRecords, EncodeRecord, EncodeRecords, ValidRecord;
    if rs == [] {
      DecodeNothing();
    } else {
      var init, last := rs[..|rs| - 1], rs[|rs| - 1];
      EncodeUnrolls(rs);
      DecodeInverts(init);
      DecodeLast(init, last);
      assert rs == init + [last];
    }
  }

  /** Each record takes at least two bytes and its payload is strictly shorter than the input:
      a parse loop makes progress and a sub-message is parsed in a strictly smaller window. */
  lemma {:induction false} SplitIsBounded(b: Bytes)
    requires DecodeRecords(b).Some?
    ensures 2 * |DecodeRecords(b).value| <= |b|
    ensures ValidRecords(DecodeRecords(b).value)
    ensures forall r :: r in DecodeRecords(b).value && r.value.LenValue? ==> |r.value.data| + 2 <= |b|
    decreases |b|
  {
    if b != [] {
      var (r, n) := ReadRecord(b).value;
      SplitIsBounded(b[n..]);
    }
  }

  // ------------------------------------------------------------------ UTF-8

  predicate Tail(b: byte) { 0x80 <= b <= 0xBF }

  /** Length of the UTF-8 character at the start of s, or 0 if there is none. */
  function Utf8CharLength(s: Bytes): (n: nat)
    ensures n <= |s|
  {
    if |s| >= 1 && s[0] <= 0x7F then 1
    else if |s| >= 2 && 0xC2 <= s[0] <= 0xDF && Tail(s[1]) then 2
    else if |s| >= 3 && s[0] == 0xE0 && 0xA0 <= s[1] <= 0xBF && Tail(s[2]) then 3
    else if |s| >= 3 && (0xE1 <= s[0] <= 0xEC || 0xEE <= s[0] <= 0xEF) && Tail(s[1]) && Tail(s[2]) then 3
    else if |s| >= 3 && s[0] == 0xED && 0x80 <= s[1] <= 0x9F && Tail(s[2]) then 3
    else if |s| >= 4 && s[0] == 0xF0 && 0x90 <= s[1] <= 0xBF && Tail(s[2]) && Tail(s[3]) then 4
    else if |s| >= 4 && 0xF1 <= s[0] <= 0xF3 && Tail(s[1]) && Tail(s[2]) && Tail(s[3]) then 4
    else if |s| >= 4 && s[0] == 0xF4 && 0x80 <= s[1] <= 0x8F && Tail(s[2]) && Tail(s[3]) then 4
    else 0
  }

  predicate ValidUtf8(s: Bytes)
    decreases |s|
  {
    s == [] || (Utf8CharLength(s) > 0 && ValidUtf8(s[Utf8CharLength(s)..]))
  }
}
