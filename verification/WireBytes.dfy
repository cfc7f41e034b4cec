/**
 The wire format said of bytes, as the Protocol Buffers Encoding specification has it, without
 the functions that write and read it: a varint by its continuation bits and the sum of its
 groups, a record by its tag and payload, an input by the records it is cut into. What `Wire`
 writes and accepts is exactly that.
 */
module WireBytes {
  import opened Wire

  // ---------------------------------------------------------------- varints

  /** The seven-bit groups of b as a number, the least significant first. */
  function Groups(b: Bytes): nat {
    if b == [] then 0 else b[0] % 128 + 128 * Groups(b[1..])
  }

  /** Every byte but the last says that another follows. */
  ghost predicate IsVarint(b: Bytes, v: nat) {
    && b != [] && b[|b| - 1] < 128
    && (forall i :: 0 <= i < |b| - 1 ==> b[i] >= 128)
    && Groups(b) == v
  }

  /** What is written for v is its varint without groups of zeros at the end, and nothing else is. */
  lemma {:induction false} VarintExactlyIf(b: Bytes, v: nat)
    ensures b == Varint(v) <==> IsVarint(b, v) && (|b| > 1 ==> b[|b| - 1] != 0)
    decreases v
  {
    VarintIsWritten(v);
    if IsVarint(b, v) && (|b| > 1 ==> b[|b| - 1] != 0) {
      if |b| > 1 {
        FirstGroup(b);
        RestIsVarint(b, v);
        GroupsArePositive(b[1..]);
        VarintExactlyIf(b[1..], v / 128);
        hide IsVarint, Groups;
        assert b == [b[0]] + b[1..];
      } else {
        assert b == [b[0]] && b[1..] == [];
      }
    }
  }

  lemma FirstGroup(b: Bytes)
    requires |b| > 1 && b[0] >= 128
    ensures Groups(b) % 128 + 128 == b[0] && Groups(b) / 128 == Groups(b[1..])
  {
  }

  lemma RestIsVarint(b: Bytes, v: nat)
    requires |b| > 1 && IsVarint(b, v)
    ensures IsVarint(b[1..], v / 128) && b[1..][|b| - 2] == b[|b| - 1]
  {
    FirstGroup(b);
    hide Groups;
    assert forall i :: 0 < i < |b| ==> b[i] == b[1..][i - 1];
  }

  lemma {:induction false} VarintIsWritten(v: nat)
    ensures var b := Varint(v); IsVarint(b, v) && (|b| > 1 ==> b[|b| - 1] != 0)
  {
    if v >= 128 {
      VarintIsWritten(v / 128);
      OneMoreGroup(v % 128, Varint(v / 128), v / 128);
    }
  }

  lemma OneMoreGroup(low: nat, b: Bytes, v: nat)
    requires low < 128 && IsVarint(b, v)
    ensures var b1 := [low + 128] + b; IsVarint(b1, low + 128 * v) && b1[|b1| - 1] == b[|b| - 1]
  {
    var b1: Bytes := [low + 128] + b;
    assert b1[1..] == b;
    assert Groups(b1) == low + 128 * Groups(b);
    hide Groups;
  }

  lemma {:induction false} GroupsArePositive(b: Bytes)
    requires b != [] && 0 < b[|b| - 1] < 128
    ensures Groups(b) > 0
  {
    if |b| > 1 { GroupsArePositive(b[1..]); }
  }

  /** What is read, with at most k bytes looked at: a varint at the start, however long it is written;
      nothing exactly if none of these bytes is the last of one. */
  lemma {:induction false} ReadVarintExactlyIf(b: Bytes, k: nat)
    ensures ReadVarint(b, k) == None <==> forall i :: 0 <= i < |b| && i < k ==> b[i] >= 128
    ensures ReadVarint(b, k).Some? ==>
              var (v, n) := ReadVarint(b, k).value;
              n <= k && IsVarint(b[..n], v)
  {
    if b != [] && k > 0 && b[0] >= 128 {
      ReadVarintExactlyIf(b[1..], k - 1);
      assert forall i :: 0 < i < |b| ==> b[i] == b[1..][i - 1];
      if ReadVarint(b, k).Some? {
        var n := ReadVarint(b, k).value.1;
        assert b[..n][1..] == b[1..][..n - 1];
      }
    } else if b != [] && k > 0 {
      assert b[..1][1..] == [];
    }
  }

  lemma {:induction false} VarintIsRead(b: Bytes, v: nat, rest: Bytes, k: nat)
    requires IsVarint(b, v) && |b| <= k
    ensures ReadVarint(b + rest, k) == Some((v, |b|))
  {
    if |b| > 1 {
      assert (b + rest)[1..] == b[1..] + rest;
      VarintIsRead(b[1..], Groups(b[1..]), rest, k - 1);
    } else {
      assert b[1..] == [] && Groups(b) == b[0];
      assert (b + rest)[0] == b[0];
    }
  }

  /** A negative number is written as what it is congruent to, and a number is read as what it is
      congruent to, for the width of its field. */
  lemma NumbersAreCongruent(x: int64, v: uint64)
    ensures ToUnsigned(x) == x || ToUnsigned(x) == x + 0x1_0000_0000_0000_0000
    ensures ToInt64(v) == v || ToInt64(v) == v - 0x1_0000_0000_0000_0000
    ensures v % 0x1_0000_0000 == ToInt32(v) || v % 0x1_0000_0000 == ToInt32(v) + 0x1_0000_0000
  {
  }

  // ---------------------------------------------------------------- records

  /** A field number and a wire type, in a varint of which 32 bits count. */
  ghost predicate IsTag(b: Bytes, number: nat, wireType: nat) {
    |b| <= 10 && exists t: nat :: IsVarint(b, t) && IsTagValue(t, number, wireType)
  }

  predicate IsTagValue(t: nat, number: nat, wireType: nat) {
    t % 0x1_0000_0000 == 8 * number + wireType && number >= 1 && wireType < 8
  }

  /** A number in a varint of which 64 bits count. */
  ghost predicate IsNumber(b: Bytes, v: nat) {
    |b| <= 10 && exists n: nat :: IsVarint(b, n) && n % 0x1_0000_0000_0000_0000 == v
  }

  /** A payload of the given wire type. */
  ghost predicate IsPayload(b: Bytes, wireType: nat, w: WireValue) {
    match w
    case VarintValue(v) => wireType == 0 && IsNumber(b, v)
    case Fixed64Value(bits) => wireType == 1 && b == bits
    case LenValue(data) =>
      && wireType == 2 && |data| < 0x8000_0000 && |data| <= |b|
      && b[|b| - |data|..] == data && IsNumber(b[..|b| - |data|], |data|)
    case Fixed32Value(bits4) => wireType == 5 && b == bits4
  }

  /** The bytes of b up to n are the tag of r, those after n its payload. */
  ghost predicate IsRecordAt(b: Bytes, r: Record, wireType: nat, n: nat) {
    n <= |b| && IsTag(b[..n], r.number, wireType) && IsPayload(b[n..], wireType, r.value)
  }

  ghost predicate IsRecord(b: Bytes, r: Record) {
    exists wireType: nat, n: nat :: IsRecordAt(b, r, wireType, n)
  }

  lemma TagIsRead(b: Bytes, number: nat, wireType: nat, rest: Bytes)
    requires IsTag(b, number, wireType)
    ensures ReadTag(b + rest) == Some((8 * number + wireType, |b|))
  {
    var t: nat :| IsVarint(b, t) && IsTagValue(t, number, wireType);
    VarintIsRead(b, t, rest, 10);
  }

  lemma NumberIsRead(b: Bytes, v: nat, rest: Bytes)
    requires IsNumber(b, v)
    ensures v < TWO64 && ReadVarint64(b + rest) == Some((v, |b|))
  {
    var n: nat :| IsVarint(b, n) && n % 0x1_0000_0000_0000_0000 == v;
    VarintIsRead(b, n, rest, 10);
  }

  lemma PayloadIsRead(b: Bytes, wireType: nat, w: WireValue, rest: Bytes)
    requires IsPayload(b, wireType, w)
    ensures ReadPayload(wireType, b + rest) == Some((w, |b|))
  {
    match w {
      case VarintValue(v) => NumberIsRead(b, v, rest);
      case Fixed64Value(bits) => assert (b + rest)[..8] == bits;
      case LenValue(data) =>
        var n := |b| - |data|;
        NumberIsRead(b[..n], |data|, data + rest);
        assert b + rest == b[..n] + (data + rest);
        assert (b + rest)[n..n + |data|] == data;
      case Fixed32Value(bits4) => assert (b + rest)[..4] == bits4;
    }
  }

  lemma NumberWasRead(b: Bytes)
    requires ReadVarint64(b).Some?
    ensures IsNumber(b[..ReadVarint64(b).value.1], ReadVarint64(b).value.0)
  {
    ReadVarintExactlyIf(b, 10);
    var (v, n) := ReadVarint(b, 10).value;
    assert IsVarint(b[..n], v);
  }

  lemma PayloadWasRead(wireType: nat, b: Bytes)
    requires ReadPayload(wireType, b).Some?
    ensures var (w, k) := ReadPayload(wireType, b).value; IsPayload(b[..k], wireType, w)
  {
    if wireType == 0 { NumberWasRead(b); }
    if wireType == 2 {
      NumberWasRead(b);
      var (len, n) := ReadVarint64(b).value;
      assert b[..n + len][..n] == b[..n] && b[..n + len][n..] == b[n..n + len];
    }
  }

  lemma TagWasRead(b: Bytes)
    requires ReadTag(b).Some? && ReadTag(b).value.0 / 8 >= 1
    ensures var (tag, n) := ReadTag(b).value; IsTag(b[..n], tag / 8, tag % 8)
  {
    ReadVarintExactlyIf(b, 10);
    var (v, n) := ReadVarint(b, 10).value;
    hide IsVarint, ReadVarint;
    EightTimes(v % TWO32);
    assert IsVarint(b[..n], v) && IsTagValue(v, v % TWO32 / 8, v % TWO32 % 8);
  }

  lemma EightTimes(t: nat)
    ensures t == 8 * (t / 8) + t % 8
  {
  }

  /** The record at the start of b is r, n bytes long, exactly if those bytes are r. */
  lemma ReadsExactlyIf(b: Bytes, r: Record, n: nat)
    requires n <= |b|
    ensures ReadRecord(b) == Some((r, n)) <==> IsRecord(b[..n], r)
  {
    if IsRecord(b[..n], r) {
      var wireType: nat, k: nat :| IsRecordAt(b[..n], r, wireType, k);
      RecordIsRead(b[..n], r, wireType, k, b[n..]);
      assert b == b[..n] + b[n..];
    }
    if ReadRecord(b) == Some((r, n)) { RecordWasRead(b); }
  }

  lemma RecordIsRead(b: Bytes, r: Record, wireType: nat, n: nat, rest: Bytes)
    requires IsRecordAt(b, r, wireType, n)
    ensures ReadRecord(b + rest) == Some((r, |b|))
  {
    TagIsRead(b[..n], r.number, wireType, b[n..] + rest);
    PayloadIsRead(b[n..], wireType, r.value, rest);
    hide ReadTag, ReadPayload, IsTag, IsPayload;
    CutAt(b, n, rest);
    var tag := 8 * r.number + wireType;
    assert tag / 8 == r.number && tag % 8 == wireType;
  }

  lemma CutAt(b: Bytes, n: nat, rest: Bytes)
    requires n <= |b|
    ensures b + rest == b[..n] + (b[n..] + rest) && (b + rest)[n..] == b[n..] + rest
  {
  }

  lemma RecordWasRead(b: Bytes)
    requires ReadRecord(b).Some?
    ensures var (r, n) := ReadRecord(b).value; IsRecord(b[..n], r)
  {
    var (tag, n) := ReadTag(b).value;
    var (r, k) := ReadAfterTag(tag, b[n..]).value;
    TagWasRead(b);
    PayloadWasRead(tag % 8, b[n..]);
    hide ReadTag, ReadPayload, IsTag, IsPayload;
    CutOf(b, n, k);
    assert IsRecordAt(b[..n + k], r, tag % 8, n);
  }

  lemma CutOf(b: Bytes, n: nat, k: nat)
    requires n + k <= |b|
    ensures b[..n + k][..n] == b[..n] && b[..n + k][n..] == b[n..][..k]
  {
  }

  /** The input b can be cut into the records rs. */
  ghost predicate IsCut(b: Bytes, rs: seq<Record>)
    decreases |rs|
  {
    if rs == [] then b == []
    else exists n: nat :: n <= |b| && IsRecord(b[..n], rs[0]) && IsCut(b[n..], rs[1..])
  }

  /** An input splits into rs exactly if it can be cut into rs, so that there is no other way to cut it. */
  lemma {:induction false} SplitsExactlyIf(b: Bytes, rs: seq<Record>)
    ensures DecodeRecords(b) == Some(rs) <==> IsCut(b, rs)
    decreases |rs|
  {
    hide ReadRecord, IsRecord;
    if IsCut(b, rs) && rs != [] {
      var n: nat :| n <= |b| && IsRecord(b[..n], rs[0]) && IsCut(b[n..], rs[1..]);
      ReadsExactlyIf(b, rs[0], n);
      SplitsExactlyIf(b[n..], rs[1..]);
      assert [rs[0]] + rs[1..] == rs;
    }
    if DecodeRecords(b) == Some(rs) && b != [] {
      var (r, n) := ReadRecord(b).value;
      ReadsExactlyIf(b, r, n);
      assert rs == [r] + DecodeRecords(b[n..]).value;
      SplitsExactlyIf(b[n..], rs[1..]);
    }
  }

  /** A record is written as itself, its tag and its length as short as they can be. */
  lemma RecordIsWritten(r: Record) returns (tag: Bytes, payload: Bytes)
    ensures EncodeRecord(r) == tag + payload
    ensures match r.value
            case VarintValue(v) => tag == Varint(8 * r.number + 0) && payload == Varint(v)
            case Fixed64Value(bits) => tag == Varint(8 * r.number + 1) && payload == bits
            case LenValue(data) => tag == Varint(8 * r.number + 2) && payload == Varint(|data|) + data
            case Fixed32Value(bits4) => tag == Varint(8 * r.number + 5) && payload == bits4
  {
    tag, payload := Varint(8 * r.number + WireType(r.value)), EncodePayload(r.value);
  }

  // ------------------------------------------------------------- the lengths

  /** Any string shorter than two gigabytes can be a payload. */
  lemma LengthsThatDecode(number: nat, data: Bytes)
    requires 1 <= number <= 0x1FFF_FFFF
    ensures |data| < 0x8000_0000 ==>
              DecodeRecords(Varint(8 * number + 2) + Varint(|data|) + data) == Some([Record(number, LenValue(data))])
  {
    var r := Record(number, LenValue(data));
    if |data| < 0x8000_0000 {
      DecodeOne(r);
      ConcatAssociates(Varint(8 * number + 2), Varint(|data|), data);
    }
  }

  /** No longer length is accepted, whatever follows, and none that is longer than what follows. */
  lemma LengthsThatDoNot(tag: Bytes, number: nat, length: Bytes, n: nat, rest: Bytes)
    requires IsTag(tag, number, 2) && IsNumber(length, n)
    ensures n >= 0x8000_0000 || n > |rest| ==> DecodeRecords(tag + length + rest) == None
  {
    TagIsRead(tag, number, 2, length + rest);
    ConcatAssociates(tag, length, rest);
    var tail := length + rest;
    assert tag != [] && (tag + tail)[|tag|..] == tail;
    if n >= 0x8000_0000 || n > |rest| {
      TooLong(length, n, rest);
      hide *;
      NoPayload(tag + tail, number, |tag|);
    }
  }

  lemma TooLong(length: Bytes, n: nat, rest: Bytes)
    requires IsNumber(length, n) && (n >= 0x8000_0000 || n > |rest|)
    ensures ReadPayload(2, length + rest) == None
  {
    NumberIsRead(length, n, rest);
    hide IsNumber, ReadVarint64;
  }

  lemma NoPayload(b: Bytes, number: nat, n: nat)
    requires n <= |b| && b != [] && ReadTag(b) == Some((8 * number + 2, n)) && ReadPayload(2, b[n..]) == None
    ensures DecodeRecords(b) == None
  {
    hide ReadTag, ReadPayload;
    assert (8 * number + 2) % 8 == 2;
  }
}
