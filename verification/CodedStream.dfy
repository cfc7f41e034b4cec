/**
 The library's streams, as far as the generated code sees them: an input cursor inside a
 limit, an output stream with a direct buffer, and writers into a byte array. Each
 primitive is specified by the pure reading and encoding functions of Wire.
 */
module CodedStream {
  import opened Wire
  import opened Fields

  /** A message inside its parent: its members, and the size ByteSizeLong cached for it. */
  datatype Node<V> = Node(contents: V, cachedSize: int32)

  // ------------------------------------------------------------------ input

  class CodedInputStream {
    const data: Bytes
    var pos: nat
    var limit: nat
    var legitimateEnd: bool

    ghost predicate Valid()
      reads this
    {
      pos <= limit <= |data|
    }

    /** The bytes between the cursor and the current limit. */
    ghost function Rest(): Bytes
      reads this
      requires Valid()
    {
      data[pos..limit]
    }

    constructor (data: Bytes)
      ensures Valid() && Rest() == data
    {
      this.data := data;
      pos, limit, legitimateEnd := 0, |data|, false;
    }

    /** Tag 0 stands for the end, for an unreadable tag and for an explicit zero;
        only the first is a legitimate end. */
    method ReadTagWithCutoffNoLastTag(cutoff: nat) returns (tag: nat, known: bool)
      requires Valid()
      modifies this
      ensures Valid() && limit == old(limit)
      ensures known <==> 1 <= tag <= cutoff
      ensures legitimateEnd <==> old(Rest()) == []
      ensures legitimateEnd ==> tag == 0 && Rest() == []
      ensures tag < TWO32
      ensures !legitimateEnd ==>
                match ReadTag(old(Rest()))
                case None => tag == 0
                case Some((t, n)) => tag == t && Rest() == old(Rest())[n..]
    {
      ghost var rest := Rest();
      legitimateEnd := pos == limit;
      tag := 0;
      if pos < limit {
        match ReadTag(data[pos..limit])
        case None =>
        case Some((t, n)) =>
          tag := t;
          pos := pos + n;
          assert Rest() == rest[n..];
      }
      known := 1 <= tag <= cutoff;
    }

    method ReadPayloadOf(wireType: nat) returns (ok: bool, w: WireValue)
      requires Valid()
      modifies this
      ensures Valid() && limit == old(limit)
      ensures match ReadPayload(wireType, old(Rest()))
              case None => !ok
              case Some((v, k)) => ok && w == v && Rest() == old(Rest())[k..]
    {
      ghost var rest := Rest();
      match ReadPayload(wireType, data[pos..limit])
      case None =>
        ok, w := false, VarintValue(0);
      case Some((v, k)) =>
        ok, w := true, v;
        pos := pos + k;
        assert Rest() == rest[k..];
    }

    /** Reads a length and narrows the window to that many bytes. */
    method PushLength() returns (ok: bool, outer: nat)
      requires Valid()
      modifies this
      ensures Valid() && outer == old(limit)
      ensures match ReadPayload(2, old(Rest()))
              case None => !ok && limit == old(limit)
              case Some((w, k)) =>
                && ok && Rest() == w.data
                && limit <= outer <= |data| && data[limit..outer] == old(Rest())[k..]
    {
      ghost var rest := Rest();
      outer := limit;
      match ReadPayload(2, data[pos..limit])
      case None =>
        ok := false;
      case Some((w, k)) =>
        ok := true;
        pos := pos + k - |w.data|;
        limit := pos + |w.data|;
        var n := k - |w.data|;
        assert w.data == rest[n..k];
        SliceOfSlice(data, old(pos), outer, n, k);
        SliceOfSlice(data, old(pos), outer, k, |rest|);
    }

    method PopLimit(outer: nat)
      requires Valid() && limit <= outer <= |data|
      modifies this
      ensures Valid() && limit == outer
      ensures old(Rest()) == [] ==> Rest() == data[old(limit)..outer]
    {
      limit := outer;
    }
  }

  // ----------------------------------------------------------------- output

  /** After pre, the array holds the encoding of recs up to at. */
  ghost predicate Wrote(target: array<byte>, at: nat, pre: Bytes, recs: seq<Record>)
    reads target
  {
    at <= target.Length && target[..at] == pre + EncodeRecords(recs)
  }

  lemma NothingWrote(target: array<byte>, at: nat)
    requires at <= target.Length
    ensures Wrote(target, at, target[..at], [])
  {
  }

  lemma NothingBefore(recs: seq<Record>)
    ensures [] + recs == recs
  {
  }

  lemma WroteMeans(target: array<byte>, at: nat, pre: Bytes, recs: seq<Record>)
    requires Wrote(target, at, pre, recs)
    ensures target[..at] == pre + EncodeRecords(recs)
  {
  }

  method WriteRaw(b: Bytes, target: array<byte>, at: nat) returns (end: nat)
    requires at + |b| <= target.Length
    modifies target
    ensures end == at + |b|
    ensures target[..end] == old(target[..at]) + b
    ensures forall j :: end <= j < target.Length ==> target[j] == old(target[j])
  {
    var i := 0;
    while i < |b|
      invariant 0 <= i <= |b|
      invariant target[..at + i] == old(target[..at]) + b[..i]
      invariant forall j :: at + |b| <= j < target.Length ==> target[j] == old(target[j])
    {
      ghost var before := target[..at + i];
      target[at + i] := b[i];
      i := i + 1;
      assert target[..at + i] == before + [b[i - 1]];
      assert b[..i] == b[..i - 1] + [b[i - 1]];
    }
    assert b[..i] == b;
    end := at + |b|;
  }

  /** A tag and its payload: what every WriteXToArray of the library writes. */
  method WriteRecordToArray(r: Record, target: array<byte>, at: nat, ghost pre: Bytes, ghost recs: seq<Record>)
    returns (end: nat)
    requires Wrote(target, at, pre, recs)
    requires at + RecordSize(r) <= target.Length
    modifies target
    ensures end == at + RecordSize(r)
    ensures Wrote(target, end, pre, recs + [r])
    ensures forall j :: end <= j < target.Length ==> target[j] == old(target[j])
  {
    RecordSizeIsLength(r);
    end := WriteRaw(EncodeRecord(r), target, at);
    EncodeAppend(pre, recs, r);
  }

  /** A field of a message: its tag is one byte. */
  method WriteFieldToArray(r: Record, target: array<byte>, at: nat, ghost pre: Bytes, ghost recs: seq<Record>)
    returns (end: nat)
    requires r.number < 16
    requires Wrote(target, at, pre, recs)
    requires at + 1 + PayloadSize(r.value) <= target.Length
    modifies target
    ensures end == at + 1 + PayloadSize(r.value)
    ensures Wrote(target, end, pre, recs + [r])
    ensures forall j :: end <= j < target.Length ==> target[j] == old(target[j])
  {
    end := WriteRecordToArray(r, target, at, pre, recs);
  }

  // Each of these is one guarded write of a generated serialiser: nothing is written for an
  // implicit-presence field that is the default or for an absent oneof.

  method WriteIntFieldToArray(n: nat, v: int64, target: array<byte>, at: nat, ghost pre: Bytes, ghost recs: seq<Record>)
    returns (end: nat)
    requires n < 16 && Wrote(target, at, pre, recs) && at + IntFieldSize(v) <= target.Length
    modifies target
    ensures end == at + IntFieldSize(v) && Wrote(target, end, pre, recs + IntField(n, v))
  {
    hide Wrote, VarintSize;
    assert recs + [] == recs;
    end := at;
    if v != 0 { end := WriteFieldToArray(IntRecord(n, v), target, at, pre, recs); }
  }

  method WriteBoolFieldToArray(n: nat, v: bool, target: array<byte>, at: nat, ghost pre: Bytes, ghost recs: seq<Record>)
    returns (end: nat)
    requires n < 16 && Wrote(target, at, pre, recs) && at + BoolFieldSize(v) <= target.Length
    modifies target
    ensures end == at + BoolFieldSize(v) && Wrote(target, end, pre, recs + BoolField(n, v))
  {
    hide Wrote;
    assert recs + [] == recs;
    end := at;
    if v { end := WriteFieldToArray(BoolRecord(n, v), target, at, pre, recs); }
  }

  method WriteBytesFieldToArray(n: nat, s: Bytes, target: array<byte>, at: nat,
                                ghost pre: Bytes, ghost recs: seq<Record>)
    returns (end: nat)
    requires n < 16 && Wrote(target, at, pre, recs) && at + BytesFieldSize(s) <= target.Length
    modifies target
    ensures end == at + BytesFieldSize(s) && Wrote(target, end, pre, recs + BytesField(n, s))
  {
    hide Wrote, VarintSize;
    assert recs + [] == recs;
    end := at;
    if |s| > 0 { end := WriteFieldToArray(BytesRecord(n, s), target, at, pre, recs); }
  }

  method WriteDoubleFieldToArray(n: nat, bits: Bytes8, target: array<byte>, at: nat,
                                 ghost pre: Bytes, ghost recs: seq<Record>)
    returns (end: nat)
    requires n < 16 && Wrote(target, at, pre, recs) && at + DoubleFieldSize(bits) <= target.Length
    modifies target
    ensures end == at + DoubleFieldSize(bits) && Wrote(target, end, pre, recs + DoubleField(n, bits))
  {
    hide Wrote, IsZero;
    assert recs + [] == recs;
    end := at;
    if !IsZero(bits) { end := WriteFieldToArray(Fixed64Record(n, bits), target, at, pre, recs); }
  }

  method WriteIntOneofToArray(n: nat, v: Option<int32>, target: array<byte>, at: nat,
                              ghost pre: Bytes, ghost recs: seq<Record>)
    returns (end: nat)
    requires n < 16 && Wrote(target, at, pre, recs) && at + IntOneofSize(v) <= target.Length
    modifies target
    ensures end == at + IntOneofSize(v) && Wrote(target, end, pre, recs + IntOneof(n, v))
  {
    hide Wrote, VarintSize;
    assert recs + [] == recs;
    end := at;
    if v.Some? { end := WriteFieldToArray(IntRecord(n, v.value), target, at, pre, recs); }
  }

  method WriteBoolOneofToArray(n: nat, v: Option<bool>, target: array<byte>, at: nat,
                               ghost pre: Bytes, ghost recs: seq<Record>)
    returns (end: nat)
    requires n < 16 && Wrote(target, at, pre, recs) && at + BoolOneofSize(v) <= target.Length
    modifies target
    ensures end == at + BoolOneofSize(v) && Wrote(target, end, pre, recs + BoolOneof(n, v))
  {
    hide Wrote;
    assert recs + [] == recs;
    end := at;
    if v.Some? { end := WriteFieldToArray(BoolRecord(n, v.value), target, at, pre, recs); }
  }

  lemma EncodeAppend(pre: Bytes, recs: seq<Record>, r: Record)
    ensures pre + EncodeRecords(recs + [r]) == pre + EncodeRecords(recs) + EncodeRecord(r)
  {
    assert (recs + [r])[..|recs|] == recs && (recs + [r])[|recs|] == r;
    ConcatAssociates(pre, EncodeRecords(recs), EncodeRecord(r));
  }

  /** The unknown records, one after another. */
  method SerializeUnknownFieldsToArray(unknown: seq<Record>, target: array<byte>, at: nat,
                                       ghost pre: Bytes, ghost recs: seq<Record>)
    returns (end: nat)
    requires Wrote(target, at, pre, recs)
    requires at + RecordsSize(unknown) <= target.Length
    modifies target
    ensures end == at + RecordsSize(unknown)
    ensures Wrote(target, end, pre, recs + unknown)
  {
    hide EncodeRecords, Wrote;
    end := at;
    var i := 0;
    ghost var done := recs;
    while i < |unknown|
      invariant 0 <= i <= |unknown|
      invariant done == recs + unknown[..i]
      invariant end == at + RecordsSize(unknown[..i]) <= target.Length
      invariant Wrote(target, end, pre, done)
    {
      PrefixFits(unknown, i);
      end := WriteRecordToArray(unknown[i], target, end, pre, done);
      done := done + [unknown[i]];
      i := i + 1;
    }
    assert unknown[..i] == unknown;
  }

  lemma PrefixFits(rs: seq<Record>, i: nat)
    requires i < |rs|
    ensures RecordsSize(rs[..i + 1]) == RecordsSize(rs[..i]) + RecordSize(rs[i])
    ensures RecordsSize(rs[..i + 1]) <= RecordsSize(rs)
  {
    assert rs[..i + 1][..i] == rs[..i];
    RecordsSizeConcat(rs[..i + 1], rs[i + 1..]);
    assert rs == rs[..i + 1] + rs[i + 1..];
  }

  /** The tag and the length prefix of a nested message; its bytes follow. */
  method WriteMessageHeadToArray(n: nat, size: nat, target: array<byte>, at: nat,
                                 ghost pre: Bytes, ghost recs: seq<Record>)
    returns (end: nat)
    requires n < 16
    requires Wrote(target, at, pre, recs)
    requires at + 1 + VarintSize(size) <= target.Length
    modifies target
    ensures end == at + 1 + VarintSize(size)
    ensures target[..end] == pre + EncodeRecords(recs) + (Varint(n * 8 + 2) + Varint(size))
  {
    VarintSizeIsLength(size);
    end := WriteRaw(Varint(n * 8 + 2) + Varint(size), target, at);
  }

  /** Head and contents together are the record of the nested message. */
  lemma MessageIsRecord(pre: Bytes, recs: seq<Record>, n: nat, contents: Bytes)
    ensures pre + EncodeRecords(recs) + (Varint(n * 8 + 2) + Varint(|contents|)) + contents
         == pre + EncodeRecords(recs + [BytesRecord(n, contents)])
  {
    EncodeAppend(pre, recs, BytesRecord(n, contents));
  }

  /** An output stream that may or may not have a buffer to write into directly. */
  class CodedOutputStream {
    var written: Bytes
    var room: nat

    constructor (room: nat)
      ensures written == [] && this.room == room
    {
      written, this.room := [], room;
    }

    predicate HasDirectBuffer(size: nat)
      reads this`room
    {
      size <= room
    }

    /** Whatever is written, the buffer may be used up, flushed or replaced by another. */
    method Write(b: Bytes)
      modifies this
      ensures written == old(written) + b
    {
      written := written + b;
      room := *;
    }

    /** After pre, the encoding of recs. */
    ghost predicate Holds(pre: Bytes, recs: seq<Record>)
      reads this`written
    {
      written == pre + EncodeRecords(recs)
    }

    lemma HoldsNothing()
      ensures Holds(written, [])
    {
    }

    lemma HoldsMeans(pre: Bytes, recs: seq<Record>)
      requires Holds(pre, recs)
      ensures written == pre + EncodeRecords(recs)
    {
    }

    method WriteRecord(r: Record, ghost pre: Bytes, ghost recs: seq<Record>)
      requires Holds(pre, recs)
      modifies this
      ensures Holds(pre, recs + [r])
    {
      Write(EncodeRecord(r));
      EncodeAppend(pre, recs, r);
    }

    method WriteIntField(n: nat, v: int64, ghost pre: Bytes, ghost recs: seq<Record>)
      requires Holds(pre, recs)
      modifies this
      ensures Holds(pre, recs + IntField(n, v))
    {
      hide Holds;
      assert recs + [] == recs;
      if v != 0 { WriteRecord(IntRecord(n, v), pre, recs); }
    }

    method WriteBoolField(n: nat, v: bool, ghost pre: Bytes, ghost recs: seq<Record>)
      requires Holds(pre, recs)
      modifies this
      ensures Holds(pre, recs + BoolField(n, v))
    {
      hide Holds;
      assert recs + [] == recs;
      if v { WriteRecord(BoolRecord(n, v), pre, recs); }
    }

    method WriteBytesField(n: nat, s: Bytes, ghost pre: Bytes, ghost recs: seq<Record>)
      requires Holds(pre, recs)
      modifies this
      ensures Holds(pre, recs + BytesField(n, s))
    {
      hide Holds;
      assert recs + [] == recs;
      if |s| > 0 { WriteRecord(BytesRecord(n, s), pre, recs); }
    }

    method WriteDoubleField(n: nat, bits: Bytes8, ghost pre: Bytes, ghost recs: seq<Record>)
      requires Holds(pre, recs)
      modifies this
      ensures Holds(pre, recs + DoubleField(n, bits))
    {
      hide Holds, IsZero;
      assert recs + [] == recs;
      if !IsZero(bits) { WriteRecord(Fixed64Record(n, bits), pre, recs); }
    }

    method WriteIntOneof(n: nat, v: Option<int32>, ghost pre: Bytes, ghost recs: seq<Record>)
      requires Holds(pre, recs)
      modifies this
      ensures Holds(pre, recs + IntOneof(n, v))
    {
      hide Holds;
      assert recs + [] == recs;
      if v.Some? { WriteRecord(IntRecord(n, v.value), pre, recs); }
    }

    method WriteBoolOneof(n: nat, v: Option<bool>, ghost pre: Bytes, ghost recs: seq<Record>)
      requires Holds(pre, recs)
      modifies this
      ensures Holds(pre, recs + BoolOneof(n, v))
    {
      hide Holds;
      assert recs + [] == recs;
      if v.Some? { WriteRecord(BoolRecord(n, v.value), pre, recs); }
    }

    method SerializeUnknownFields(unknown: seq<Record>, ghost pre: Bytes, ghost recs: seq<Record>)
      requires Holds(pre, recs)
      modifies this
      ensures Holds(pre, recs + unknown)
    {
      hide EncodeRecords, Holds;
      var i := 0;
      ghost var done := recs;
      while i < |unknown|
        invariant 0 <= i <= |unknown|
        invariant done == recs + unknown[..i]
        invariant Holds(pre, done)
      {
        WriteRecord(unknown[i], pre, done);
        done := done + [unknown[i]];
        i := i + 1;
      }
      assert unknown[..i] == unknown;
    }
  }
}
