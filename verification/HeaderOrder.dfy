/**
 The order of the records of a Header does not matter beyond the order inside each field:
 "Field Order" and "Last One Wins" of the Protocol Buffers Encoding specification.
 */
module HeaderOrder {
  import opened Wire
  import opened Codec
  import opened HeaderMessage
  import PairMessage

  /** Records of one field share a slot; so do all unknown records. */
  function Slot(r: Record): nat { if Known(r) then r.number else 0 }

  function Twice(m: HeaderValue, r: Record, q: Record): Option<HeaderValue> {
    match Step(m, r)
    case None => None
    case Some(m1) => Step(m1, q)
  }

  lemma FoldTwice(m: HeaderValue, r: Record, q: Record)
    ensures Fold(Step, m, [r, q]) == Twice(m, r, q)
  {
    hide Step;
    assert [r, q][1..] == [q];
    if Step(m, r).Some? { FoldOne(Step, Step(m, r).value, q); }
  }

  lemma StepsCommute(m: HeaderValue, r: Record, q: Record)
    requires Slot(r) != Slot(q)
    ensures Twice(m, r, q) == Twice(m, q, r)
  {
    hide ToInt32, ToInt64, ValidUtf8, PairMessage.Parse;
  }

  lemma StepCommutes()
    ensures Commutes(Step, Slot)
  {
    forall m: HeaderValue, r: Record, q: Record | Slot(r) != Slot(q)
      ensures Fold(Step, m, [r, q]) == Fold(Step, m, [q, r])
    {
      StepsCommute(m, r, q);
      FoldTwice(m, r, q);
      FoldTwice(m, q, r);
    }
  }

  lemma {:induction false} SliceOfField(n: nat, rs: seq<Record>)
    requires n > 0
    ensures Slice(Slot, n, rs) == AllOf(Known, n, rs)
  {
    if rs != [] {
      var init, last := rs[..|rs| - 1], rs[|rs| - 1];
      SliceOfField(n, init);
      SliceConcat(Slot, n, init, [last]);
      assert rs == init + [last] && [last][1..] == [];
      hide Known;
      assert Slice(Slot, n, [last]) == if Known(last) && last.number == n then [last] else [];
    }
  }

  lemma {:induction false} SliceOfUnknown(rs: seq<Record>)
    ensures Slice(Slot, 0, rs) == Unknowns(Known, rs)
  {
    if rs != [] { SliceOfUnknown(rs[1..]); }
  }

  lemma {:induction false} NoSuchField(n: nat, rs: seq<Record>)
    requires n > 13
    ensures AllOf(Known, n, rs) == []
  {
    if rs != [] { NoSuchField(n, rs[..|rs| - 1]); }
  }

  lemma FieldsAreSlices(xs: seq<Record>, ys: seq<Record>)
    requires forall n :: 1 <= n <= 13 ==> AllOf(Known, n, xs) == AllOf(Known, n, ys)
    requires Unknowns(Known, xs) == Unknowns(Known, ys)
    ensures SameSlices(Slot, xs, ys)
  {
    hide Slice, AllOf, Known, Slot, Unknowns;
    forall s: nat ensures Slice(Slot, s, xs) == Slice(Slot, s, ys) {
      if s == 0 {
        SliceOfUnknown(xs);
        SliceOfUnknown(ys);
      } else {
        SliceOfField(s, xs);
        SliceOfField(s, ys);
        if s > 13 {
          NoSuchField(s, xs);
          NoSuchField(s, ys);
        }
      }
    }
  }

  /** Two inputs that have the same records in each of the thirteen fields, in the same order, and the
      same unknown records in the same order, parse to the same Header, or both fail, however the
      records of different fields are mixed. */
  lemma OrderDoesNotMatter(m: HeaderValue, b: Bytes, c: Bytes)
    requires DecodeRecords(b).Some? && DecodeRecords(c).Some?
    requires forall n :: 1 <= n <= 13 ==>
               AllOf(Known, n, DecodeRecords(b).value) == AllOf(Known, n, DecodeRecords(c).value)
    requires Unknowns(Known, DecodeRecords(b).value) == Unknowns(Known, DecodeRecords(c).value)
    ensures ParseFrom(m, b) == ParseFrom(m, c)
    ensures multiset(DecodeRecords(b).value) == multiset(DecodeRecords(c).value)
  {
    hide Step, Slot, SameSlices, Commutes, Fold;
    StepCommutes();
    FieldsAreSlices(DecodeRecords(b).value, DecodeRecords(c).value);
    SameSlicesPermute(Slot, DecodeRecords(b).value, DecodeRecords(c).value);
    OrderIndependence(Step, Slot, m, DecodeRecords(b).value, DecodeRecords(c).value);
  }
}
