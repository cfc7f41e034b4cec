/**
 What every generated parser does with the records of its input: it folds one-record
 updates over them, from the message it is called on. The laws here hold of any update
 function; each message module instantiates them with its own.
 */
module Codec {
  import opened Wire

  function Fold<M>(step: (M, Record) -> Option<M>, m: M, rs: seq<Record>): Option<M> {
    if rs == [] then Some(m)
    else
      match step(m, rs[0])
      case None => None
      case Some(m') => Fold(step, m', rs[1..])
  }

  /** Parsing b into the message m. */
  function ParseInto<M>(step: (M, Record) -> Option<M>, m: M, b: Bytes): Option<M> {
    match DecodeRecords(b)
    case None => None
    case Some(rs) => Fold(step, m, rs)
  }

  lemma FoldOne<M>(step: (M, Record) -> Option<M>, m: M, r: Record)
    ensures Fold(step, m, [r]) == step(m, r)
  {
    assert [r][1..] == [];
  }

  lemma FoldNothing<M>(step: (M, Record) -> Option<M>, m: M)
    ensures Fold(step, m, []) == Some(m)
  {
  }

  lemma FoldAtMostOne<M>(step: (M, Record) -> Option<M>, m: M, present: bool, r: Record)
    ensures Fold(step, m, if present then [r] else []) == if present then step(m, r) else Some(m)
  {
    FoldOne(step, m, r);
  }

  lemma FoldThen<M>(step: (M, Record) -> Option<M>, m: M, xs: seq<Record>, m1: M, ys: seq<Record>, m2: M)
    requires Fold(step, m, xs) == Some(m1) && Fold(step, m1, ys) == Some(m2)
    ensures Fold(step, m, xs + ys) == Some(m2)
  {
    FoldConcat(step, m, xs, ys);
  }

  lemma {:induction false} FoldConcat<M>(step: (M, Record) -> Option<M>, m: M, xs: seq<Record>, ys: seq<Record>)
    ensures Fold(step, m, xs + ys) == match Fold(step, m, xs)
                                      case None => None
                                      case Some(m') => Fold(step, m', ys)
  {
    if xs == [] {
      assert xs + ys == ys;
    } else {
      assert (xs + ys)[1..] == xs[1..] + ys;
      if step(m, xs[0]).Some? { FoldConcat(step, step(m, xs[0]).value, xs[1..], ys); }
    }
  }

  lemma FoldLast<M>(step: (M, Record) -> Option<M>, m: M, rs: seq<Record>)
    requires rs != []
    ensures Fold(step, m, rs) == match Fold(step, m, rs[..|rs| - 1])
                                 case None => None
                                 case Some(m') => step(m', rs[|rs| - 1])
  {
    var init, last := rs[..|rs| - 1], rs[|rs| - 1];
    assert rs == init + [last];
    FoldConcat(step, m, init, [last]);
    hide Fold;
    if Fold(step, m, init).Some? { FoldOne(step, Fold(step, m, init).value, last); }
  }

  /** The last record of a field. */
  function LastOf(known: Record -> bool, n: nat, rs: seq<Record>): Option<Record> {
    if rs == [] then None
    else if known(rs[|rs| - 1]) && rs[|rs| - 1].number == n then Some(rs[|rs| - 1])
    else LastOf(known, n, rs[..|rs| - 1])
  }

  /** The records of a field, in order. */
  function AllOf(known: Record -> bool, n: nat, rs: seq<Record>): seq<Record> {
    if rs == [] then []
    else AllOf(known, n, rs[..|rs| - 1])
         + (if known(rs[|rs| - 1]) && rs[|rs| - 1].number == n then [rs[|rs| - 1]] else [])
  }

  /** If each update succeeds on the acceptable records only, so does the fold. */
  lemma {:induction false} FoldSucceeds<M(!new)>(step: (M, Record) -> Option<M>, acceptable: Record -> bool,
                                                 m: M, rs: seq<Record>)
    requires forall x: M, r: Record :: step(x, r).Some? <==> acceptable(r)
    ensures Fold(step, m, rs).Some? <==> forall r :: r in rs ==> acceptable(r)
    decreases |rs|
  {
    if rs != [] {
      assert forall r :: r in rs <==> r == rs[0] || r in rs[1..];
      if step(m, rs[0]).Some? { FoldSucceeds(step, acceptable, step(m, rs[0]).value, rs[1..]); }
    }
  }

  /** One turn of a parse loop: take the first record, update, go on with what is left. */
  lemma ParseUnrolls<M>(step: (M, Record) -> Option<M>, m: M, b: Bytes)
    requires b != []
    ensures ParseInto(step, m, b) ==
            match ReadRecord(b)
            case None => None
            case Some((r, n)) =>
              match step(m, r)
              case None => None
              case Some(m') => ParseInto(step, m', b[n..])
  {
    if ReadRecord(b).Some? {
      var (r, n) := ReadRecord(b).value;
      if DecodeRecords(b[n..]).Some? {
        assert ([r] + DecodeRecords(b[n..]).value)[1..] == DecodeRecords(b[n..]).value;
      }
    }
  }

  /** What a parse loop does with the record after a tag: ok says whether it goes on, from m1 and rest1. */
  ghost predicate MergedRecord<M>(step: (M, Record) -> Option<M>, tag: nat, m0: M, rest0: Bytes,
                                  ok: bool, m1: M, rest1: Bytes)
    requires tag < TWO32
  {
    match ReadAfterTag(tag, rest0)
    case None => !ok
    case Some((r, k)) =>
      && step(m0, r) == (if ok then Some(m1) else None)
      && (ok ==> rest1 == rest0[k..])
  }

  lemma LoopTurns<M>(step: (M, Record) -> Option<M>, m: M, b: Bytes, tag: nat, n: nat,
                     ok: bool, m1: M, rest1: Bytes)
    requires b != [] && ReadTag(b) == Some((tag, n))
    requires MergedRecord(step, tag, m, b[n..], ok, m1, rest1)
    ensures ok ==> ParseInto(step, m, b) == ParseInto(step, m1, rest1) && |rest1| < |b|
    ensures !ok ==> ParseInto(step, m, b) == None
  {
    hide ReadTag, ReadAfterTag, ParseInto;
    ParseUnrolls(step, m, b);
    if ReadAfterTag(tag, b[n..]).Some? {
      var (r, k) := ReadAfterTag(tag, b[n..]).value;
      SliceOfSlice(b, n, |b|, k, |b| - n);
      assert b[n..][k..] == b[n + k..];
    }
  }

  /** The loop stops at tag 0: rightly at the end of the window, wrongly anywhere else. */
  lemma LoopStops<M>(step: (M, Record) -> Option<M>, m: M, b: Bytes)
    requires b == [] || ReadTag(b) == None || ReadTag(b).value.0 == 0
    ensures ParseInto(step, m, b) == if b == [] then Some(m) else None
  {
    if b != [] { ParseUnrolls(step, m, b); }
  }

  /** Parsing a concatenation is parsing the first part and then the second into the result. */
  lemma ParseConcat<M>(step: (M, Record) -> Option<M>, m: M, a: Bytes, c: Bytes)
    requires ParseInto(step, m, a).Some?
    ensures ParseInto(step, m, a + c) == ParseInto(step, ParseInto(step, m, a).value, c)
  {
    DecodeConcat(a, c);
    if DecodeRecords(c).Some? {
      FoldConcat(step, m, DecodeRecords(a).value, DecodeRecords(c).value);
    }
  }

  lemma ParseEncoded<M>(step: (M, Record) -> Option<M>, m: M, rs: seq<Record>)
    requires ValidRecords(rs)
    ensures ParseInto(step, m, EncodeRecords(rs)) == Fold(step, m, rs)
  {
    DecodeInverts(rs);
  }

  // -------------------------------------------------------- unknown records

  /** Well-formed records none of which the parser stores in a field. */
  ghost predicate UnknownTo(known: Record -> bool, us: seq<Record>) {
    forall i :: 0 <= i < |us| ==> ValidRecord(us[i]) && !known(us[i])
  }

  /** Folding records an update only collects is appending them. */
  lemma {:induction false} FoldAppends<M(!new)>(step: (M, Record) -> Option<M>, known: Record -> bool,
                                                append: (M, seq<Record>) -> M, m: M, us: seq<Record>)
    requires UnknownTo(known, us)
    requires forall x: M, r: Record | !known(r) :: step(x, r) == Some(append(x, [r]))
    requires forall x: M, a: seq<Record>, b: seq<Record> :: append(append(x, a), b) == append(x, a + b)
    requires forall x: M :: append(x, []) == x
    ensures Fold(step, m, us) == Some(append(m, us))
    decreases |us|
  {
    if us != [] {
      FoldAppends(step, known, append, append(m, [us[0]]), us[1..]);
      assert [us[0]] + us[1..] == us;
    }
  }

  function Unknowns(known: Record -> bool, rs: seq<Record>): seq<Record> {
    if rs == [] then []
    else (if known(rs[0]) then [] else [rs[0]]) + Unknowns(known, rs[1..])
  }

  /** An update that keeps validity and appends exactly the records it does not know. */
  ghost predicate Keeps<M>(step: (M, Record) -> Option<M>, known: Record -> bool,
                           unknownOf: M -> seq<Record>, valid: M -> bool, m: M, r: Record) {
    step(m, r).Some? ==>
      && (valid(m) ==> valid(step(m, r).value))
      && unknownOf(step(m, r).value) == unknownOf(m) + (if known(r) then [] else [r])
  }

  lemma {:induction false} FoldKeeps<M(!new)>(step: (M, Record) -> Option<M>, known: Record -> bool,
                                              unknownOf: M -> seq<Record>, valid: M -> bool,
                                              x: M, rs: seq<Record>)
    requires forall m: M, r: Record | ValidRecord(r) :: Keeps(step, known, unknownOf, valid, m, r)
    requires ValidRecords(rs) && Fold(step, x, rs).Some?
    ensures valid(x) ==> valid(Fold(step, x, rs).value)
    ensures unknownOf(Fold(step, x, rs).value) == unknownOf(x) + Unknowns(known, rs)
    decreases |rs|
  {
    if rs != [] {
      var x1, own, rest := step(x, rs[0]).value, if known(rs[0]) then [] else [rs[0]], Unknowns(known, rs[1..]);
      assert Keeps(step, known, unknownOf, valid, x, rs[0]);
      hide Keeps;
      FoldKeeps(step, known, unknownOf, valid, x1, rs[1..]);
      assert (unknownOf(x) + own) + rest == unknownOf(x) + (own + rest);
    }
  }

  /** Records of fields: the parser stores each of them, and its tag is one byte. */
  ghost predicate AllKnown(known: Record -> bool, rs: seq<Record>) {
    forall i :: 0 <= i < |rs| ==> known(rs[i]) && 1 <= rs[i].number < 16
  }

  lemma AllKnownConcat(known: Record -> bool, xs: seq<Record>, ys: seq<Record>)
    requires AllKnown(known, xs) && AllKnown(known, ys)
    ensures AllKnown(known, xs + ys)
  {
  }

  // ------------------------------------------------------------------ order

  /** Updates of different slots commute. */
  ghost predicate Commutes<M(!new)>(step: (M, Record) -> Option<M>, slot: Record -> nat) {
    forall m: M, r: Record, q: Record | slot(r) != slot(q) ::
      Fold(step, m, [r, q]) == Fold(step, m, [q, r])
  }

  /** The records of one slot, in order. */
  function Slice(slot: Record -> nat, s: nat, rs: seq<Record>): seq<Record> {
    if rs == [] then []
    else (if slot(rs[0]) == s then [rs[0]] else []) + Slice(slot, s, rs[1..])
  }

  /** ys is a rearrangement of xs that keeps the order inside every slot. */
  ghost predicate SameSlices(slot: Record -> nat, xs: seq<Record>, ys: seq<Record>) {
    forall s: nat :: Slice(slot, s, xs) == Slice(slot, s, ys)
  }

  lemma SliceUnrolls(slot: Record -> nat, s: nat, xs: seq<Record>)
    requires xs != []
    ensures Slice(slot, s, xs) == (if slot(xs[0]) == s then [xs[0]] else []) + Slice(slot, s, xs[1..])
  {
  }

  lemma {:induction false} SliceConcat(slot: Record -> nat, s: nat, xs: seq<Record>, ys: seq<Record>)
    ensures Slice(slot, s, xs + ys) == Slice(slot, s, xs) + Slice(slot, s, ys)
  {
    if xs == [] {
      assert xs + ys == ys;
    } else {
      assert (xs + ys)[1..] == xs[1..] + ys && (xs + ys)[0] == xs[0];
      SliceConcat(slot, s, xs[1..], ys);
      SliceUnrolls(slot, s, xs + ys);
      SliceUnrolls(slot, s, xs);
      hide Slice;
    }
  }

  /** The first record of a nonempty slice, and the place where it stands. */
  lemma {:induction false} FirstOfSlot(slot: Record -> nat, s: nat, ys: seq<Record>) returns (k: nat)
    requires Slice(slot, s, ys) != []
    ensures k < |ys| && slot(ys[k]) == s && ys[k] == Slice(slot, s, ys)[0]
    ensures forall i :: 0 <= i < k ==> slot(ys[i]) != s
  {
    if slot(ys[0]) == s {
      k := 0;
    } else {
      var j := FirstOfSlot(slot, s, ys[1..]);
      k := j + 1;
    }
  }

  /** A record may be moved in front of records of other slots. */
  lemma {:induction false} MoveToFront<M(!new)>(step: (M, Record) -> Option<M>, slot: Record -> nat, m: M,
                                                xs: seq<Record>, r: Record)
    requires Commutes(step, slot)
    requires forall i :: 0 <= i < |xs| ==> slot(xs[i]) != slot(r)
    ensures Fold(step, m, xs + [r]) == Fold(step, m, [r] + xs)
  {
    if xs == [] {
      assert xs + [r] == [r] + xs;
    } else {
      var x, rest := xs[0], xs[1..];
      assert xs + [r] == [x] + (rest + [r]);
      assert [r] + xs == [r, x] + rest;
      assert [x] + ([r] + rest) == [x, r] + rest;
      FoldConcat(step, m, [x], rest + [r]);
      FoldConcat(step, m, [x], [r] + rest);
      if Fold(step, m, [x]).Some? { MoveToFront(step, slot, Fold(step, m, [x]).value, rest, r); }
      assert Fold(step, m, [x, r]) == Fold(step, m, [r, x]);
      FoldConcat(step, m, [x, r], rest);
      FoldConcat(step, m, [r, x], rest);
    }
  }

  lemma SameSlicesTail(slot: Record -> nat, r: Record, xs: seq<Record>, ys: seq<Record>)
    requires SameSlices(slot, [r] + xs, [r] + ys)
    ensures SameSlices(slot, xs, ys)
  {
    forall s: nat ensures Slice(slot, s, xs) == Slice(slot, s, ys) {
      SliceConcat(slot, s, [r], xs);
      SliceConcat(slot, s, [r], ys);
      assert Slice(slot, s, [r] + xs) == Slice(slot, s, [r] + ys);
      var h := Slice(slot, s, [r]);
      assert Slice(slot, s, xs) == (h + Slice(slot, s, xs))[|h|..];
      assert Slice(slot, s, ys) == (h + Slice(slot, s, ys))[|h|..];
    }
  }

  /** Records that keep their order inside every slot fold to the same message, or fail alike. */
  lemma {:induction false} OrderIndependence<M(!new)>(step: (M, Record) -> Option<M>, slot: Record -> nat, m: M,
                                                      xs: seq<Record>, ys: seq<Record>)
    requires Commutes(step, slot)
    requires SameSlices(slot, xs, ys)
    ensures Fold(step, m, xs) == Fold(step, m, ys)
    decreases |xs|
  {
    if xs == [] {
      if ys != [] {
        SliceStarts(slot, ys);
        assert false;
      }
    } else {
      var r, rest := xs[0], xs[1..];
      assert Slice(slot, slot(r), xs) == Slice(slot, slot(r), ys);
      var k := FirstOfSlot(slot, slot(r), ys);
      var pre, post := ys[..k], ys[k + 1..];
      assert ys[k] == r;
      assert ys == (pre + [r]) + post;
      assert ([r] + pre) + post == [r] + (pre + post);
      MoveToFront(step, slot, m, pre, r);
      FoldConcat(step, m, pre + [r], post);
      FoldConcat(step, m, [r] + pre, post);
      MovedSameSlices(slot, xs, pre, r, post);
      assert xs == [r] + rest;
      SameSlicesTail(slot, r, rest, pre + post);
      FoldConcat(step, m, [r], rest);
      FoldConcat(step, m, [r], pre + post);
      if Fold(step, m, [r]).Some? {
        OrderIndependence(step, slot, Fold(step, m, [r]).value, rest, pre + post);
      }
    }
  }

  /** Such a rearrangement has the same records, each as often. */
  lemma {:induction false} SameSlicesPermute(slot: Record -> nat, xs: seq<Record>, ys: seq<Record>)
    requires SameSlices(slot, xs, ys)
    ensures multiset(xs) == multiset(ys)
    decreases |xs|
  {
    if xs == [] {
      if ys != [] {
        SliceStarts(slot, ys);
        assert false;
      }
    } else {
      var r, rest := xs[0], xs[1..];
      assert Slice(slot, slot(r), xs) == Slice(slot, slot(r), ys);
      var k := FirstOfSlot(slot, slot(r), ys);
      var pre, post := ys[..k], ys[k + 1..];
      assert ys == (pre + [r]) + post;
      MovedSameSlices(slot, xs, pre, r, post);
      assert xs == [r] + rest;
      SameSlicesTail(slot, r, rest, pre + post);
      SameSlicesPermute(slot, rest, pre + post);
    }
  }

  lemma SliceStarts(slot: Record -> nat, ys: seq<Record>)
    requires ys != []
    ensures Slice(slot, slot(ys[0]), ys) != []
  {
  }

  lemma {:induction false} SliceSkips(slot: Record -> nat, s: nat, xs: seq<Record>)
    requires forall i :: 0 <= i < |xs| ==> slot(xs[i]) != s
    ensures Slice(slot, s, xs) == []
  {
    if xs != [] { SliceSkips(slot, s, xs[1..]); }
  }

  lemma MovedSameSlices(slot: Record -> nat, xs: seq<Record>, pre: seq<Record>, r: Record, post: seq<Record>)
    requires SameSlices(slot, xs, (pre + [r]) + post)
    requires forall i :: 0 <= i < |pre| ==> slot(pre[i]) != slot(r)
    ensures SameSlices(slot, xs, [r] + (pre + post))
  {
    forall s: nat ensures Slice(slot, s, xs) == Slice(slot, s, [r] + (pre + post)) {
      SliceConcat(slot, s, pre + [r], post);
      SliceConcat(slot, s, pre, [r]);
      SliceConcat(slot, s, [r], pre + post);
      SliceConcat(slot, s, pre, post);
      if s == slot(r) { SliceSkips(slot, s, pre); }
      assert Slice(slot, s, [r]) == if slot(r) == s then [r] else [];
      assert Slice(slot, s, xs) == Slice(slot, s, (pre + [r]) + post);
    }
  }
}
