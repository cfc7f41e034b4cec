/** The splitting of the table option at its separator. A string here is what a C string holds before its NUL. */
module StrSplit {
  import opened Wire

  predicate OccursAt(s: string, sep: string, i: nat) {
    i + |sep| <= |s| && s[i..i + |sep|] == sep
  }

  /** The leftmost occurrence of sep in s, at i or later. */
  function Find(s: string, sep: string, i: nat): (r: Option<nat>)
    requires i <= |s|
    ensures r.Some? ==> i <= r.value && OccursAt(s, sep, r.value)
    ensures forall j: nat :: i <= j < (if r.Some? then r.value else |s| + 1) ==> !OccursAt(s, sep, j)
    decreases |s| - i
  {
    if OccursAt(s, sep, i) then Some(i)
    else if i == |s| then None
    else Find(s, sep, i + 1)
  }

  /** The leftmost non-overlapping split of s from at on, empty pieces included. */
  function PiecesFrom(s: string, sep: string, at: nat): (ps: seq<string>)
    requires sep != [] && at <= |s|
    ensures ps != []
    decreases |s| - at
  {
    match Find(s, sep, at)
    case None => [s[at..]]
    case Some(k) => [s[at..k]] + PiecesFrom(s, sep, k + |sep|)
  }

  function Pieces(s: string, sep: string): seq<string>
    requires sep != []
  {
    PiecesFrom(s, sep, 0)
  }

  function NonEmpty(ps: seq<string>): seq<string> {
    if ps == [] then [] else (if ps[0] == [] then [] else [ps[0]]) + NonEmpty(ps[1..])
  }

  /** What is appended to the list: an empty separator does not split, an empty string has no tokens. */
  function Tokens(s: string, sep: string): seq<string> {
    if s == [] then [] else if sep == [] then [s] else NonEmpty(Pieces(s, sep))
  }

  function Join(ps: seq<string>, sep: string): string
    requires ps != []
  {
    if |ps| == 1 then ps[0] else ps[0] + sep + Join(ps[1..], sep)
  }

  // -------------------------------------------------------------------- laws

  ghost predicate Free(s: string, sep: string) {
    forall i: nat :: !OccursAt(s, sep, i)
  }

  /** The first place where sep stands in p followed by sep is right after p. */
  ghost predicate EndsAtFirst(p: string, sep: string) {
    forall j: nat :: j <= |p| ==> (OccursAt(p + sep, sep, j) <==> j == |p|)
  }

  /** Parts whose join has its leftmost separators just between them. */
  ghost predicate LeftmostCuts(ps: seq<string>, sep: string) {
    && ps != []
    && (forall i :: 0 <= i < |ps| - 1 ==> EndsAtFirst(ps[i], sep))
    && Free(ps[|ps| - 1], sep)
  }

  lemma FindIsLeftmost(s: string, sep: string, at: nat, k: nat)
    requires at <= k && OccursAt(s, sep, k) && forall j: nat :: at <= j < k ==> !OccursAt(s, sep, j)
    ensures Find(s, sep, at) == Some(k)
  {
  }

  lemma OccursInside(s: string, sep: string, a: nat, b: nat, j: nat)
    requires a <= b <= |s| && j + |sep| <= b - a
    ensures OccursAt(s[a..b], sep, j) <==> OccursAt(s, sep, a + j)
  {
    var x, y := s[a..b][j..j + |sep|], s[a + j..a + j + |sep|];
    assert forall i :: 0 <= i < |sep| ==> x[i] == s[a + j + i] == y[i];
  }

  /** The part of s from at to the leftmost separator, at k. */
  lemma CutIsLeftmost(s: string, sep: string, at: nat, k: nat)
    requires sep != [] && at <= |s| && Find(s, sep, at) == Some(k)
    ensures EndsAtFirst(s[at..k], sep) && Free(s[at..k], sep)
  {
    assert s[k..k + |sep|] == sep && s[at..k] + s[k..k + |sep|] == s[at..k + |sep|];
    forall j: nat | j <= k - at ensures OccursAt(s[at..k] + sep, sep, j) <==> j == k - at {
      OccursInside(s, sep, at, k + |sep|, j);
    }
    forall j: nat ensures !OccursAt(s[at..k], sep, j) {
      if j + |sep| <= k - at { OccursInside(s, sep, at, k, j); }
    }
  }

  lemma TailIsFree(s: string, sep: string, at: nat)
    requires sep != [] && at <= |s| && Find(s, sep, at) == None
    ensures Free(s[at..], sep)
  {
    forall j: nat ensures !OccursAt(s[at..], sep, j) {
      if j + |sep| <= |s| - at { OccursInside(s, sep, at, |s|, j); }
    }
  }

  lemma CutJoins(s: string, sep: string, at: nat, k: nat)
    requires at <= |s| && Find(s, sep, at) == Some(k)
    ensures k + |sep| <= |s| && s[at..k] + sep + s[k + |sep|..] == s[at..]
  {
    assert s[k..k + |sep|] == sep;
    hide Find;
    assert s[at..k] + s[k..k + |sep|] + s[k + |sep|..] == s[at..];
  }

  lemma CutsMore(p: string, ps: seq<string>, sep: string)
    requires EndsAtFirst(p, sep) && Free(p, sep) && LeftmostCuts(ps, sep)
    requires forall q :: q in ps ==> Free(q, sep)
    ensures LeftmostCuts([p] + ps, sep) && Join([p] + ps, sep) == p + sep + Join(ps, sep)
    ensures forall q :: q in [p] + ps ==> Free(q, sep)
  {
    hide EndsAtFirst, Free;
    assert ([p] + ps)[1..] == ps;
  }

  /** The pieces give back the string; no piece holds the separator; each cut is the leftmost. */
  lemma {:induction false} PiecesAreLeftmost(s: string, sep: string, at: nat)
    requires sep != [] && at <= |s|
    ensures Join(PiecesFrom(s, sep, at), sep) == s[at..]
    ensures LeftmostCuts(PiecesFrom(s, sep, at), sep)
    ensures forall p :: p in PiecesFrom(s, sep, at) ==> Free(p, sep)
    decreases |s| - at
  {
    hide *;
    PiecesUnroll(s, sep, at);
    if Find(s, sep, at).Some? {
      var k := Find(s, sep, at).value;
      CutJoins(s, sep, at, k);
      CutIsLeftmost(s, sep, at, k);
      PiecesAreLeftmost(s, sep, k + |sep|);
      CutsMore(s[at..k], PiecesFrom(s, sep, k + |sep|), sep);
    } else {
      TailIsFree(s, sep, at);
      OneCut(s[at..], sep);
    }
  }

  lemma OneCut(p: string, sep: string)
    requires Free(p, sep)
    ensures LeftmostCuts([p], sep) && Join([p], sep) == p
    ensures forall q :: q in [p] ==> Free(q, sep)
  {
    hide Free;
  }

  lemma FirstPiece(s: string, at: nat, p: string, sep: string, rest: string)
    requires sep != [] && EndsAtFirst(p, sep) && at <= |s| && s[at..] == p + sep + rest
    ensures at + |p| + |sep| <= |s| && s[at + |p| + |sep|..] == rest
    ensures PiecesFrom(s, sep, at) == [p] + PiecesFrom(s, sep, at + |p| + |sep|)
  {
    hide EndsAtFirst, Find, OccursAt;
    FirstCut(s, at, p, sep, rest);
  }

  lemma NoCut(s: string, at: nat, p: string, sep: string)
    requires sep != [] && at <= |s| && s[at..] == p && Free(p, sep)
    ensures PiecesFrom(s, sep, at) == [p]
  {
    assert s[at..|s|] == p;
    forall j: nat | at <= j ensures !OccursAt(s, sep, j) {
      if j + |sep| <= |s| { OccursInside(s, sep, at, |s|, j - at); }
    }
    assert Find(s, sep, at).None?;
  }

  /** There is only one way to cut at the leftmost separators: splitting a join gives its parts back. */
  lemma {:induction false} SplitOfJoin(s: string, at: nat, ps: seq<string>, sep: string)
    requires sep != [] && LeftmostCuts(ps, sep) && at <= |s| && s[at..] == Join(ps, sep)
    ensures PiecesFrom(s, sep, at) == ps
    decreases |ps|
  {
    hide EndsAtFirst, Free, Find, OccursAt, PiecesFrom;
    if |ps| == 1 {
      NoCut(s, at, ps[0], sep);
      assert [ps[0]] == ps;
    } else {
      assert EndsAtFirst(ps[0], sep);
      assert LeftmostCuts(ps[1..], sep);
      FirstPiece(s, at, ps[0], sep, Join(ps[1..], sep));
      SplitOfJoin(s, at + |ps[0]| + |sep|, ps[1..], sep);
      assert [ps[0]] + ps[1..] == ps;
    }
  }

  lemma FirstCut(s: string, at: nat, p: string, sep: string, rest: string)
    requires sep != [] && EndsAtFirst(p, sep) && at <= |s| && s[at..] == p + sep + rest
    ensures Find(s, sep, at) == Some(at + |p|)
    ensures at + |p| + |sep| <= |s| && s[at..at + |p|] == p && s[at + |p| + |sep|..] == rest
  {
    var k := at + |p|;
    SliceOfTail(s, at, 0, |p| + |sep|);
    SliceOfTail(s, at, 0, |p|);
    SliceOfTail(s, at, |p| + |sep|, |s| - at);
    assert s[at..][..|p| + |sep|] == p + sep;
    assert s[at..][..|p|] == p && s[at..][|p| + |sep|..] == rest;
    assert s[at..k + |sep|] == p + sep;
    forall j: nat | at <= j <= k ensures OccursAt(s, sep, j) <==> j == k {
      OccursInside(s, sep, at, k + |sep|, j - at);
    }
    hide OccursAt;
    FindIsLeftmost(s, sep, at, k);
  }

  lemma SliceOfTail(s: string, at: nat, i: nat, j: nat)
    requires at <= |s| && i <= j <= |s| - at
    ensures s[at..][i..j] == s[at + i..at + j]
  {
  }

  lemma {:induction false} AllNonEmpty(ps: seq<string>)
    requires forall p :: p in ps ==> p != []
    ensures NonEmpty(ps) == ps
  {
    if ps != [] {
      assert ps[0] in ps && forall p :: p in ps[1..] ==> p in ps;
      AllNonEmpty(ps[1..]);
      assert [ps[0]] + ps[1..] == ps;
    }
  }

  lemma {:induction false} NonEmptyKeeps(ps: seq<string>)
    ensures forall p :: p in NonEmpty(ps) <==> p in ps && p != []
  {
    if ps != [] {
      NonEmptyKeeps(ps[1..]);
      assert forall p :: p in ps <==> p == ps[0] || p in ps[1..];
    }
  }

  /** No token is empty or holds the separator. */
  lemma TokensAreFree(s: string, sep: string, t: string)
    requires sep != [] && t in Tokens(s, sep)
    ensures t != [] && Free(t, sep)
  {
    PiecesAreLeftmost(s, sep, 0);
    NonEmptyKeeps(Pieces(s, sep));
  }

  lemma JoinIsNonEmpty(ts: seq<string>, sep: string)
    requires ts != [] && ts[0] != []
    ensures Join(ts, sep) != []
  {
  }

  lemma CutAtCharacter(t: string, c: char)
    requires c !in t
    ensures EndsAtFirst(t, [c]) && Free(t, [c])
  {
    forall j: nat | j <= |t| ensures OccursAt(t + [c], [c], j) <==> j == |t| {
      assert (t + [c])[j..j + 1] == [(t + [c])[j]];
    }
    forall j: nat ensures !OccursAt(t, [c], j) {
      if j < |t| { assert t[j..j + 1] == [t[j]]; }
    }
  }

  /** With a one-character separator, splitting the join of tokens gives back the tokens. */
  lemma TokensOfJoin(ts: seq<string>, c: char)
    requires ts != [] && forall t :: t in ts ==> t != [] && c !in t
    ensures Tokens(Join(ts, [c]), [c]) == ts
  {
    forall i | 0 <= i < |ts| ensures EndsAtFirst(ts[i], [c]) && Free(ts[i], [c]) {
      assert ts[i] in ts;
      CutAtCharacter(ts[i], c);
    }
    assert ts[0] in ts;
    var s := Join(ts, [c]);
    assert s[0..] == s;
    hide EndsAtFirst, Free;
    SplitOfJoin(s, 0, ts, [c]);
    AllNonEmpty(ts);
    JoinIsNonEmpty(ts, [c]);
  }

  /** The list ts is ps without its empty parts: pos says where in ps they stand. */
  ghost predicate KeepsNonEmpty(ps: seq<string>, ts: seq<string>, pos: seq<nat>) {
    && |pos| == |ts|
    && (forall k :: 0 <= k < |pos| ==> pos[k] < |ps| && ts[k] == ps[pos[k]])
    && (forall j, k :: 0 <= j < k < |pos| ==> pos[j] < pos[k])
    && (forall i :: 0 <= i < |ps| ==> (i in pos <==> ps[i] != []))
  }

  lemma {:induction false} NonEmptyPlaces(ps: seq<string>) returns (pos: seq<nat>)
    ensures KeepsNonEmpty(ps, NonEmpty(ps), pos)
    decreases |ps|
  {
    pos := [];
    if ps != [] {
      var init, last := ps[..|ps| - 1], ps[|ps| - 1];
      pos := NonEmptyPlaces(init);
      NonEmptyOfLast(init, last);
      assert ps == init + [last];
      if last != [] {
        assert forall i :: i in pos + [|init|] <==> i in pos || i == |init|;
        pos := pos + [|init|];
      }
    }
  }

  lemma {:induction false} NonEmptyOfLast(ps: seq<string>, p: string)
    ensures NonEmpty(ps + [p]) == NonEmpty(ps) + (if p == [] then [] else [p])
  {
    if ps == [] {
      assert ps + [p] == [p] && [p][1..] == [];
    } else {
      assert (ps + [p])[0] == ps[0] && (ps + [p])[1..] == ps[1..] + [p];
      NonEmptyOfLast(ps[1..], p);
    }
  }

  /** What the tokens are: none of the empty string, the string itself if the separator is empty, and
      otherwise the non-empty parts, all of them and in order, of its leftmost cuts. */
  lemma TokensAre(s: string, sep: string) returns (ps: seq<string>, pos: seq<nat>)
    ensures s == "" ==> Tokens(s, sep) == []
    ensures s != "" && sep == "" ==> Tokens(s, sep) == [s]
    ensures s != "" && sep != "" ==>
              LeftmostCuts(ps, sep) && Join(ps, sep) == s && KeepsNonEmpty(ps, Tokens(s, sep), pos)
  {
    ps, pos := [], [];
    if s != "" && sep != "" {
      ps := Pieces(s, sep);
      PiecesAreLeftmost(s, sep, 0);
      assert s[0..] == s;
      hide LeftmostCuts, PiecesFrom, NonEmpty, KeepsNonEmpty;
      pos := NonEmptyPlaces(ps);
    }
  }

  // --------------------------------------------------------------- the method

  class StringVector {
    var items: seq<string>

    constructor ()
      ensures items == []
    {
      items := [];
    }

    method PushBack(s: string)
      modifies this
      ensures items == old(items) + [s]
    {
      items := items + [s];
    }
  }

  /** The C library's strstr on the tail of s that starts at i. */
  method Strstr(s: string, i: nat, sep: string) returns (p: Option<nat>)
    requires i <= |s|
    ensures p == Find(s, sep, i)
  {
    var j := i;
    while j < |s| && !OccursAt(s, sep, j)
      invariant i <= j <= |s|
      invariant Find(s, sep, j) == Find(s, sep, i)
    {
      j := j + 1;
    }
    p := if OccursAt(s, sep, j) then Some(j) else None;
  }

  method StrSplit(src: string, sep: string, out: StringVector)
    modifies out
    ensures out.items == old(out.items) + Tokens(src, sep)
  {
    var len1, len2 := |src|, |sep|;
    if len1 <= 0 { return; }
    if len2 <= 0 {
      out.PushBack(src);
      return;
    }
    ghost var goal := out.items + Tokens(src, sep);
    AllPending(out.items, src, sep);
    var at, more := 0, true;
    hide *;
    while more
      invariant at <= len1 && (more ==> at < len1)
      invariant if more then Pending(out.items, PiecesFrom(src, sep, at), goal) else out.items == goal
      decreases len1 - at, more
    {
      at, more := SplitOnce(src, sep, out, at, goal);
    }
  }

  /** One turn of the loop: the piece that starts at at, and where the next one starts, if there is one. */
  method SplitOnce(src: string, sep: string, out: StringVector, at: nat, ghost goal: seq<string>)
    returns (next: nat, more: bool)
    requires sep != [] && at < |src| && Pending(out.items, PiecesFrom(src, sep, at), goal)
    modifies out
    ensures if more then at < next < |src| && Pending(out.items, PiecesFrom(src, sep, next), goal)
            else next == at && out.items == goal
  {
    hide Pending, NonEmpty, PiecesFrom, Find, OccursAt;
    next, more := at, false;
    var found := Strstr(src, at, sep);
    PiecesUnroll(src, sep, at);
    FoundInside(src, sep, at);
    if found.Some? {
      var p := found.value;
      var one := src[at..p];
      PushedNext(out.items, one, PiecesFrom(src, sep, p + |sep|), goal);
      if |one| > 0 { out.PushBack(one); }
      p := p + |sep|;
      if p >= |src| {
        NothingLeft(out.items, src, sep, goal);
        return;
      }
      next, more := p, true;
    } else {
      PushedLast(out.items, src[at..], goal);
      out.PushBack(src[at..]);
    }
  }

  lemma FoundInside(s: string, sep: string, at: nat)
    requires at <= |s|
    ensures Find(s, sep, at).Some? ==> at <= Find(s, sep, at).value <= |s| - |sep|
  {
  }

  lemma AllPending(items: seq<string>, s: string, sep: string)
    requires s != [] && sep != []
    ensures Pending(items, PiecesFrom(s, sep, 0), items + Tokens(s, sep))
  {
  }

  /** The list becomes the goal when the non-empty ones of the pieces are pushed. */
  ghost predicate Pending(items: seq<string>, ps: seq<string>, goal: seq<string>) {
    items + NonEmpty(ps) == goal
  }

  lemma PiecesUnroll(s: string, sep: string, at: nat)
    requires sep != [] && at <= |s|
    ensures Find(s, sep, at) == None ==> PiecesFrom(s, sep, at) == [s[at..]]
    ensures Find(s, sep, at).Some? ==>
              var k := Find(s, sep, at).value;
              PiecesFrom(s, sep, at) == [s[at..k]] + PiecesFrom(s, sep, k + |sep|)
  {
  }

  /** Pushing a piece unless it is empty, before the tokens of the pieces after it. */
  lemma PushedNext(items: seq<string>, one: string, ps: seq<string>, goal: seq<string>)
    requires Pending(items, [one] + ps, goal)
    ensures Pending(if one == [] then items else items + [one], ps, goal)
  {
    assert ([one] + ps)[1..] == ps;
  }

  lemma PushedLast(items: seq<string>, one: string, goal: seq<string>)
    requires one != [] && Pending(items, [one], goal)
    ensures items + [one] == goal
  {
    assert [one][1..] == [] && NonEmpty([one]) == [one];
  }

  lemma NothingLeft(items: seq<string>, s: string, sep: string, goal: seq<string>)
    requires sep != [] && Pending(items, PiecesFrom(s, sep, |s|), goal)
    ensures items == goal
  {
    assert Find(s, sep, |s|) == None && s[|s|..] == [];
    assert [s[|s|..]][1..] == [] && NonEmpty([s[|s|..]]) == [];
    assert items + [] == items;
  }
}
