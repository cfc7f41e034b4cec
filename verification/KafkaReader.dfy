/**
 The reader of the binlog topic as a state machine. The Kafka client is an environment: a log
 for every partition, a next offset in each, and scripts that say what its calls return. A
 script may end anywhere, so that a run is any finite beginning of any execution.
 */
module KafkaReader {
  import opened Wire

  /** The position of a partition nothing was consumed from. */
  const OFFSET_INVALID: int := -1001

  datatype Message = Message(key: Option<string>, payload: Bytes)

  datatype ErrorCode =
    | ERR_NO_ERROR | ERR__TIMED_OUT | ERR__PARTITION_EOF | ERR__UNKNOWN_PARTITION | ERR__FAIL

  /** What consume may come back with. A timeout also says whether position will answer. */
  datatype Event =
    | Timeout(positionKnown: bool)
    | Delivery(partition: nat)
    | PartitionEof
    | UnknownTopic
    | UnknownPartition
    | OtherError

  /** What the client answers one fillOffset: the first or the second assignment call fails, no
      partition is assigned yet, or all are and each watermark query gives a mark or fails. */
  datatype Fill = Refused | RefusedAgain | Unassigned | Assigned(highs: seq<Option<nat>>)

  /** The logs, and where in each the run starts. */
  datatype World = World(logs: seq<seq<Message>>, start: seq<nat>)

  datatype Consumed = Consumed(partition: nat, offset: nat, message: Message)

  datatype State = State(
    next: seq<nat>,
    trace: seq<Consumed>,
    events: seq<Event>,
    fills: seq<Fill>,
    logOffset: seq<int>,
    readOffset: seq<int>)

  predicate Within(w: World, at: seq<nat>) {
    |at| == |w.logs| && forall p :: 0 <= p < |at| ==> at[p] <= |w.logs[p]|
  }

  /** What was consumed leads from the start to the next offsets, one message after another, and
      the snapshot of the watermarks is of all partitions or not taken. */
  ghost predicate Valid(w: World, s: State) {
    && Within(w, w.start) && Within(w, s.next)
    && Advance(w, w.start, s.trace) == Some(s.next)
    && (s.logOffset != [] ==> |s.logOffset| == |s.readOffset| == |w.logs|)
  }

  function Started(w: World, events: seq<Event>, fills: seq<Fill>): State {
    State(w.start, [], events, fills, [], [])
  }

  // --------------------------------------------------------- the environment

  /** The next offsets after a trace, if each step takes the message its partition is at. */
  function Advance(w: World, at: seq<nat>, tr: seq<Consumed>): Option<seq<nat>> {
    if tr == [] then Some(at)
    else
      match Advance(w, at, tr[..|tr| - 1])
      case None => None
      case Some(mid) =>
        var c := tr[|tr| - 1];
        if c.partition < |mid| == |w.logs| && c.offset == mid[c.partition] < |w.logs[c.partition]|
           && c.message == w.logs[c.partition][c.offset]
        then Some(mid[c.partition := c.offset + 1])
        else None
  }

  datatype Polled = Horizon | Failure(event: Event) | Got(message: Message)

  /** A delivery from a partition with nothing left is a timeout. */
  function Consume(w: World, s: State): (Polled, State)
    requires Within(w, s.next)
  {
    if s.events == [] then (Horizon, s)
    else
      var s1 := s.(events := s.events[1..]);
      match s.events[0]
      case Delivery(p) =>
        if p < |w.logs| && s.next[p] < |w.logs[p]| then
          var m := w.logs[p][s.next[p]];
          (Got(m), s1.(next := s.next[p := s.next[p] + 1], trace := s.trace + [Consumed(p, s.next[p], m)]))
        else (Failure(Timeout(true)), s1)
      case e => (Failure(e), s1)
  }

  /** The offsets position reports. */
  function Positions(start: seq<nat>, next: seq<nat>): (r: seq<int>)
    requires |start| == |next|
    ensures |r| == |next|
    ensures forall p :: 0 <= p < |r| ==> r[p] == if next[p] == start[p] then OFFSET_INVALID else next[p]
  {
    seq(|next|, p requires 0 <= p < |next| => if next[p] == start[p] then OFFSET_INVALID else next[p])
  }

  function Invalid(n: nat): (r: seq<int>)
    ensures |r| == n && forall i :: 0 <= i < n ==> r[i] == OFFSET_INVALID
  {
    seq(n, _ => OFFSET_INVALID)
  }

  /** The marks of the first queries, up to one that fails; nothing is set from there on. */
  function Snapshot(n: nat, highs: seq<Option<nat>>): (r: seq<int>)
    ensures |r| == n
  {
    if n > 0 && highs != [] && highs[0].Some? then [highs[0].value] + Snapshot(n - 1, highs[1..])
    else Invalid(n)
  }

  // -------------------------------------------------------------- the reader

  function FillOffset(w: World, s: State): State {
    if s.logOffset != [] then s
    else
      var s1 := s.(fills := if s.fills == [] then [] else s.fills[1..]);
      match (if s.fills == [] then Refused else s.fills[0])
      case Refused => s1
      case RefusedAgain => s1.(readOffset := Invalid(|w.logs|))
      case Unassigned => s1.(readOffset := [])
      case Assigned(highs) =>
        s1.(readOffset := Invalid(|w.logs|), logOffset := Snapshot(|w.logs|, highs))
  }

  predicate Wanted(filter: seq<string>, m: Message) {
    m.key.Some? && (filter == [] || m.key.value in filter)
  }

  /** Every partition something was consumed from is at its watermark. */
  predicate ReadOver(readOffset: seq<int>, logOffset: seq<int>)
    requires |readOffset| == |logOffset|
  {
    forall i :: 0 <= i < |logOffset| ==> readOffset[i] <= OFFSET_INVALID || readOffset[i] >= logOffset[i]
  }

  /** What one turn of the loop in Read does: it returns a code, or the loop goes on. No code if
      the script ends there. */
  datatype Turn =
    | Ends(after: State, ret: Option<ErrorCode>, msg: Bytes)
    | GoesOn(after: State)

  function OnMessage(s: State, m: Message, filter: seq<string>): Turn {
    if m.key.None? then Ends(s, Some(ERR__FAIL), [])
    else if Wanted(filter, m) then Ends(s, Some(ERR_NO_ERROR), m.payload)
    else GoesOn(s)
  }

  function OnTimeout(w: World, s: State, positionKnown: bool): Turn
    requires Valid(w, s)
  {
    if s.logOffset == [] then GoesOn(FillOffset(w, s))
    else if !positionKnown then Ends(s, Some(ERR__FAIL), [])
    else
      var s1 := s.(readOffset := Positions(w.start, s.next));
      if ReadOver(s1.readOffset, s1.logOffset) then Ends(s1, Some(ERR__TIMED_OUT), []) else GoesOn(s1)
  }

  function TakeTurn(w: World, s: State, filter: seq<string>): Turn
    requires Valid(w, s)
  {
    ConsumeKeepsValid(w, s);
    var (polled, s1) := Consume(w, s);
    match polled
    case Horizon => Ends(s1, None, [])
    case Got(m) => OnMessage(FillOffset(w, s1), m, filter)
    case Failure(Timeout(positionKnown)) => OnTimeout(w, s1, positionKnown)
    case Failure(PartitionEof) => Ends(s1, Some(ERR__PARTITION_EOF), [])
    case Failure(UnknownTopic) => Ends(s1, Some(ERR__UNKNOWN_PARTITION), [])
    case Failure(UnknownPartition) => Ends(s1, Some(ERR__UNKNOWN_PARTITION), [])
    case Failure(_) => Ends(s1, Some(ERR__FAIL), [])
  }

  /** One call of Read: the state after it, the code it returns and the message it hands over. */
  function ReadFrom(w: World, s: State, filter: seq<string>): (State, Option<ErrorCode>, Bytes)
    requires Valid(w, s)
  {
    FillKeepsValid(w, s);
    ReadOn(w, FillOffset(w, s), filter)
  }

  function ReadOn(w: World, s: State, filter: seq<string>): (State, Option<ErrorCode>, Bytes)
    requires Valid(w, s)
    decreases |s.events|
  {
    TurnKeeps(w, s, filter);
    match TakeTurn(w, s, filter)
    case Ends(s1, ret, msg) => (s1, ret, msg)
    case GoesOn(s1) => ReadOn(w, s1, filter)
  }

  lemma FillKeepsValid(w: World, s: State)
    requires Valid(w, s)
    ensures Valid(w, FillOffset(w, s))
    ensures FillOffset(w, s).trace == s.trace && FillOffset(w, s).events == s.events
    ensures s.logOffset != [] ==> FillOffset(w, s) == s
  {
  }

  lemma PositionsKeepValid(w: World, s: State)
    requires Valid(w, s)
    ensures s.logOffset != [] ==> Valid(w, s.(readOffset := Positions(w.start, s.next)))
  {
  }

  /** Taking the next message of a partition is one more step of the trace. */
  lemma DeliveryAdvances(w: World, s: State, p: nat)
    requires Valid(w, s) && p < |w.logs| && s.next[p] < |w.logs[p]|
    ensures var c := Consumed(p, s.next[p], w.logs[p][s.next[p]]);
            Advance(w, w.start, s.trace + [c]) == Some(s.next[p := s.next[p] + 1])
  {
    var tr := s.trace + [Consumed(p, s.next[p], w.logs[p][s.next[p]])];
    assert tr[..|tr| - 1] == s.trace;
  }

  lemma ConsumeKeepsValid(w: World, s: State)
    requires Valid(w, s)
    ensures Valid(w, Consume(w, s).1)
    ensures Consume(w, s).1.logOffset == s.logOffset && s.trace <= Consume(w, s).1.trace
    ensures if s.events == [] then Consume(w, s) == (Horizon, s)
            else !Consume(w, s).0.Horizon? && |Consume(w, s).1.events| < |s.events|
  {
    if Consume(w, s).0.Got? { DeliveryAdvances(w, s, s.events[0].partition); }
    hide Advance;
  }

  // ------------------------------------------------------- what one read does

  /** What was consumed between two states of a run. */
  function Since(s: State, s1: State): seq<Consumed>
    requires |s.trace| <= |s1.trace|
  {
    s1.trace[|s.trace|..]
  }

  /** The payloads a filter lets through, in order. */
  function Payloads(filter: seq<string>, tr: seq<Consumed>): seq<Bytes> {
    if tr == [] then []
    else
      var m := tr[|tr| - 1].message;
      Payloads(filter, tr[..|tr| - 1]) + (if Wanted(filter, m) then [m.payload] else [])
  }

  ghost predicate Keyed(tr: seq<Consumed>) {
    forall i :: 0 <= i < |tr| ==> tr[i].message.key.Some?
  }

  /** Only the last message consumed may lack a key, and then the read fails. */
  ghost predicate KeyedUntil(tr: seq<Consumed>, ret: Option<ErrorCode>) {
    Keyed(tr) || (ret == Some(ERR__FAIL) && tr != [] && Keyed(tr[..|tr| - 1]) && tr[|tr| - 1].message.key.None?)
  }

  lemma TimeoutKeeps(w: World, s: State, positionKnown: bool)
    requires Valid(w, s)
    ensures var turn := OnTimeout(w, s, positionKnown); var s1 := turn.after;
            && Valid(w, s1) && s1.trace == s.trace && s1.events == s.events
            && (s.logOffset != [] ==> s1.logOffset == s.logOffset)
            && (turn.Ends? ==> turn.msg == [] && turn.ret in {Some(ERR__FAIL), Some(ERR__TIMED_OUT)})
  {
    FillKeepsValid(w, s);
    PositionsKeepValid(w, s);
    hide FillOffset, Advance, ReadOver;
  }

  /** One turn uses up an event, goes on from where the reader was and keeps the snapshot. */
  lemma TurnKeeps(w: World, s: State, filter: seq<string>)
    requires Valid(w, s)
    ensures var s1 := TakeTurn(w, s, filter).after;
            && Valid(w, s1) && s.trace <= s1.trace
            && (s.logOffset != [] ==> s1.logOffset == s.logOffset)
            && (|s1.events| < |s.events| || (s.events == [] && TakeTurn(w, s, filter) == Ends(s, None, [])))
            && (TakeTurn(w, s, filter).Ends? && TakeTurn(w, s, filter).ret.None? ==> s.events == [])
  {
    ConsumeKeepsValid(w, s);
    var (polled, s1) := Consume(w, s);
    FillKeepsValid(w, s1);
    if polled.Failure? && polled.event.Timeout? { TimeoutKeeps(w, s1, polled.event.positionKnown); }
    hide Consume, FillOffset, Valid, OnTimeout, Wanted;
  }

  lemma ConsumeExplained(w: World, s: State, filter: seq<string>)
    requires Valid(w, s)
    ensures var (polled, s1) := Consume(w, s);
            && s.trace <= s1.trace
            && Payloads(filter, Since(s, s1))
            == (if polled.Got? && Wanted(filter, polled.message) then [polled.message.payload] else [])
            && (if polled.Got? && polled.message.key.None? then KeyedUntil(Since(s, s1), Some(ERR__FAIL))
                else Keyed(Since(s, s1)))
  {
    var (polled, s1) := Consume(w, s);
    NoPayload(filter);
    if polled.Got? {
      var c := s1.trace[|s.trace|];
      assert Since(s, s1) == [c];
      OnePayload(filter, c);
    } else {
      assert Since(s, s1) == [];
    }
  }

  lemma TurnExplained(w: World, s: State, filter: seq<string>)
    requires Valid(w, s)
    ensures var turn := TakeTurn(w, s, filter);
            && s.trace <= turn.after.trace
            && (turn.Ends? ==>
                  && KeyedUntil(Since(s, turn.after), turn.ret)
                  && Payloads(filter, Since(s, turn.after))
                  == (if turn.ret == Some(ERR_NO_ERROR) then [turn.msg] else []))
            && (turn.GoesOn? ==> Keyed(Since(s, turn.after)) && Payloads(filter, Since(s, turn.after)) == [])
  {
    ConsumeKeepsValid(w, s);
    ConsumeExplained(w, s, filter);
    var (polled, s1) := Consume(w, s);
    if polled.Failure? && polled.event.Timeout? { TimeoutKeeps(w, s1, polled.event.positionKnown); }
    FillKeepsValid(w, s1);
    hide Valid, Consume, OnTimeout, FillOffset, Payloads, Wanted, Keyed;
  }

  /** A read goes on from where it was, takes the snapshot at most once and uses up events. */
  lemma {:induction false} ReadKeeps(w: World, s: State, filter: seq<string>)
    requires Valid(w, s)
    ensures var (s1, ret, _) := ReadOn(w, s, filter);
            && Valid(w, s1) && s.trace <= s1.trace
            && (s.logOffset != [] ==> s1.logOffset == s.logOffset)
            && (ret.Some? ==> |s1.events| < |s.events|)
            && (ret.None? ==> s1.events == [])
    decreases |s.events|
  {
    hide TakeTurn, Valid;
    TurnKeeps(w, s, filter);
    var turn := TakeTurn(w, s, filter);
    if turn.GoesOn? { ReadKeeps(w, turn.after, filter); }
  }

  /** A read hands over a message exactly when it returns ERR_NO_ERROR: the only one it consumed
      that passes the filter. A message without a key ends it with ERR__FAIL. */
  lemma {:induction false} ReadExplained(w: World, s: State, filter: seq<string>)
    requires Valid(w, s)
    ensures var (s1, ret, msg) := ReadOn(w, s, filter);
            && s.trace <= s1.trace
            && KeyedUntil(Since(s, s1), ret)
            && Payloads(filter, Since(s, s1)) == (if ret == Some(ERR_NO_ERROR) then [msg] else [])
    decreases |s.events|
  {
    hide TakeTurn, Valid, Payloads, KeyedUntil, Keyed;
    TurnKeeps(w, s, filter);
    TurnExplained(w, s, filter);
    var turn := TakeTurn(w, s, filter);
    if turn.GoesOn? {
      var s1 := turn.after;
      var (s2, ret, _) := ReadOn(w, s1, filter);
      ReadKeeps(w, s1, filter);
      ReadExplained(w, s1, filter);
      assert Since(s, s2) == Since(s, s1) + Since(s1, s2);
      PayloadsConcat(filter, Since(s, s1), Since(s1, s2));
      KeyedConcat(Since(s, s1), Since(s1, s2), ret);
      assert [] + Payloads(filter, Since(s1, s2)) == Payloads(filter, Since(s1, s2));
    }
  }

  /** The same of a whole call, which may take the snapshot first. */
  lemma CallExplained(w: World, s: State, filter: seq<string>)
    requires Valid(w, s)
    ensures var (s1, ret, msg) := ReadFrom(w, s, filter);
            && Valid(w, s1) && s.trace <= s1.trace
            && (s.logOffset != [] ==> s1.logOffset == s.logOffset)
            && (ret.Some? ==> |s1.events| < |s.events|)
            && KeyedUntil(Since(s, s1), ret)
            && Payloads(filter, Since(s, s1)) == (if ret == Some(ERR_NO_ERROR) then [msg] else [])
  {
    FillKeepsValid(w, s);
    var s0 := FillOffset(w, s);
    hide FillOffset, ReadOn, Valid, Payloads, Keyed, KeyedUntil;
    ReadKeeps(w, s0, filter);
    ReadExplained(w, s0, filter);
  }

  lemma SinceSplits(s: State, s1: State, s2: State)
    requires s.trace <= s1.trace <= s2.trace
    ensures Since(s, s2) == Since(s, s1) + Since(s1, s2)
  {
  }

  lemma KeyedConcat(a: seq<Consumed>, b: seq<Consumed>, ret: Option<ErrorCode>)
    requires Keyed(a) && KeyedUntil(b, ret)
    ensures KeyedUntil(a + b, ret)
  {
    if b != [] { assert (a + b)[..|a + b| - 1] == a + b[..|b| - 1]; }
  }

  lemma NoPayload(filter: seq<string>)
    ensures Payloads(filter, []) == []
  {
  }

  lemma OnePayload(filter: seq<string>, c: Consumed)
    ensures Payloads(filter, [c]) == if Wanted(filter, c.message) then [c.message.payload] else []
  {
    assert [c][..0] == [];
  }

  lemma {:induction false} PayloadsConcat(filter: seq<string>, a: seq<Consumed>, b: seq<Consumed>)
    ensures Payloads(filter, a + b) == Payloads(filter, a) + Payloads(filter, b)
  {
    if b == [] {
      assert a + b == a;
    } else {
      assert (a + b)[..|a + b| - 1] == a + b[..|b| - 1];
      PayloadsConcat(filter, a, b[..|b| - 1]);
    }
  }

  // ----------------------------------------------------- one partition's view

  function From(p: nat, tr: seq<Consumed>): seq<Consumed> {
    if tr == [] then []
    else From(p, tr[..|tr| - 1]) + (if tr[|tr| - 1].partition == p then [tr[|tr| - 1]] else [])
  }

  /** The payloads of a stretch of a log that a filter lets through. */
  function Selected(filter: seq<string>, ms: seq<Message>): seq<Bytes> {
    if ms == [] then []
    else Selected(filter, ms[..|ms| - 1]) + (if Wanted(filter, ms[|ms| - 1]) then [ms[|ms| - 1].payload] else [])
  }

  lemma {:induction false} SelectedConcat(filter: seq<string>, a: seq<Message>, b: seq<Message>)
    ensures Selected(filter, a + b) == Selected(filter, a) + Selected(filter, b)
  {
    if b == [] {
      assert a + b == a;
    } else {
      assert (a + b)[..|a + b| - 1] == a + b[..|b| - 1];
      SelectedConcat(filter, a, b[..|b| - 1]);
    }
  }

  lemma SelectedJoins(filter: seq<string>, log: seq<Message>, a: nat, b: nat, c: nat)
    requires a <= b <= c <= |log|
    ensures Selected(filter, log[a..c]) == Selected(filter, log[a..b]) + Selected(filter, log[b..c])
  {
    assert log[a..c] == log[a..b] + log[b..c];
    SelectedConcat(filter, log[a..b], log[b..c]);
  }

  lemma {:induction false} AdvanceConcat(w: World, at: seq<nat>, a: seq<Consumed>, b: seq<Consumed>)
    ensures Advance(w, at, a + b) == match Advance(w, at, a)
                                     case None => None
                                     case Some(mid) => Advance(w, mid, b)
  {
    if b == [] {
      assert a + b == a;
    } else {
      assert (a + b)[..|a + b| - 1] == a + b[..|b| - 1];
      AdvanceConcat(w, at, a, b[..|b| - 1]);
    }
  }

  lemma SinceAdvances(w: World, s: State, s1: State)
    requires Valid(w, s) && Valid(w, s1) && s.trace <= s1.trace
    ensures Advance(w, s.next, Since(s, s1)) == Some(s1.next)
  {
    assert s1.trace == s.trace + Since(s, s1);
    AdvanceConcat(w, w.start, s.trace, Since(s, s1));
  }

  lemma {:induction false} PayloadsAreSelected(filter: seq<string>, tr: seq<Consumed>, ms: seq<Message>)
    requires |tr| == |ms| && forall i :: 0 <= i < |tr| ==> tr[i].message == ms[i]
    ensures Payloads(filter, tr) == Selected(filter, ms)
  {
    if tr != [] { PayloadsAreSelected(filter, tr[..|tr| - 1], ms[..|ms| - 1]); }
  }

  /** What was consumed from a partition is a stretch of its log, in order, each message once. */
  lemma {:induction false} ConsumedIsSlice(w: World, at: seq<nat>, tr: seq<Consumed>, to: seq<nat>, p: nat)
    requires Within(w, at) && Advance(w, at, tr) == Some(to) && p < |at|
    ensures Within(w, to) && at[p] <= to[p]
    ensures |From(p, tr)| == to[p] - at[p]
    ensures forall i :: 0 <= i < |From(p, tr)| ==> From(p, tr)[i] == Consumed(p, at[p] + i, w.logs[p][at[p] + i])
  {
    if tr != [] {
      var init, c := tr[..|tr| - 1], tr[|tr| - 1];
      var mid := Advance(w, at, init).value;
      ConsumedIsSlice(w, at, init, mid, p);
      assert to == mid[c.partition := c.offset + 1] && c.message == w.logs[c.partition][c.offset];
      assert From(p, tr) == From(p, init) + (if c.partition == p then [c] else []);
      hide Advance, From;
    }
  }

  lemma DeliveredIsSelected(w: World, at: seq<nat>, tr: seq<Consumed>, to: seq<nat>, p: nat, filter: seq<string>)
    requires Within(w, at) && Advance(w, at, tr) == Some(to) && p < |at|
    ensures Within(w, to) && at[p] <= to[p]
    ensures Payloads(filter, From(p, tr)) == Selected(filter, w.logs[p][at[p]..to[p]])
  {
    ConsumedIsSlice(w, at, tr, to, p);
    hide Advance, From;
    PayloadsAreSelected(filter, From(p, tr), w.logs[p][at[p]..to[p]]);
  }

  // -------------------------------------------------------------- whole runs

  datatype End = Interrupted | Cut | Stopped(code: ErrorCode)

  /** The loop of the main program: reads until the interrupt, which comes after the given number
      of calls, or an error, or a timeout outside wait mode. The payloads are those printed. */
  function Run(w: World, s: State, filter: seq<string>, waitMode: bool, calls: nat): (State, seq<Bytes>, End)
    requires Valid(w, s)
    decreases calls
  {
    if calls == 0 then (s, [], Interrupted)
    else
      CallExplained(w, s, filter);
      var (s1, ret, msg) := ReadFrom(w, s, filter);
      match ret
      case None => (s1, [], Cut)
      case Some(ERR_NO_ERROR) =>
        var (s2, out, end) := Run(w, s1, filter, waitMode, calls - 1);
        (s2, [msg] + out, end)
      case Some(ERR__TIMED_OUT) =>
        if waitMode then Run(w, s1, filter, waitMode, calls - 1) else (s1, [], Stopped(ERR__TIMED_OUT))
      case Some(code) => (s1, [], Stopped(code))
  }

  /** Over any run the payloads handed over are those of the consumed messages that pass the
      filter, in the order they were consumed, each once. */
  lemma {:induction false} RunDelivers(w: World, s: State, filter: seq<string>, waitMode: bool, calls: nat)
    requires Valid(w, s)
    ensures var (s1, out, end) := Run(w, s, filter, waitMode, calls);
            && Valid(w, s1) && s.trace <= s1.trace
            && out == Payloads(filter, Since(s, s1))
            && KeyedUntil(Since(s, s1), if end.Stopped? then Some(end.code) else None)
            && (s.logOffset != [] ==> s1.logOffset == s.logOffset)
    decreases calls
  {
    hide Valid, Payloads, KeyedUntil, Keyed, ReadFrom, Since;
    if calls == 0 {
      NothingSince(s, filter);
    } else {
      CallExplained(w, s, filter);
      var (s1, ret, msg) := ReadFrom(w, s, filter);
      if ret == Some(ERR_NO_ERROR) || (ret == Some(ERR__TIMED_OUT) && waitMode) {
        RunDelivers(w, s1, filter, waitMode, calls - 1);
        var (s2, out, end) := Run(w, s1, filter, waitMode, calls - 1);
        SinceSplits(s, s1, s2);
        PayloadsConcat(filter, Since(s, s1), Since(s1, s2));
        KeyedUnlessFailed(Since(s, s1), ret);
        KeyedConcat(Since(s, s1), Since(s1, s2), if end.Stopped? then Some(end.code) else None);
        assert [] + out == out;
      } else {
        KeyedUntilCut(Since(s, s1), ret);
      }
    }
  }

  lemma NothingSince(s: State, filter: seq<string>)
    ensures KeyedUntil(Since(s, s), None) && Payloads(filter, Since(s, s)) == []
  {
    assert Since(s, s) == [];
  }

  lemma KeyedUnlessFailed(tr: seq<Consumed>, ret: Option<ErrorCode>)
    requires KeyedUntil(tr, ret) && ret != Some(ERR__FAIL)
    ensures Keyed(tr)
  {
  }

  lemma KeyedUntilCut(tr: seq<Consumed>, ret: Option<ErrorCode>)
    requires KeyedUntil(tr, ret)
    ensures ret == None ==> KeyedUntil(tr, None)
  {
  }

  /** Delivery safety: from every partition a run hands over exactly the consumed stretch of its
      log, filtered, and the run as a whole hands over these and nothing else. */
  lemma DeliverySafety(w: World, s: State, filter: seq<string>, waitMode: bool, calls: nat, p: nat)
    requires Valid(w, s) && p < |w.logs|
    ensures var (s1, out, _) := Run(w, s, filter, waitMode, calls);
            && s.trace <= s1.trace && |s1.next| == |s.next| == |w.logs|
            && s.next[p] <= s1.next[p] <= |w.logs[p]|
            && out == Payloads(filter, Since(s, s1))
            && Payloads(filter, From(p, Since(s, s1))) == Selected(filter, w.logs[p][s.next[p]..s1.next[p]])
  {
    RunDelivers(w, s, filter, waitMode, calls);
    var s1 := Run(w, s, filter, waitMode, calls).0;
    SinceAdvances(w, s, s1);
    DeliveredIsSelected(w, s.next, Since(s, s1), s1.next, p, filter);
  }

  /** Everything the environment decides about one execution of the program. */
  datatype Script = Script(events: seq<Event>, fills: seq<Fill>, waitMode: bool, calls: nat)

  /** An execution from its start: the last state, the payloads handed over, and how it ended. */
  function Execute(w: World, script: Script, filter: seq<string>): (State, seq<Bytes>, End)
    requires Within(w, w.start)
  {
    Run(w, Started(w, script.events, script.fills), filter, script.waitMode, script.calls)
  }

  /** The part of what was handed over that came from partition p. */
  function Share(filter: seq<string>, p: nat, s: State): seq<Bytes> { Payloads(filter, From(p, s.trace)) }

  lemma ExecuteRuns(w: World, script: Script, filter: seq<string>)
    requires Within(w, w.start)
    ensures var (s, out, end) := Execute(w, script, filter);
            && Valid(w, s) && out == Payloads(filter, s.trace)
            && KeyedUntil(s.trace, if end.Stopped? then Some(end.code) else None)
  {
    var s0 := Started(w, script.events, script.fills);
    RunDelivers(w, s0, filter, script.waitMode, script.calls);
    hide Run, Advance, Payloads, KeyedUntil;
    assert Since(s0, Execute(w, script, filter).0) == Execute(w, script, filter).0.trace;
  }

  lemma ExecuteDelivers(w: World, script: Script, filter: seq<string>, p: nat)
    requires Within(w, w.start) && p < |w.logs|
    ensures var (s, out, end) := Execute(w, script, filter);
            && Valid(w, s) && w.start[p] <= s.next[p]
            && out == Payloads(filter, s.trace)
            && KeyedUntil(s.trace, if end.Stopped? then Some(end.code) else None)
            && Share(filter, p, s) == Selected(filter, w.logs[p][w.start[p]..s.next[p]])
  {
    ExecuteRuns(w, script, filter);
    var s := Execute(w, script, filter).0;
    hide Execute, Payloads, Selected, KeyedUntil;
    DeliveredIsSelected(w, w.start, s.trace, s.next, p, filter);
  }

  // --------------------------------------------------------------------- keys

  /** What was consumed is what the partitions' stretches hold. */
  lemma {:induction false} ConsumedIsFrom(tr: seq<Consumed>, c: Consumed)
    ensures c in tr <==> c in From(c.partition, tr)
  {
    if tr != [] {
      ConsumedIsFrom(tr[..|tr| - 1], c);
      assert tr == tr[..|tr| - 1] + [tr[|tr| - 1]];
    }
  }

  lemma {:induction false} ConsumedIsWithin(w: World, at: seq<nat>, tr: seq<Consumed>, to: seq<nat>, c: Consumed)
    requires Within(w, at) && Advance(w, at, tr) == Some(to) && c in tr
    ensures c.partition < |w.logs|
  {
    var init := tr[..|tr| - 1];
    if c != tr[|tr| - 1] {
      assert c in init;
      ConsumedIsWithin(w, at, init, Advance(w, at, init).value, c);
    }
  }

  /** All consumed messages have keys exactly if all messages between start and end have. */
  lemma KeyedExactlyIf(w: World, at: seq<nat>, tr: seq<Consumed>, to: seq<nat>)
    requires Within(w, at) && Advance(w, at, tr) == Some(to)
    ensures Within(w, to)
    ensures Keyed(tr) <==>
            forall p, i :: 0 <= p < |w.logs| && at[p] <= i < to[p] ==> w.logs[p][i].key.Some?
  {
    AdvanceStaysWithin(w, at, tr, to);
    if Keyed(tr) {
      forall p, i | 0 <= p < |w.logs| && at[p] <= i < to[p] ensures w.logs[p][i].key.Some? {
        ConsumedIsSlice(w, at, tr, to, p);
        var c := From(p, tr)[i - at[p]];
        ConsumedIsFrom(tr, c);
      }
    }
    if forall p, i :: 0 <= p < |w.logs| && at[p] <= i < to[p] ==> w.logs[p][i].key.Some? {
      forall c | c in tr ensures c.message.key.Some? {
        ConsumedIsWithin(w, at, tr, to, c);
        ConsumedIsFrom(tr, c);
        ConsumedIsSlice(w, at, tr, to, c.partition);
      }
    }
  }

  lemma {:induction false} AdvanceStaysWithin(w: World, at: seq<nat>, tr: seq<Consumed>, to: seq<nat>)
    requires Within(w, at) && Advance(w, at, tr) == Some(to)
    ensures Within(w, to)
  {
    if tr != [] { AdvanceStaysWithin(w, at, tr[..|tr| - 1], Advance(w, at, tr[..|tr| - 1]).value); }
  }

  /** Nothing below the offsets an execution leaves is skipped for want of a key exactly if every
      message there has one. If one has none it is the last that was consumed, and the execution
      stopped on it with ERR__FAIL. */
  lemma SkipsExactlyIf(w: World, script: Script, filter: seq<string>)
    requires Within(w, w.start)
    ensures var (s, _, end) := Execute(w, script, filter);
            && Within(w, s.next)
            && (Keyed(s.trace) <==>
                forall p, i :: 0 <= p < |w.logs| && w.start[p] <= i < s.next[p] ==> w.logs[p][i].key.Some?)
            && (!Keyed(s.trace) ==>
                  && end == Stopped(ERR__FAIL) && s.trace != []
                  && Keyed(s.trace[..|s.trace| - 1]) && s.trace[|s.trace| - 1].message.key.None?)
  {
    ExecuteRuns(w, script, filter);
    var s := Execute(w, script, filter).0;
    hide Execute, Advance;
    KeyedExactlyIf(w, w.start, s.trace, s.next);
  }

  /** Nothing but deliveries from p is to come, and with all of them p gets to total. */
  ghost predicate OnlyDeliveries(p: nat, total: nat, s: State) {
    && (forall e :: e in s.events ==> e == Delivery(p))
    && p < |s.next| && s.next[p] + |s.events| == total
  }

  lemma TurnDelivers(w: World, s: State, filter: seq<string>, p: nat, total: nat)
    requires Valid(w, s) && OnlyDeliveries(p, total, s) && p < |w.logs| && total <= |w.logs[p]|
    ensures var turn := TakeTurn(w, s, filter);
            && OnlyDeliveries(p, total, turn.after)
            && (turn.Ends? && turn.ret.Some? && turn.ret != Some(ERR_NO_ERROR) ==> !Keyed(turn.after.trace))
  {
    if s.events != [] {
      assert s.events[0] in s.events && s.events[0] == Delivery(p);
      assert forall e :: e in s.events[1..] ==> e in s.events;
      var s1 := Consume(w, s).1;
      assert s1.trace[|s.trace|].message == w.logs[p][s.next[p]];
    }
    hide Advance, Snapshot, Wanted;
  }

  lemma {:induction false} ReadDelivers(w: World, s: State, filter: seq<string>, p: nat, total: nat)
    requires Valid(w, s) && OnlyDeliveries(p, total, s) && p < |w.logs| && total <= |w.logs[p]|
    ensures var (s1, ret, _) := ReadOn(w, s, filter);
            && OnlyDeliveries(p, total, s1)
            && (ret.Some? && ret != Some(ERR_NO_ERROR) ==> !Keyed(s1.trace))
    decreases |s.events|
  {
    TurnDelivers(w, s, filter, p, total);
    TurnKeeps(w, s, filter);
    hide TakeTurn, OnlyDeliveries, Keyed, Advance;
    var turn := TakeTurn(w, s, filter);
    if turn.GoesOn? { ReadDelivers(w, turn.after, filter, p, total); }
  }

  lemma CallDelivers(w: World, s: State, filter: seq<string>, p: nat, total: nat)
    requires Valid(w, s) && OnlyDeliveries(p, total, s) && p < |w.logs| && total <= |w.logs[p]|
    ensures var (s1, ret, _) := ReadFrom(w, s, filter);
            && OnlyDeliveries(p, total, s1)
            && (ret == None ==> s1.events == [])
            && (ret.Some? && ret != Some(ERR_NO_ERROR) ==> !Keyed(s1.trace))
  {
    FillKeepsValid(w, s);
    var s0 := FillOffset(w, s);
    assert OnlyDeliveries(p, total, s0);
    hide FillOffset, ReadOn, OnlyDeliveries, Keyed, Valid;
    ReadKeeps(w, s0, filter);
    ReadDelivers(w, s0, filter, p, total);
  }

  lemma RunUnrolls(w: World, s: State, filter: seq<string>, calls: nat)
    requires Valid(w, s) && calls > 0
    ensures var (s1, ret, _) := ReadFrom(w, s, filter);
            && Valid(w, s1)
            && (ret.Some? ==> |s1.events| < |s.events|)
            && Run(w, s, filter, false, calls).0
            == if ret == Some(ERR_NO_ERROR) then Run(w, s1, filter, false, calls - 1).0 else s1
  {
    CallExplained(w, s, filter);
    hide ReadFrom, Valid, KeyedUntil, Payloads, Since;
  }

  /** With calls enough, a run gets to total unless a message without a key stops it. */
  lemma {:induction false} RunReaches(w: World, s: State, filter: seq<string>, calls: nat, p: nat, total: nat)
    requires Valid(w, s) && OnlyDeliveries(p, total, s) && calls > |s.events|
    requires p < |w.logs| && total <= |w.logs[p]|
    ensures var s1 := Run(w, s, filter, false, calls).0;
            OnlyDeliveries(p, total, s1) && (s1.events == [] || !Keyed(s1.trace))
    decreases calls
  {
    hide *;
    RunUnrolls(w, s, filter, calls);
    CallDelivers(w, s, filter, p, total);
    var (s1, ret, _) := ReadFrom(w, s, filter);
    if ret == Some(ERR_NO_ERROR) { RunReaches(w, s1, filter, calls - 1, p, total); }
  }

  /** Whatever the client does, no message is skipped for want of a key, exactly if every message
      from the start on has one. */
  lemma NeverSkipsExactlyIf(w: World, filter: seq<string>)
    requires Within(w, w.start)
    ensures (forall script: Script :: Keyed(Execute(w, script, filter).0.trace)) <==>
            (forall p, i :: 0 <= p < |w.logs| && w.start[p] <= i < |w.logs[p]| ==> w.logs[p][i].key.Some?)
  {
    if forall script: Script :: Keyed(Execute(w, script, filter).0.trace) {
      forall p, i | 0 <= p < |w.logs| && w.start[p] <= i < |w.logs[p]| ensures w.logs[p][i].key.Some? {
        var n := i + 1 - w.start[p];
        var script := Script(seq(n, _ => Delivery(p)), [], false, n + 1);
        RunReaches(w, Started(w, script.events, []), filter, n + 1, p, i + 1);
        SkipsExactlyIf(w, script, filter);
        assert Keyed(Execute(w, script, filter).0.trace);
        hide Run, Keyed;
      }
    }
    if forall p, i :: 0 <= p < |w.logs| && w.start[p] <= i < |w.logs[p]| ==> w.logs[p][i].key.Some? {
      forall script: Script ensures Keyed(Execute(w, script, filter).0.trace) {
        SkipsExactlyIf(w, script, filter);
        hide Execute, Keyed;
      }
    }
  }

  // ---------------------------------------------------------------- snapshot

  /** The watermark query of partition p is made, and answered, exactly if all before it are. */
  predicate Answered(highs: seq<Option<nat>>, p: nat) {
    p < |highs| && forall j :: 0 <= j <= p ==> highs[j].Some?
  }

  /** The marks are the answers of the queries up to the first that fails, and unset from there on. */
  lemma {:induction false} SnapshotAnswers(n: nat, highs: seq<Option<nat>>, p: nat)
    requires p < n
    ensures (Snapshot(n, highs)[p] >= 0) <==> Answered(highs, p)
    ensures Snapshot(n, highs)[p] == if Answered(highs, p) then highs[p].value else OFFSET_INVALID
    decreases p
  {
    if highs != [] && highs[0].Some? && p > 0 {
      SnapshotAnswers(n - 1, highs[1..], p - 1);
      assert forall j :: 0 < j < |highs| ==> highs[1..][j - 1] == highs[j];
      if p < |highs| && forall j :: 0 <= j < p ==> highs[1..][j].Some? {
        assert forall j :: 0 < j <= p ==> highs[j] == highs[1..][j - 1];
      }
    }
  }

  /** The answers to the queries of the first fill that finds the partitions assigned. */
  function FirstAnswers(fills: seq<Fill>): Option<seq<Option<nat>>> {
    if fills == [] then None
    else if fills[0].Assigned? then Some(fills[0].highs)
    else FirstAnswers(fills[1..])
  }

  /** The marks are those of the first assignment of the script, or it is still to come. */
  ghost predicate FromScript(w: World, fills: seq<Fill>, s: State) {
    if s.logOffset == [] then w.logs != [] ==> FirstAnswers(s.fills) == FirstAnswers(fills)
    else FirstAnswers(fills).Some? && s.logOffset == Snapshot(|w.logs|, FirstAnswers(fills).value)
  }

  lemma FillFromScript(w: World, fills: seq<Fill>, s: State)
    requires FromScript(w, fills, s)
    ensures FromScript(w, fills, FillOffset(w, s))
  {
  }

  lemma TurnFromScript(w: World, fills: seq<Fill>, s: State, filter: seq<string>)
    requires Valid(w, s) && FromScript(w, fills, s)
    ensures FromScript(w, fills, TakeTurn(w, s, filter).after)
  {
    ConsumeKeepsValid(w, s);
    var s1 := Consume(w, s).1;
    assert FromScript(w, fills, s1);
    FillFromScript(w, fills, s1);
    assert s1.logOffset != [] ==> FromScript(w, fills, s1.(readOffset := Positions(w.start, s1.next)));
    hide Advance, FillOffset, Snapshot, FromScript, Wanted, ReadOver;
  }

  lemma {:induction false} ReadFromScript(w: World, fills: seq<Fill>, s: State, filter: seq<string>)
    requires Valid(w, s) && FromScript(w, fills, s)
    ensures FromScript(w, fills, ReadOn(w, s, filter).0)
    decreases |s.events|
  {
    hide TakeTurn, Valid, FromScript;
    TurnKeeps(w, s, filter);
    TurnFromScript(w, fills, s, filter);
    if TakeTurn(w, s, filter).GoesOn? { ReadFromScript(w, fills, TakeTurn(w, s, filter).after, filter); }
  }

  lemma {:induction false} RunFromScript(w: World, fills: seq<Fill>, s: State, filter: seq<string>,
                                         waitMode: bool, calls: nat)
    requires Valid(w, s) && FromScript(w, fills, s)
    ensures FromScript(w, fills, Run(w, s, filter, waitMode, calls).0)
    decreases calls
  {
    hide Valid, FromScript, ReadOn;
    if calls != 0 {
      CallExplained(w, s, filter);
      FillKeepsValid(w, s);
      FillFromScript(w, fills, s);
      ReadFromScript(w, fills, FillOffset(w, s), filter);
      var (s1, ret, _) := ReadFrom(w, s, filter);
      if ret == Some(ERR_NO_ERROR) || (ret == Some(ERR__TIMED_OUT) && waitMode) {
        RunFromScript(w, fills, s1, filter, waitMode, calls - 1);
      }
    }
  }

  /** The snapshot of an execution is that of the first fill that finds the partitions assigned. It
      is not taken again, whether or not the queries of that fill were answered. */
  lemma SnapshotIsTheFirst(w: World, script: Script, filter: seq<string>)
    requires Within(w, w.start)
    ensures var s := Execute(w, script, filter).0;
            s.logOffset != [] ==>
              && FirstAnswers(script.fills).Some?
              && s.logOffset == Snapshot(|w.logs|, FirstAnswers(script.fills).value)
  {
    RunFromScript(w, script.fills, Started(w, script.events, script.fills), filter, script.waitMode, script.calls);
  }

  // ------------------------------------------------------------------- drain

  /** Every partition something was consumed from is at or past its mark. */
  ghost predicate TouchedAreDrained(w: World, s: State) {
    |s.next| == |w.start| == |s.logOffset| &&
    forall p :: 0 <= p < |s.next| ==> s.next[p] == w.start[p] || s.next[p] >= s.logOffset[p]
  }

  /** A turn may end the read with ERR__TIMED_OUT in one situation only. */
  lemma TimesOutExactlyIf(w: World, s: State, filter: seq<string>)
    requires Valid(w, s)
    ensures var turn := TakeTurn(w, s, filter); var (polled, s1) := Consume(w, s);
            (turn.Ends? && turn.ret == Some(ERR__TIMED_OUT)) <==>
            (polled == Failure(Timeout(true)) && s1.logOffset != [] && TouchedAreDrained(w, s1))
  {
    ConsumeKeepsValid(w, s);
    hide Advance, Consume, FillOffset, Wanted;
    var (polled, s1) := Consume(w, s);
    if polled == Failure(Timeout(true)) && s1.logOffset != [] {
      var read := Positions(w.start, s1.next);
      assert ReadOver(read, s1.logOffset) <==> TouchedAreDrained(w, s1) by {
        assert forall p :: 0 <= p < |read| ==>
                 read[p] == if s1.next[p] == w.start[p] then OFFSET_INVALID else s1.next[p];
      }
    }
  }

  lemma TurnTimedOut(w: World, s: State, filter: seq<string>)
    requires Valid(w, s) && TakeTurn(w, s, filter).Ends? && TakeTurn(w, s, filter).ret == Some(ERR__TIMED_OUT)
    ensures var s1 := TakeTurn(w, s, filter).after; s1.logOffset != [] && TouchedAreDrained(w, s1)
  {
    TimesOutExactlyIf(w, s, filter);
    hide Advance, FillOffset, Wanted, TouchedAreDrained, ReadOver;
    ConsumeKeepsValid(w, s);
    var s1 := Consume(w, s).1;
    DrainedBut(w, s1, s1.(readOffset := Positions(w.start, s1.next)));
  }

  lemma DrainedBut(w: World, s: State, s1: State)
    requires s.next == s1.next && s.logOffset == s1.logOffset
    ensures TouchedAreDrained(w, s) ==> TouchedAreDrained(w, s1)
  {
  }

  lemma {:induction false} ReadTimedOut(w: World, s: State, filter: seq<string>)
    requires Valid(w, s) && ReadOn(w, s, filter).1 == Some(ERR__TIMED_OUT)
    ensures var s1 := ReadOn(w, s, filter).0; s1.logOffset != [] && TouchedAreDrained(w, s1)
    decreases |s.events|
  {
    hide TakeTurn, Valid, TouchedAreDrained;
    TurnKeeps(w, s, filter);
    var turn := TakeTurn(w, s, filter);
    if turn.GoesOn? { ReadTimedOut(w, turn.after, filter); } else { TurnTimedOut(w, s, filter); }
  }

  lemma {:induction false} RunTimedOut(w: World, s: State, filter: seq<string>, waitMode: bool, calls: nat)
    requires Valid(w, s) && Run(w, s, filter, waitMode, calls).2 == Stopped(ERR__TIMED_OUT)
    ensures !waitMode
    ensures var s1 := Run(w, s, filter, waitMode, calls).0; s1.logOffset != [] && TouchedAreDrained(w, s1)
    decreases calls
  {
    hide Valid, ReadOn, TouchedAreDrained;
    CallExplained(w, s, filter);
    FillKeepsValid(w, s);
    var (s1, ret, _) := ReadFrom(w, s, filter);
    if ret == Some(ERR_NO_ERROR) || (ret == Some(ERR__TIMED_OUT) && waitMode) {
      RunTimedOut(w, s1, filter, waitMode, calls - 1);
    } else {
      ReadTimedOut(w, FillOffset(w, s), filter);
    }
  }

  /** The marks an execution that timed out was measured against. */
  lemma TimedOutAgainstAnswers(w: World, script: Script, filter: seq<string>)
    requires Within(w, w.start)
    requires Execute(w, script, filter).2 == Stopped(ERR__TIMED_OUT)
    ensures var s := Execute(w, script, filter).0;
            && FirstAnswers(script.fills).Some? && |s.next| == |w.start| == |w.logs|
            && var highs := FirstAnswers(script.fills).value;
            forall p :: 0 <= p < |s.next| && s.next[p] != w.start[p] && Answered(highs, p) ==>
              s.next[p] >= highs[p].value
  {
    RunTimedOut(w, Started(w, script.events, script.fills), filter, script.waitMode, script.calls);
    SnapshotIsTheFirst(w, script, filter);
    RunDelivers(w, Started(w, script.events, script.fills), filter, script.waitMode, script.calls);
    var s, highs := Execute(w, script, filter).0, FirstAnswers(script.fills).value;
    hide Run, Advance, Answered, Snapshot;
    forall p | 0 <= p < |s.next| && s.next[p] != w.start[p] && Answered(highs, p)
      ensures s.next[p] >= highs[p].value
    {
      SnapshotAnswers(|w.logs|, highs, p);
    }
  }

  /** Drain completeness: when an execution stops with a timeout, a partition it consumed from and
      whose watermark was answered is consumed up to that watermark, and what of that passes the
      filter was handed over. */
  lemma DrainComplete(w: World, script: Script, filter: seq<string>, p: nat)
    requires Within(w, w.start) && p < |w.logs|
    requires Execute(w, script, filter).2 == Stopped(ERR__TIMED_OUT)
    ensures var (s, out, _) := Execute(w, script, filter);
            && |s.next| == |w.logs| && out == Payloads(filter, s.trace)
            && FirstAnswers(script.fills).Some?
            && var highs := FirstAnswers(script.fills).value;
            s.next[p] != w.start[p] && Answered(highs, p) ==>
              && highs[p].value <= s.next[p] <= |w.logs[p]|
              && (w.start[p] <= highs[p].value ==>
                    Selected(filter, w.logs[p][w.start[p]..highs[p].value]) <= Share(filter, p, s))
  {
    TimedOutAgainstAnswers(w, script, filter);
    ExecuteDelivers(w, script, filter, p);
    var s, highs := Execute(w, script, filter).0, FirstAnswers(script.fills).value;
    hide Execute, Share, FirstAnswers;
    if s.next[p] != w.start[p] && Answered(highs, p) && w.start[p] <= highs[p].value {
      SelectedJoins(filter, w.logs[p], w.start[p], highs[p].value, s.next[p]);
    }
  }

  /** A timeout means that every partition is drained exactly if every watermark query was answered
      and each partition that was never consumed from had nothing to give. A partition whose query
      failed, or from which nothing was fetched yet, does not keep a read from timing out. */
  lemma DrainedExactlyIf(w: World, script: Script, filter: seq<string>)
    requires Within(w, w.start)
    requires Execute(w, script, filter).2 == Stopped(ERR__TIMED_OUT)
    ensures var s := Execute(w, script, filter).0;
            && FirstAnswers(script.fills).Some? && |s.next| == |w.start| == |w.logs|
            && var highs := FirstAnswers(script.fills).value;
            (forall p :: 0 <= p < |s.next| ==> p < |highs| && highs[p].Some? && s.next[p] >= highs[p].value)
            <==>
            (&& |w.logs| <= |highs|
             && (forall p :: 0 <= p < |w.logs| ==> highs[p].Some?)
             && (forall p :: 0 <= p < |s.next| && s.next[p] == w.start[p] ==> w.start[p] >= highs[p].value))
  {
    TimedOutAgainstAnswers(w, script, filter);
    var s, highs := Execute(w, script, filter).0, FirstAnswers(script.fills).value;
    hide Execute, FirstAnswers;
    if |w.logs| > |highs| {
      assert s.next[|highs|] >= 0;
    } else if forall p :: 0 <= p < |w.logs| ==> highs[p].Some? {
      assert forall p :: 0 <= p < |w.logs| ==> Answered(highs, p);
    }
  }

  // ------------------------------------------------------------------ resume

  /** What the group starts from after commitSync: the next offset of every partition consumed from
      if the broker takes the commit, and what it was otherwise. */
  function Committed(w: World, s: State, taken: bool): (r: seq<nat>)
    requires |s.next| == |w.start|
    ensures r == if taken then s.next else w.start
  {
    seq(|s.next|, p requires 0 <= p < |s.next| =>
      if taken && s.next[p] != w.start[p] then s.next[p] else w.start[p])
  }

  /** A second execution that starts from what the first committed hands over, from each partition,
      just what a single one that gets as far hands over after the first one's share. If the commit
      was refused it hands over all that the single one does, the first one's share again included. */
  lemma Resume(w: World, filter: seq<string>, first: Script, taken: bool, second: Script, single: Script, p: nat)
    requires Within(w, w.start) && p < |w.logs|
    ensures var s := Execute(w, first, filter).0;
            && |s.next| == |w.start|
            && var w2 := World(w.logs, Committed(w, s, taken));
            && Within(w2, w2.start)
            && var t, u := Execute(w2, second, filter).0, Execute(w, single, filter).0;
            && |t.next| == |u.next| == |w.logs|
            && (t.next[p] == u.next[p] ==>
                  Share(filter, p, u) == (if taken then Share(filter, p, s) else []) + Share(filter, p, t))
  {
    hide Execute, Share, Valid, Selected, Committed;
    ExecuteShares(w, first, filter, p);
    ExecuteShares(w, single, filter, p);
    var s := Execute(w, first, filter).0;
    var w2 := World(w.logs, Committed(w, s, taken));
    ExecuteShares(w2, second, filter, p);
    var t := Execute(w2, second, filter).0;
    if taken { SelectedJoins(filter, w.logs[p], w.start[p], s.next[p], t.next[p]); }
    assert [] + Share(filter, p, t) == Share(filter, p, t);
  }

  lemma ExecuteShares(w: World, script: Script, filter: seq<string>, p: nat)
    requires Within(w, w.start) && p < |w.logs|
    ensures var s := Execute(w, script, filter).0;
            && Within(w, s.next) && w.start[p] <= s.next[p]
            && Share(filter, p, s) == Selected(filter, w.logs[p][w.start[p]..s.next[p]])
  {
    ExecuteDelivers(w, script, filter, p);
    hide Execute, Share, Selected, Payloads, KeyedUntil;
  }

  // -------------------------------------------------- where the laws do not reach

  const KEYED: Message := Message(Some("t"), [1])
  const WANTED: Message := Message(Some("u"), [2])
  const KEYLESS: Message := Message(None, [3])

  /** An execution whose first read fails or times out is over. */
  lemma FirstReadEnds(w: World, script: Script, filter: seq<string>, s1: State, s2: State, code: ErrorCode)
    requires Within(w, w.start) && script.calls > 0 && !script.waitMode
    requires s1 == FillOffset(w, Started(w, script.events, script.fills)) && Valid(w, s1)
    requires ReadOn(w, s1, filter).0 == s2 && ReadOn(w, s1, filter).1 == Some(code) && code != ERR_NO_ERROR
    ensures Execute(w, script, filter) == (s2, [], Stopped(code))
  {
    hide ReadOn, FillOffset;
  }

  /** A message waits, but nothing was fetched before the first timeout: the run stops drained. */
  lemma UntouchedPartitionIsSkipped()
    ensures var w := World([[KEYED]], [0]);
            var (s, out, end) := Execute(w, Script([Timeout(true)], [Assigned([Some(1)])], false, 1), []);
            end == Stopped(ERR__TIMED_OUT) && out == [] && s.next == [0] && s.logOffset == [1]
  {
    var w, script := World([[KEYED]], [0]), Script([Timeout(true)], [Assigned([Some(1)])], false, 1);
    var s0 := Started(w, script.events, script.fills);
    FillKeepsValid(w, s0);
    var highs: seq<Option<nat>> := [Some(1)];
    assert Snapshot(1, highs) == [1] + Snapshot(0, highs[1..]);
    var s1 := FillOffset(w, s0);
    assert s1.logOffset == [1] && s1.next == [0] && s1.events == [Timeout(true)];
    TimesOutExactlyIf(w, s1, []);
    hide Snapshot, FillOffset, Advance;
    var s2 := Consume(w, s1).1;
    assert Consume(w, s1).0 == Failure(Timeout(true)) && s2.next == [0] && s2.logOffset == [1];
    assert TouchedAreDrained(w, s2);
    TimeoutKeeps(w, s2, true);
    hide TouchedAreDrained;
    FirstReadEnds(w, script, [], s1, TakeTurn(w, s1, []).after, ERR__TIMED_OUT);
  }

  /** The watermark query failed, and a wanted message is next in the log: the first timeout stops
      the run without it. */
  lemma FailedQueryEndsEarly()
    ensures var w := World([[KEYED, WANTED]], [0]);
            var (s, out, end) := Execute(w, Script([Delivery(0), Timeout(true)], [Assigned([None])], false, 1), ["u"]);
            && end == Stopped(ERR__TIMED_OUT) && out == [] && s.next == [1]
            && Wanted(["u"], w.logs[0][1]) && s.logOffset == [-1001]
  {
    var w, script := World([[KEYED, WANTED]], [0]), Script([Delivery(0), Timeout(true)], [Assigned([None])], false, 1);
    var s := State([1], [Consumed(0, 0, KEYED)], [Timeout(true)], [], [OFFSET_INVALID], [OFFSET_INVALID]);
    var s0 := Started(w, script.events, script.fills);
    var s1 := s.(next := [0], trace := [], events := script.events);
    assert Snapshot(1, [None]) == [OFFSET_INVALID] == Invalid(1);
    assert FillOffset(w, s0) == s1;
    FillKeepsValid(w, s0);
    assert [0][0 := 1] == [1] && script.events[1..] == [Timeout(true)] && s1.trace + [Consumed(0, 0, KEYED)] == s.trace;
    assert Consume(w, s1) == (Got(KEYED), s);
    ConsumeKeepsValid(w, s1);
    TimesOutExactlyIf(w, s, ["u"]);
    assert "t"[0] != "u"[0] && !Wanted(["u"], KEYED);
    assert TakeTurn(w, s1, ["u"]) == GoesOn(s);
    hide Advance, Snapshot, FillOffset;
    var s2 := Consume(w, s).1;
    assert Consume(w, s).0 == Failure(Timeout(true)) && s2.next == [1] && s2.logOffset == [OFFSET_INVALID];
    TimeoutKeeps(w, s2, true);
    FirstReadEnds(w, script, ["u"], s1, TakeTurn(w, s, ["u"]).after, ERR__TIMED_OUT);
  }

  /** A message without a key ends the run with an error, and what is committed is past it. */
  lemma KeylessIsSkipped()
    ensures var w := World([[KEYLESS, KEYED]], [0]);
            var (s, out, end) := Execute(w, Script([Delivery(0)], [Assigned([Some(2)])], false, 1), []);
            end == Stopped(ERR__FAIL) && out == [] && |s.next| == 1 && Committed(w, s, true) == [1]
  {
    var w, script := World([[KEYLESS, KEYED]], [0]), Script([Delivery(0)], [Assigned([Some(2)])], false, 1);
    var s0 := Started(w, script.events, script.fills);
    FillKeepsValid(w, s0);
    var s1 := FillOffset(w, s0);
    assert s1.next == [0] && s1.events == [Delivery(0)];
    assert Consume(w, s1).0 == Got(KEYLESS) && Consume(w, s1).1.next == [1];
    hide Advance, Snapshot;
    FirstReadEnds(w, script, [], s1, TakeTurn(w, s1, []).after, ERR__FAIL);
  }
}
