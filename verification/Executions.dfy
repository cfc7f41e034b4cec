/**
 What an execution does, said of the logs, the scripts and the options, without the functions that
 make up the reader: which messages are handed over, what ends the program and with which code,
 how long it waits, and when the snapshot is taken.
 */
module Executions {
  import opened Wire
  import opened KafkaReader

  // -------------------------------------------------------------- the filter

  /** A message passes if it has a key, and the filter is empty or has that key somewhere. */
  ghost predicate Passes(filter: seq<string>, m: Message) {
    m.key.Some? && (filter == [] || exists j :: 0 <= j < |filter| && filter[j] == m.key.value)
  }

  /** The k-th payload is that of the message at pos[k] of the trace; those places are the ones, in
      order, where a message passes. */
  ghost predicate HandsOver(filter: seq<string>, tr: seq<Consumed>, out: seq<Bytes>, pos: seq<nat>) {
    && |pos| == |out|
    && (forall k :: 0 <= k < |pos| ==> pos[k] < |tr| && out[k] == tr[pos[k]].message.payload)
    && (forall j, k :: 0 <= j < k < |pos| ==> pos[j] < pos[k])
    && (forall t :: 0 <= t < |tr| ==> (t in pos <==> Passes(filter, tr[t].message)))
  }

  lemma {:induction false} PayloadsAreHandedOver(filter: seq<string>, tr: seq<Consumed>) returns (pos: seq<nat>)
    ensures HandsOver(filter, tr, Payloads(filter, tr), pos)
  {
    pos := [];
    if tr != [] {
      var init, c := tr[..|tr| - 1], tr[|tr| - 1];
      pos := PayloadsAreHandedOver(filter, init);
      assert Wanted(filter, c.message) <==> Passes(filter, c.message);
      hide Wanted, Passes;
      if Wanted(filter, c.message) {
        assert forall t :: t in pos + [|init|] <==> t in pos || t == |init|;
        pos := pos + [|init|];
      }
    }
  }

  /** The trace has every message from the start of its partition up to its next offset, once, those of
      a partition in order, and no other. */
  ghost predicate Traces(w: World, tr: seq<Consumed>, to: seq<nat>) {
    && |to| == |w.start| == |w.logs|
    && (forall t :: 0 <= t < |tr| ==>
          && tr[t].partition < |w.logs| && tr[t].offset < |w.logs[tr[t].partition]|
          && w.start[tr[t].partition] <= tr[t].offset < to[tr[t].partition]
          && tr[t].message == w.logs[tr[t].partition][tr[t].offset])
    && (forall t, u :: 0 <= t < u < |tr| && tr[t].partition == tr[u].partition ==> tr[t].offset < tr[u].offset)
    && (forall p: nat, i: nat :: p < |to| && w.start[p] <= i < to[p] ==> IsConsumed(tr, p, i))
  }

  ghost predicate IsConsumed(tr: seq<Consumed>, p: nat, i: nat) {
    exists t :: 0 <= t < |tr| && tr[t].partition == p && tr[t].offset == i
  }

  lemma {:induction false} AdvanceTraces(w: World, tr: seq<Consumed>, to: seq<nat>)
    requires Within(w, w.start) && Advance(w, w.start, tr) == Some(to)
    ensures Traces(w, tr, to)
  {
    if tr != [] {
      var init, c := tr[..|tr| - 1], tr[|tr| - 1];
      var mid := Advance(w, w.start, init).value;
      AdvanceTraces(w, init, mid);
      AdvanceGrows(w, init, mid);
      TracesOneMore(w, init, mid, c);
      assert tr == init + [c];
    }
  }

  lemma {:induction false} AdvanceGrows(w: World, tr: seq<Consumed>, to: seq<nat>)
    requires Within(w, w.start) && Advance(w, w.start, tr) == Some(to)
    ensures Within(w, to) && forall p :: 0 <= p < |to| ==> w.start[p] <= to[p]
  {
    if tr != [] { AdvanceGrows(w, tr[..|tr| - 1], Advance(w, w.start, tr[..|tr| - 1]).value); }
  }

  lemma TracesOneMore(w: World, tr: seq<Consumed>, to: seq<nat>, c: Consumed)
    requires Traces(w, tr, to) && c.partition < |to| && w.start[c.partition] <= to[c.partition]
    requires c.offset == to[c.partition] < |w.logs[c.partition]| && c.message == w.logs[c.partition][c.offset]
    ensures Traces(w, tr + [c], to[c.partition := c.offset + 1])
  {
    var tr1, to1 := tr + [c], to[c.partition := c.offset + 1];
    forall p: nat, i: nat | p < |to1| && w.start[p] <= i < to1[p] ensures IsConsumed(tr1, p, i) {
      if p == c.partition && i == c.offset {
        assert tr1[|tr|] == c;
      } else {
        assert IsConsumed(tr, p, i);
        var t :| 0 <= t < |tr| && tr[t].partition == p && tr[t].offset == i;
        assert tr1[t] == tr[t];
      }
    }
  }

  /** What an execution hands over: of the messages between the start of every partition and the offset
      it leaves, those that pass the filter, each once, and nothing else. */
  lemma HandedOverExactlyIf(w: World, script: Script, filter: seq<string>) returns (pos: seq<nat>)
    requires Within(w, w.start)
    ensures var (s, out, _) := Execute(w, script, filter);
            Traces(w, s.trace, s.next) && HandsOver(filter, s.trace, out, pos)
  {
    ExecuteRuns(w, script, filter);
    var s := Execute(w, script, filter).0;
    hide Execute, Payloads, Traces, HandsOver, Advance;
    AdvanceTraces(w, s.trace, s.next);
    pos := PayloadsAreHandedOver(filter, s.trace);
  }

  // ---------------------------------------------- the filter is a set of keys

  ghost predicate SameKeys(f: seq<string>, g: seq<string>) { forall key :: key in f <==> key in g }

  lemma SameWanted(f: seq<string>, g: seq<string>, m: Message)
    requires SameKeys(f, g)
    ensures Wanted(f, m) == Wanted(g, m)
  {
    assert (f != [] ==> f[0] in f) && (g != [] ==> g[0] in g);
  }

  lemma SameTurn(w: World, s: State, f: seq<string>, g: seq<string>)
    requires Valid(w, s) && SameKeys(f, g)
    ensures TakeTurn(w, s, f) == TakeTurn(w, s, g)
  {
    var (polled, s1) := Consume(w, s);
    if polled.Got? { SameWanted(f, g, polled.message); }
    hide Wanted, Consume, FillOffset, OnTimeout, Valid;
  }

  lemma {:induction false} SameRead(w: World, s: State, f: seq<string>, g: seq<string>)
    requires Valid(w, s) && SameKeys(f, g)
    ensures ReadOn(w, s, f) == ReadOn(w, s, g)
    decreases |s.events|
  {
    hide TakeTurn, Valid;
    SameTurn(w, s, f, g);
    TurnKeeps(w, s, f);
    var turn := TakeTurn(w, s, f);
    if turn.GoesOn? { SameRead(w, turn.after, f, g); }
  }

  lemma {:induction false} SameRun(w: World, s: State, f: seq<string>, g: seq<string>, waitMode: bool, calls: nat)
    requires Valid(w, s) && SameKeys(f, g)
    ensures Run(w, s, f, waitMode, calls) == Run(w, s, g, waitMode, calls)
    decreases calls
  {
    hide ReadOn, Valid, FillOffset;
    if calls > 0 {
      FillKeepsValid(w, s);
      SameRead(w, FillOffset(w, s), f, g);
      CallExplained(w, s, f);
      var (s1, ret, _) := ReadFrom(w, s, f);
      if ret.Some? { SameRun(w, s1, f, g, waitMode, calls - 1); }
    }
  }

  /** Neither the order of the filter nor a repetition in it matters. */
  lemma FilterIsASet(w: World, script: Script, f: seq<string>, g: seq<string>)
    requires Within(w, w.start) && SameKeys(f, g)
    ensures Execute(w, script, f) == Execute(w, script, g)
  {
    SameRun(w, Started(w, script.events, script.fills), f, g, script.waitMode, script.calls);
  }

  // ---------------------------------------------------- the calls of a run

  /** The codes of so many calls of Read in a row, whatever they are, and the state after them. */
  function Called(w: World, s: State, filter: seq<string>, n: nat): (r: (State, seq<Option<ErrorCode>>))
    requires Valid(w, s)
    ensures |r.1| == n
    decreases n
  {
    if n == 0 then (s, [])
    else
      CallExplained(w, s, filter);
      var (s1, ret, _) := ReadFrom(w, s, filter);
      var (s2, rets) := Called(w, s1, filter, n - 1);
      (s2, [ret] + rets)
  }

  /** The program calls again after a message, and after a timeout if it waits. */
  predicate CallsAgain(ret: Option<ErrorCode>, waitMode: bool) {
    ret == Some(ERR_NO_ERROR) || (waitMode && ret == Some(ERR__TIMED_OUT))
  }

  predicate AllCallAgain(rets: seq<Option<ErrorCode>>, waitMode: bool) {
    forall i :: 0 <= i < |rets| ==> CallsAgain(rets[i], waitMode)
  }

  /** The codes of a run of at most the given number of calls: it is interrupted after them, or ends
      before with the first code that does not have the program call again. */
  ghost predicate EndsRun(rets: seq<Option<ErrorCode>>, waitMode: bool, calls: nat, end: End) {
    if end.Interrupted? then |rets| == calls && AllCallAgain(rets, waitMode)
    else
      && 0 < |rets| <= calls && AllCallAgain(rets[..|rets| - 1], waitMode)
      && !CallsAgain(rets[|rets| - 1], waitMode)
      && rets[|rets| - 1] == if end.Cut? then None else Some(end.code)
  }

  lemma CallUsesEvents(w: World, s: State, filter: seq<string>)
    requires Valid(w, s)
    ensures var (s1, ret, _) := ReadFrom(w, s, filter);
            && Valid(w, s1)
            && (ret.Some? ==> |s1.events| < |s.events|)
            && (ret.None? ==> s1.events == [])
  {
    FillKeepsValid(w, s);
    var s0 := FillOffset(w, s);
    hide Valid, ReadOn, FillOffset;
    ReadKeeps(w, s0, filter);
  }

  lemma RunUnrolls(w: World, s: State, filter: seq<string>, waitMode: bool, calls: nat)
    requires Valid(w, s) && calls > 0
    ensures var (s1, ret, _) := ReadFrom(w, s, filter);
            && Valid(w, s1)
            && var (s2, _, end) := Run(w, s, filter, waitMode, calls);
            if CallsAgain(ret, waitMode)
            then s2 == Run(w, s1, filter, waitMode, calls - 1).0 && end == Run(w, s1, filter, waitMode, calls - 1).2
            else s2 == s1 && end == (if ret == None then Cut else Stopped(ret.value))
  {
    hide ReadFrom, Valid, KeyedUntil, Payloads, Since;
    CallUsesEvents(w, s, filter);
  }

  lemma CalledUnrolls(w: World, s: State, filter: seq<string>, n: nat)
    requires Valid(w, s) && n > 0
    ensures var (s1, ret, _) := ReadFrom(w, s, filter);
            && Valid(w, s1)
            && Called(w, s, filter, n).0 == Called(w, s1, filter, n - 1).0
            && Called(w, s, filter, n).1 == [ret] + Called(w, s1, filter, n - 1).1
  {
    hide ReadFrom, Valid, KeyedUntil, Payloads, Since;
    CallUsesEvents(w, s, filter);
  }

  lemma CallAgainPrepend(ret: Option<ErrorCode>, rets: seq<Option<ErrorCode>>, waitMode: bool)
    ensures AllCallAgain([ret] + rets, waitMode) <==> CallsAgain(ret, waitMode) && AllCallAgain(rets, waitMode)
  {
    hide CallsAgain;
    assert ([ret] + rets)[0] == ret;
    assert forall i :: 0 <= i < |rets| ==> rets[i] == ([ret] + rets)[i + 1];
  }

  lemma EndsPrepend(ret: Option<ErrorCode>, rets: seq<Option<ErrorCode>>, waitMode: bool, calls: nat, end: End)
    requires EndsRun(rets, waitMode, calls, end) && CallsAgain(ret, waitMode)
    ensures EndsRun([ret] + rets, waitMode, calls + 1, end)
  {
    hide CallsAgain, AllCallAgain;
    CallAgainPrepend(ret, rets, waitMode);
    if rets != [] {
      CallAgainPrepend(ret, rets[..|rets| - 1], waitMode);
      assert ([ret] + rets)[..|rets|] == [ret] + rets[..|rets| - 1];
    }
  }

  /** A run is its calls, as many as it takes to meet a code that ends it. */
  lemma {:induction false} RunIsCalls(w: World, s: State, filter: seq<string>, waitMode: bool, calls: nat)
    returns (n: nat)
    requires Valid(w, s)
    ensures n <= calls && (calls > 0 ==> n > 0)
    ensures var (s1, _, end) := Run(w, s, filter, waitMode, calls);
            s1 == Called(w, s, filter, n).0 && EndsRun(Called(w, s, filter, n).1, waitMode, calls, end)
    decreases calls
  {
    hide Valid, ReadFrom, CallsAgain;
    n := 0;
    if calls > 0 {
      RunUnrolls(w, s, filter, waitMode, calls);
      var (s1, ret, _) := ReadFrom(w, s, filter);
      if CallsAgain(ret, waitMode) {
        n := RunIsCalls(w, s1, filter, waitMode, calls - 1);
        hide Run, Called, EndsRun;
        EndsPrepend(ret, Called(w, s1, filter, n).1, waitMode, calls - 1, Run(w, s, filter, waitMode, calls).2);
      }
      n := n + 1;
      CalledUnrolls(w, s, filter, n);
      hide Run;
    }
  }

  lemma {:induction false} CallsAreRun(w: World, s: State, filter: seq<string>, waitMode: bool, calls: nat)
    requires Valid(w, s) && AllCallAgain(Called(w, s, filter, calls).1, waitMode)
    ensures Run(w, s, filter, waitMode, calls).2 == Interrupted
    decreases calls
  {
    hide Valid, ReadFrom, CallsAgain, AllCallAgain, Called;
    if calls > 0 {
      RunUnrolls(w, s, filter, waitMode, calls);
      CalledUnrolls(w, s, filter, calls);
      hide Run;
      var (s1, ret, _) := ReadFrom(w, s, filter);
      CallAgainPrepend(ret, Called(w, s1, filter, calls - 1).1, waitMode);
      CallsAreRun(w, s1, filter, waitMode, calls - 1);
    }
  }

  /** The interrupt ends a run exactly if every one of its calls returns a message, or times out in
      wait mode. */
  lemma InterruptedExactlyIf(w: World, s: State, filter: seq<string>, waitMode: bool, calls: nat)
    requires Valid(w, s)
    ensures Run(w, s, filter, waitMode, calls).2 == Interrupted
       <==> AllCallAgain(Called(w, s, filter, calls).1, waitMode)
  {
    var n := RunIsCalls(w, s, filter, waitMode, calls);
    assert |Called(w, s, filter, n).1| == n;
    hide Valid, Run, Called, AllCallAgain;
    if AllCallAgain(Called(w, s, filter, calls).1, waitMode) { CallsAreRun(w, s, filter, waitMode, calls); }
  }

  /** A program that waits stops only for another code than a timeout: with calls to spare it uses up
      every event, or meets such a code. */
  lemma WaitsForMessages(w: World, s: State, filter: seq<string>, calls: nat)
    requires Valid(w, s) && calls > |s.events|
    ensures var (s1, _, end) := Run(w, s, filter, true, calls);
            (end == Cut && s1.events == []) || (end.Stopped? && end.code != ERR__TIMED_OUT)
  {
    RunUsesEvents(w, s, filter, true, calls);
    var n := RunIsCalls(w, s, filter, true, calls);
    hide Run, Called, Valid;
  }

  /** A call that returns a code uses up an event, and one that returns none has used up all. */
  lemma {:induction false} RunUsesEvents(w: World, s: State, filter: seq<string>, waitMode: bool, calls: nat)
    requires Valid(w, s)
    ensures var (s1, _, end) := Run(w, s, filter, waitMode, calls);
            && (end == Interrupted ==> |s1.events| + calls <= |s.events|)
            && (end == Cut ==> s1.events == [])
    decreases calls
  {
    hide Valid, ReadFrom;
    if calls > 0 {
      RunUnrolls(w, s, filter, waitMode, calls);
      CallUsesEvents(w, s, filter);
      hide Run;
      var (s1, ret, _) := ReadFrom(w, s, filter);
      if CallsAgain(ret, waitMode) { RunUsesEvents(w, s1, filter, waitMode, calls - 1); }
    }
  }

  // ------------------------------------------------ the events and the codes

  /** What is left of the events is an end of them. */
  ghost predicate UsesUp(s: State, s1: State) {
    |s1.events| <= |s.events| && s1.events == s.events[|s.events| - |s1.events|..]
  }

  function Used(s: State, s1: State): seq<Event> {
    if |s1.events| <= |s.events| then s.events[..|s.events| - |s1.events|] else []
  }

  lemma UsedJoins(s: State, s1: State, s2: State)
    requires UsesUp(s, s1) && UsesUp(s1, s2)
    ensures UsesUp(s, s2) && Used(s, s2) == Used(s, s1) + Used(s1, s2)
  {
    var a, b := |s.events| - |s1.events|, |s1.events| - |s2.events|;
    assert s.events[a..][b..] == s.events[a + b..];
    assert s.events[a..][..b] == s.events[a..a + b];
  }

  /** Deliveries and timeouts: after any other event a read is over. */
  predicate MayGoOn(e: Event) { e.Timeout? || e.Delivery? }

  predicate AllMayGoOn(es: seq<Event>) { forall i :: 0 <= i < |es| ==> MayGoOn(es[i]) }

  /** The code a read returns on an event, and what it found. */
  ghost predicate Explains(w: World, filter: seq<string>, e: Event, code: ErrorCode, s: State) {
    match e
    case Delivery(p) =>
      || (code == ERR_NO_ERROR && LastConsumed(s, p) && Passes(filter, s.trace[|s.trace| - 1].message))
      || (code == ERR__FAIL && LastConsumed(s, p) && s.trace[|s.trace| - 1].message.key == None)
      || (code == ERR__TIMED_OUT && !Available(w, s, p) && TimesOut(s, w))
    case Timeout(positionKnown) =>
      if positionKnown then code == ERR__TIMED_OUT && TimesOut(s, w) else code == ERR__FAIL && s.logOffset != []
    case PartitionEof => code == ERR__PARTITION_EOF
    case UnknownTopic => code == ERR__UNKNOWN_PARTITION
    case UnknownPartition => code == ERR__UNKNOWN_PARTITION
    case OtherError => code == ERR__FAIL
  }

  predicate LastConsumed(s: State, p: nat) { s.trace != [] && s.trace[|s.trace| - 1].partition == p }

  predicate Available(w: World, s: State, p: nat) { p < |w.logs| && p < |s.next| && s.next[p] < |w.logs[p]| }

  ghost predicate TimesOut(s: State, w: World) { s.logOffset != [] && TouchedAreDrained(w, s) }

  /** A read from s to s1: only its last event may be other than a delivery or a timeout, and it decides
      the code. There is none if the events came to an end before. */
  ghost predicate ReadsTo(w: World, filter: seq<string>, s: State, s1: State, ret: Option<ErrorCode>) {
    && UsesUp(s, s1)
    && var es := Used(s, s1);
    if ret == None then AllMayGoOn(es) && s1.events == []
    else es != [] && AllMayGoOn(es[..|es| - 1]) && Explains(w, filter, es[|es| - 1], ret.value, s1)
  }

  /** When a read goes on after an event that took it from s to s1. */
  ghost predicate GoesOnPast(w: World, filter: seq<string>, e: Event, s: State, s1: State) {
    match e
    case Delivery(p) =>
      if Available(w, s, p)
      then
        LastConsumed(s1, p) && s1.trace[|s1.trace| - 1].message.key != None
        && !Passes(filter, s1.trace[|s1.trace| - 1].message)
      else s.logOffset == [] || !TimesOut(s1, w)
    case Timeout(positionKnown) => s.logOffset == [] || (positionKnown && !TimesOut(s1, w))
    case _ => false
  }

  lemma MessageExplains(w: World, s: State, filter: seq<string>)
    requires Valid(w, s) && s.events != [] && Consume(w, s).0.Got?
    ensures var turn := TakeTurn(w, s, filter);
            && turn.after.events == s.events[1..]
            && (turn.GoesOn? ==> GoesOnPast(w, filter, s.events[0], s, turn.after))
            && (turn.Ends? ==> turn.ret.Some? && Explains(w, filter, s.events[0], turn.ret.value, turn.after))
  {
    ConsumeKeepsValid(w, s);
    var (polled, s1) := Consume(w, s);
    FillKeepsValid(w, s1);
    assert LastConsumed(s1, s.events[0].partition) && s1.trace[|s1.trace| - 1].message == polled.message;
    assert Wanted(filter, polled.message) <==> Passes(filter, polled.message);
    hide Valid, FillOffset, Wanted, Passes, TimesOut;
  }

  lemma TimeoutExplains(w: World, s: State, filter: seq<string>)
    requires Valid(w, s) && s.events != [] && Consume(w, s).0.Failure? && Consume(w, s).0.event.Timeout?
    ensures var turn := TakeTurn(w, s, filter);
            && turn.after.events == s.events[1..]
            && (turn.GoesOn? ==> GoesOnPast(w, filter, s.events[0], s, turn.after))
            && (turn.Ends? ==> turn.ret.Some? && Explains(w, filter, s.events[0], turn.ret.value, turn.after))
  {
    ConsumeKeepsValid(w, s);
    var (polled, s1) := Consume(w, s);
    TimeoutKeeps(w, s1, polled.event.positionKnown);
    TimesOutExactlyIf(w, s, filter);
    hide Advance, FillOffset, ReadOver, LastConsumed, Passes, TouchedAreDrained;
    var s2 := TakeTurn(w, s, filter).after;
    if s1.logOffset != [] && polled.event.positionKnown {
      DrainedBut(w, s1, s2);
      DrainedBut(w, s2, s1);
    }
  }

  lemma TurnExplains(w: World, s: State, filter: seq<string>)
    requires Valid(w, s) && s.events != []
    ensures var turn := TakeTurn(w, s, filter);
            && turn.after.events == s.events[1..]
            && (turn.GoesOn? ==> MayGoOn(s.events[0]) && GoesOnPast(w, filter, s.events[0], s, turn.after))
            && (turn.Ends? ==> turn.ret.Some? && Explains(w, filter, s.events[0], turn.ret.value, turn.after))
  {
    var polled := Consume(w, s).0;
    if polled.Got? {
      MessageExplains(w, s, filter);
    } else if polled.event.Timeout? {
      TimeoutExplains(w, s, filter);
    }
    hide Valid, FillOffset, OnTimeout, OnMessage, Passes, TimesOut, Available, LastConsumed;
  }

  lemma NothingUsed(s: State)
    ensures UsesUp(s, s) && Used(s, s) == []
  {
  }

  lemma OneUsed(s: State, s1: State)
    requires s.events != [] && s1.events == s.events[1..]
    ensures UsesUp(s, s1) && Used(s, s1) == [s.events[0]]
  {
  }

  lemma MayGoOnJoins(a: seq<Event>, b: seq<Event>)
    ensures AllMayGoOn(a + b) <==> AllMayGoOn(a) && AllMayGoOn(b)
  {
    hide MayGoOn;
    assert forall i :: 0 <= i < |a| ==> a[i] == (a + b)[i];
    assert forall i :: 0 <= i < |b| ==> b[i] == (a + b)[|a| + i];
  }

  /** An event after which a read goes on is one more in front of it. */
  lemma ReadsFurther(w: World, filter: seq<string>, s: State, s1: State, s2: State, ret: Option<ErrorCode>)
    requires s.events != [] && s1.events == s.events[1..] && MayGoOn(s.events[0])
    requires ReadsTo(w, filter, s1, s2, ret)
    ensures ReadsTo(w, filter, s, s2, ret)
  {
    hide Explains, AllMayGoOn, Used;
    OneUsed(s, s1);
    UsedJoins(s, s1, s2);
    var e, es := [s.events[0]], Used(s1, s2);
    OneMayGoOn(s.events[0]);
    MayGoOnJoins(e, es);
    if es != [] {
      MayGoOnJoins(e, es[..|es| - 1]);
      assert (e + es)[..|es|] == e + es[..|es| - 1];
    }
  }

  lemma OneMayGoOn(e: Event)
    ensures AllMayGoOn([]) && (AllMayGoOn([e]) <==> MayGoOn(e))
  {
    assert [e][0] == e;
  }

  lemma {:induction false} ReadExplains(w: World, s: State, filter: seq<string>)
    requires Valid(w, s)
    ensures var (s1, ret, _) := ReadOn(w, s, filter); ReadsTo(w, filter, s, s1, ret)
    decreases |s.events|
  {
    hide TakeTurn, Valid, Explains, MayGoOn;
    TurnKeeps(w, s, filter);
    var turn := TakeTurn(w, s, filter);
    if s.events == [] {
      NothingUsed(s);
    } else {
      TurnExplains(w, s, filter);
      hide ReadsTo;
      if turn.GoesOn? {
        ReadExplains(w, turn.after, filter);
        var (s2, ret, _) := ReadOn(w, turn.after, filter);
        ReadsFurther(w, filter, s, turn.after, s2, ret);
      } else {
        ReadsOne(w, filter, s, turn.after, turn.ret.value);
      }
    }
  }

  lemma ReadsOne(w: World, filter: seq<string>, s: State, s1: State, code: ErrorCode)
    requires s.events != [] && s1.events == s.events[1..] && Explains(w, filter, s.events[0], code, s1)
    ensures ReadsTo(w, filter, s, s1, Some(code))
  {
    hide Explains;
    OneUsed(s, s1);
  }

  // ------------------------------------------------------------ a whole run

  /** The events of a run: those after which a read is over end the run as well, a timeout that ends it
      found every touched partition drained, and the last event decides the code. */
  ghost predicate RunsTo(w: World, filter: seq<string>, s: State, s1: State, end: End) {
    && UsesUp(s, s1)
    && var es := Used(s, s1);
    if end.Stopped?
    then es != [] && AllMayGoOn(es[..|es| - 1]) && Explains(w, filter, es[|es| - 1], end.code, s1)
    else AllMayGoOn(es) && (end.Cut? ==> s1.events == [])
  }

  lemma CallExplains(w: World, s: State, filter: seq<string>)
    requires Valid(w, s)
    ensures var (s1, ret, _) := ReadFrom(w, s, filter); Valid(w, s1) && ReadsTo(w, filter, s, s1, ret)
  {
    CallUsesEvents(w, s, filter);
    FillKeepsValid(w, s);
    var s0 := FillOffset(w, s);
    hide Valid, ReadOn, FillOffset, ReadsTo;
    ReadExplains(w, s0, filter);
    var (s1, ret, _) := ReadFrom(w, s, filter);
    SameEvents(w, filter, s, s0, s1, ret);
  }

  lemma SameEvents(w: World, filter: seq<string>, s: State, s0: State, s1: State, ret: Option<ErrorCode>)
    requires s.events == s0.events && ReadsTo(w, filter, s0, s1, ret)
    ensures ReadsTo(w, filter, s, s1, ret)
  {
    hide Explains, MayGoOn;
  }

  lemma AgainMayGoOn(w: World, filter: seq<string>, s: State, s1: State, ret: Option<ErrorCode>, waitMode: bool)
    requires ReadsTo(w, filter, s, s1, ret) && CallsAgain(ret, waitMode)
    ensures UsesUp(s, s1) && AllMayGoOn(Used(s, s1))
  {
    hide LastConsumed, Available, TimesOut, Passes;
  }

  lemma RunsFurther(w: World, filter: seq<string>, s: State, s1: State, s2: State, end: End)
    requires UsesUp(s, s1) && AllMayGoOn(Used(s, s1)) && RunsTo(w, filter, s1, s2, end)
    ensures RunsTo(w, filter, s, s2, end)
  {
    hide Explains, AllMayGoOn, Used;
    UsedJoins(s, s1, s2);
    var a, b := Used(s, s1), Used(s1, s2);
    MayGoOnJoins(a, b);
    if b != [] {
      MayGoOnJoins(a, b[..|b| - 1]);
      assert (a + b)[..|a + b| - 1] == a + b[..|b| - 1];
    }
  }

  lemma RunsNowhere(w: World, filter: seq<string>, s: State)
    ensures RunsTo(w, filter, s, s, Interrupted)
  {
    NothingUsed(s);
  }

  /** Every event of a run but the last is a delivery or a timeout, and the code the run stops with is
      that of its last event. */
  lemma {:induction false} RunExplains(w: World, s: State, filter: seq<string>, waitMode: bool, calls: nat)
    requires Valid(w, s)
    ensures var (s1, _, end) := Run(w, s, filter, waitMode, calls); RunsTo(w, filter, s, s1, end)
    decreases calls
  {
    hide Valid, ReadFrom, RunsTo, ReadsTo, CallsAgain;
    if calls == 0 {
      RunsNowhere(w, filter, s);
    } else {
      CallExplains(w, s, filter);
      RunUnrolls(w, s, filter, waitMode, calls);
      hide Run;
      var (s1, ret, _) := ReadFrom(w, s, filter);
      if CallsAgain(ret, waitMode) {
        AgainMayGoOn(w, filter, s, s1, ret, waitMode);
        RunExplains(w, s1, filter, waitMode, calls - 1);
        var (s2, _, end) := Run(w, s1, filter, waitMode, calls - 1);
        RunsFurther(w, filter, s, s1, s2, end);
      } else {
        RunsOnce(w, filter, s, s1, ret);
      }
    }
  }

  lemma RunsOnce(w: World, filter: seq<string>, s: State, s1: State, ret: Option<ErrorCode>)
    requires ReadsTo(w, filter, s, s1, ret)
    ensures RunsTo(w, filter, s, s1, if ret == None then Cut else Stopped(ret.value))
  {
    hide Explains, AllMayGoOn;
  }

  // ------------------------------------------------------------ the snapshot

  /** The events on which the reader asks for the watermarks if it does not have them yet. */
  function Attempts(es: seq<Event>): nat {
    if es == [] then 0 else (if MayGoOn(es[0]) then 1 else 0) + Attempts(es[1..])
  }

  ghost predicate AssignedWithin(fills: seq<Fill>, n: nat) {
    exists k :: 0 <= k < n && k < |fills| && fills[k].Assigned?
  }

  predicate HasSnapshot(s: State) { s.logOffset != [] }

  /** From s to s1 the reader has asked n times, or until it was answered: it has the snapshot exactly if
      one of these fills assigns. */
  ghost predicate Asks(s: State, s1: State, n: nat) {
    if HasSnapshot(s) then s1.logOffset == s.logOffset
    else
      && (HasSnapshot(s1) <==> AssignedWithin(s.fills, n))
      && (!HasSnapshot(s1) ==> s1.fills == if n <= |s.fills| then s.fills[n..] else [])
  }

  lemma AsksFurther(s: State, s1: State, s2: State, n: nat, k: nat)
    requires Asks(s, s1, n) && Asks(s1, s2, k)
    ensures Asks(s, s2, n + k)
  {
    if !HasSnapshot(s) && !HasSnapshot(s1) {
      if n <= |s.fills| {
        assert forall i :: 0 <= i < |s.fills| - n ==> s.fills[n..][i] == s.fills[n + i];
        assert forall i :: n <= i < |s.fills| ==> s.fills[i] == s.fills[n..][i - n];
      }
      assert AssignedWithin(s.fills, n + k) <==> AssignedWithin(s1.fills, k);
    }
  }

  lemma {:induction false} AttemptsJoin(a: seq<Event>, b: seq<Event>)
    ensures Attempts(a + b) == Attempts(a) + Attempts(b)
  {
    if a == [] {
      assert a + b == b;
    } else {
      assert (a + b)[0] == a[0] && (a + b)[1..] == a[1..] + b;
      AttemptsJoin(a[1..], b);
    }
  }

  lemma FillAsks(w: World, s: State)
    requires |w.logs| > 0
    ensures Asks(s, FillOffset(w, s), 1) && Asks(s, s, 0)
    ensures HasSnapshot(s) ==> Asks(s, s, 1)
  {
  }

  /** Asking looks at the snapshot and the fills alone. */
  lemma SameAsks(s: State, s0: State, s1: State, n: nat)
    requires s0.logOffset == s.logOffset && s0.fills == s.fills && Asks(s0, s1, n)
    ensures forall read: seq<int> :: Asks(s, s1.(readOffset := read), n)
  {
  }

  lemma OneAttempt(e: Event)
    ensures Attempts([e]) == if MayGoOn(e) then 1 else 0
  {
    assert [e][1..] == [];
  }

  lemma TurnAsks(w: World, s: State, filter: seq<string>)
    requires Valid(w, s) && s.events != [] && |w.logs| > 0
    ensures Asks(s, TakeTurn(w, s, filter).after, Attempts([s.events[0]]))
  {
    ConsumeKeepsValid(w, s);
    var s1 := Consume(w, s).1;
    FillAsks(w, s1);
    SameAsks(s, s1, FillOffset(w, s1), 1);
    SameAsks(s, s1, s1, 0);
    OneAttempt(s.events[0]);
    hide Valid, FillOffset, Asks, Attempts, Wanted, ReadOver, Positions;
  }

  lemma NothingAsked(s: State)
    ensures Asks(s, s, Attempts([]))
  {
  }

  lemma {:induction false} ReadAsks(w: World, s: State, filter: seq<string>)
    requires Valid(w, s) && |w.logs| > 0
    ensures var s1 := ReadOn(w, s, filter).0; UsesUp(s, s1) && Asks(s, s1, Attempts(Used(s, s1)))
    decreases |s.events|
  {
    hide TakeTurn, Valid, Asks, Attempts;
    TurnKeeps(w, s, filter);
    var s1 := TakeTurn(w, s, filter).after;
    if s.events == [] {
      NothingUsed(s);
      NothingAsked(s);
    } else {
      TurnExplains(w, s, filter);
      TurnAsks(w, s, filter);
      OneUsed(s, s1);
      if TakeTurn(w, s, filter).GoesOn? {
        ReadAsks(w, s1, filter);
        var s2 := ReadOn(w, s1, filter).0;
        UsedJoins(s, s1, s2);
        AttemptsJoin(Used(s, s1), Used(s1, s2));
        AsksFurther(s, s1, s2, Attempts(Used(s, s1)), Attempts(Used(s1, s2)));
      }
    }
  }

  lemma CallAsks(w: World, s: State, filter: seq<string>)
    requires Valid(w, s) && |w.logs| > 0
    ensures var s1 := ReadFrom(w, s, filter).0; UsesUp(s, s1) && Asks(s, s1, 1 + Attempts(Used(s, s1)))
  {
    FillKeepsValid(w, s);
    FillAsks(w, s);
    var s0 := FillOffset(w, s);
    hide Valid, ReadOn, FillOffset, Asks, Attempts;
    ReadAsks(w, s0, filter);
    var s1 := ReadFrom(w, s, filter).0;
    AsksFurther(s, s0, s1, 1, Attempts(Used(s0, s1)));
  }

  /** Each call asks once, and once more on each delivery and each timeout. */
  lemma {:induction false} CalledAsks(w: World, s: State, filter: seq<string>, n: nat)
    requires Valid(w, s) && |w.logs| > 0
    ensures var s1 := Called(w, s, filter, n).0; UsesUp(s, s1) && Asks(s, s1, n + Attempts(Used(s, s1)))
    decreases n
  {
    hide Valid, ReadFrom, Asks, Attempts;
    if n == 0 {
      NothingUsed(s);
      NothingAsked(s);
      AttemptsOfNothing();
    } else {
      CalledUnrolls(w, s, filter, n);
      CallAsks(w, s, filter);
      hide Called;
      var s1 := ReadFrom(w, s, filter).0;
      CalledAsks(w, s1, filter, n - 1);
      var s2 := Called(w, s1, filter, n - 1).0;
      UsedJoins(s, s1, s2);
      AttemptsJoin(Used(s, s1), Used(s1, s2));
      AsksFurther(s, s1, s2, 1 + Attempts(Used(s, s1)), n - 1 + Attempts(Used(s1, s2)));
    }
  }

  lemma AttemptsOfNothing()
    ensures Attempts([]) == 0
  {
  }

  lemma CalledSnapshot(w: World, s: State, filter: seq<string>, n: nat)
    requires Valid(w, s) && !HasSnapshot(s) && |w.logs| > 0
    ensures var s1 := Called(w, s, filter, n).0;
            UsesUp(s, s1) && (HasSnapshot(s1) <==> AssignedWithin(s.fills, n + Attempts(Used(s, s1))))
  {
    hide *;
    CalledAsks(w, s, filter, n);
    var s1 := Called(w, s, filter, n).0;
    AsksFromNothing(s, s1, n + Attempts(Used(s, s1)));
  }

  lemma AsksFromNothing(s: State, s1: State, n: nat)
    requires Asks(s, s1, n) && !HasSnapshot(s)
    ensures HasSnapshot(s1) <==> AssignedWithin(s.fills, n)
  {
  }

  /** The snapshot of a run of n calls is taken exactly if one of the fills assigns that come within its
      calls, deliveries and timeouts: every one of these asks, until there is an assignment. */
  lemma SnapshotExactlyIf(w: World, s: State, filter: seq<string>, waitMode: bool, calls: nat) returns (n: nat)
    requires Valid(w, s) && !HasSnapshot(s) && |w.logs| > 0
    ensures n <= calls && (calls > 0 ==> n > 0)
    ensures var (s1, _, end) := Run(w, s, filter, waitMode, calls);
            && s1 == Called(w, s, filter, n).0
            && EndsRun(Called(w, s, filter, n).1, waitMode, calls, end)
            && UsesUp(s, s1)
            && (HasSnapshot(s1) <==> AssignedWithin(s.fills, n + Attempts(Used(s, s1))))
  {
    hide *;
    n := RunIsCalls(w, s, filter, waitMode, calls);
    CalledSnapshot(w, s, filter, n);
  }
}
