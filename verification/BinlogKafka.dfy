/** The reader as the program has it: an object that keeps two lists of offsets and calls a client. */
module BinlogKafka {
  import opened Wire
  import opened KafkaReader

  /** The Kafka client: what its calls return is read off the scripts. */
  class KafkaConsumer {
    const world: World
    var next: seq<nat>
    var trace: seq<Consumed>
    var events: seq<Event>
    var fills: seq<Fill>
    var fill: Fill
    const commitAnswer: int
    var committed: seq<nat>

    /** Commits are answered with the given code; 0 means that the broker takes them. */
    constructor (world: World, events: seq<Event>, fills: seq<Fill>, commitAnswer: int)
      ensures this.world == world && next == world.start && trace == []
      ensures this.events == events && this.fills == fills
      ensures this.commitAnswer == commitAnswer && committed == world.start
    {
      this.world, next, trace, this.events, this.fills := world, world.start, [], events, fills;
      fill, this.commitAnswer, committed := Refused, commitAnswer, world.start;
    }

    method ConsumeOne() returns (kmsg: Polled)
      requires Within(world, next)
      modifies `next, `trace, `events
      ensures forall logOffset, readOffset ::
                var s := State(old(next), old(trace), old(events), old(fills), logOffset, readOffset);
                Consume(world, s) == (kmsg, State(next, trace, events, fills, logOffset, readOffset))
    {
      if events == [] { return Horizon; }
      var event := events[0];
      events := events[1..];
      match event
      case Delivery(p) =>
        if p < |world.logs| && next[p] < |world.logs[p]| {
          var m := world.logs[p][next[p]];
          trace := trace + [Consumed(p, next[p], m)];
          next := next[p := next[p] + 1];
          kmsg := Got(m);
        } else {
          kmsg := Failure(Timeout(true));
        }
      case _ => kmsg := Failure(event);
    }

    /** The assigned partitions, their offsets unset. Each attempt to fill asks twice. */
    method Assignment(again: bool) returns (ok: bool, partitions: seq<int>)
      modifies `fill, `fills
      ensures again ==> fill == old(fill) && fills == old(fills)
      ensures !again ==> fill == (if old(fills) == [] then Refused else old(fills)[0])
      ensures !again ==> fills == (if old(fills) == [] then [] else old(fills)[1..])
      ensures ok <==> fill != Refused && !(again && fill == RefusedAgain)
      ensures partitions == if fill.Unassigned? then [] else Invalid(|world.logs|)
    {
      if !again {
        fill := if fills == [] then Refused else fills[0];
        fills := if fills == [] then [] else fills[1..];
      }
      ok := fill != Refused && !(again && fill == RefusedAgain);
      partitions := if fill.Unassigned? then [] else Invalid(|world.logs|);
    }

    method QueryWatermarkOffsets(p: nat) returns (ok: bool, high: nat)
      requires fill.Assigned?
      ensures ok <==> p < |fill.highs| && fill.highs[p].Some?
      ensures ok ==> high == fill.highs[p].value
    {
      ok := p < |fill.highs| && fill.highs[p].Some?;
      high := if ok then fill.highs[p].value else 0;
    }

    method Position() returns (offsets: seq<int>)
      requires |next| == |world.start|
      ensures offsets == Positions(world.start, next)
    {
      offsets := Positions(world.start, next);
    }

    method CommitSync() returns (ret: int)
      requires |next| == |world.start|
      modifies `committed
      ensures ret == commitAnswer
      ensures committed == if ret == 0 then Committed(world, State(next, trace, events, fills, [], []), true)
                           else old(committed)
    {
      ret := commitAnswer;
      if ret == 0 { committed := Committed(world, State(next, trace, events, fills, [], []), true); }
    }
  }

  /** The first i marks are answers of the queries, and the others are not set. */
  ghost predicate MarksTaken(highs: seq<Option<nat>>, marks: seq<int>, i: nat) {
    && i <= |marks| && i <= |highs|
    && (forall j :: 0 <= j < i ==> highs[j] == Some(marks[j]) && marks[j] >= 0)
    && (forall j :: i <= j < |marks| ==> marks[j] == OFFSET_INVALID)
  }

  lemma MarksStart(highs: seq<Option<nat>>, marks: seq<int>)
    requires forall i :: 0 <= i < |marks| ==> marks[i] == OFFSET_INVALID
    ensures MarksTaken(highs, marks, 0)
  {
  }

  lemma MarksGoOn(highs: seq<Option<nat>>, marks: seq<int>, i: nat)
    requires MarksTaken(highs, marks, i) && i < |marks| && i < |highs| && highs[i].Some?
    ensures MarksTaken(highs, marks[i := highs[i].value], i + 1)
  {
  }

  /** Where the queries stop, at the end or at one that fails, the marks are the snapshot. */
  lemma {:induction false} MarksStop(highs: seq<Option<nat>>, marks: seq<int>, i: nat)
    requires MarksTaken(highs, marks, i)
    requires i == |marks| || i == |highs| || highs[i].None?
    ensures marks == Snapshot(|marks|, highs)
    ensures (forall j :: 0 <= j < |marks| ==> marks[j] >= 0) <==> i == |marks|
  {
    forall p | 0 <= p < |marks| ensures marks[p] == Snapshot(|marks|, highs)[p] {
      SnapshotAnswers(|marks|, highs, p);
    }
    if i < |marks| { assert marks[i] < 0; }
  }

  class CBinlogKafkaReader {
    const consumer: KafkaConsumer
    var logOffset: seq<int>
    var readOffset: seq<int>

    constructor (consumer: KafkaConsumer)
      requires Within(consumer.world, consumer.world.start)
      requires consumer.next == consumer.world.start && consumer.trace == []
      ensures this.consumer == consumer && Ready()
      ensures Here() == Started(consumer.world, consumer.events, consumer.fills)
    {
      this.consumer, logOffset, readOffset := consumer, [], [];
    }

    ghost function Here(): State
      reads this, consumer
    {
      State(consumer.next, consumer.trace, consumer.events, consumer.fills, logOffset, readOffset)
    }

    ghost predicate Ready()
      reads this, consumer
    {
      Valid(consumer.world, Here())
    }

    /** Takes the snapshot unless it was taken; returns -1 exactly if a call of the client failed. */
    method FillOffset() returns (ret: int)
      requires Ready()
      modifies this, consumer
      ensures consumer.committed == old(consumer.committed)
      ensures Ready() && Here() == KafkaReader.FillOffset(consumer.world, old(Here()))
      ensures consumer.next == old(consumer.next) && consumer.events == old(consumer.events)
      ensures ret == 0 || ret == -1
      ensures ret == 0 && old(logOffset) == [] ==> forall i :: 0 <= i < |logOffset| ==> logOffset[i] >= 0
      ensures ret == -1 ==> old(logOffset) == []
      ensures ret == -1 ==> logOffset == [] || exists i :: 0 <= i < |logOffset| && logOffset[i] < 0
    {
      FillKeepsValid(consumer.world, Here());
      if logOffset != [] { return 0; }
      var ok, partitions := consumer.Assignment(false);
      if !ok { return -1; }
      readOffset := partitions;
      ok, partitions := consumer.Assignment(true);
      if !ok { return -1; }
      logOffset := partitions;
      hide Advance, Snapshot;
      ok := QueryMarks();
      ret := if ok then 0 else -1;
    }

    /** Asks for one watermark after another, and stops at the first query that fails. */
    method QueryMarks() returns (ok: bool)
      requires logOffset != [] ==> consumer.fill.Assigned?
      requires forall i :: 0 <= i < |logOffset| ==> logOffset[i] == OFFSET_INVALID
      modifies `logOffset
      ensures old(logOffset) == [] ==> logOffset == []
      ensures old(logOffset) != [] ==> logOffset == Snapshot(|old(logOffset)|, consumer.fill.highs)
      ensures ok <==> forall i :: 0 <= i < |logOffset| ==> logOffset[i] >= 0
    {
      if logOffset == [] { return true; }
      ghost var n, highs := |logOffset|, consumer.fill.highs;
      MarksStart(highs, logOffset);
      hide MarksTaken;
      var i := 0;
      while i < |logOffset|
        invariant 0 <= i <= |logOffset| == n && i <= |highs|
        invariant MarksTaken(highs, logOffset, i)
      {
        var answered, high := consumer.QueryWatermarkOffsets(i);
        if !answered {
          MarksStop(highs, logOffset, i);
          return false;
        }
        MarksGoOn(highs, logOffset, i);
        logOffset := logOffset[i := high];
        i := i + 1;
      }
      MarksStop(highs, logOffset, i);
      ok := true;
    }

    /** Hands over the next message that passes the filter, or says why there is none. */
    method Read(filterKeys: seq<string>) returns (ret: Option<ErrorCode>, msg: Bytes)
      requires Ready()
      modifies this, consumer
      ensures consumer.committed == old(consumer.committed)
      ensures Ready() && (Here(), ret, msg) == ReadFrom(consumer.world, old(Here()), filterKeys)
    {
      FillKeepsValid(consumer.world, Here());
      msg := [];
      if logOffset == [] { var _ := FillOffset(); }
      ghost var first := Here();
      while true
        invariant Ready() && msg == [] && consumer.committed == old(consumer.committed)
        invariant ReadOn(consumer.world, Here(), filterKeys) == ReadOn(consumer.world, first, filterKeys)
        decreases |consumer.events|
      {
        ghost var s := Here();
        var again;
        again, ret, msg := OneTurn(filterKeys);
        TurnKeeps(consumer.world, s, filterKeys);
        if !again { return; }
      }
    }

    /** The body of the loop in Read. */
    method OneTurn(filterKeys: seq<string>) returns (again: bool, ret: Option<ErrorCode>, msg: Bytes)
      requires Ready()
      modifies this, consumer
      ensures consumer.committed == old(consumer.committed)
      ensures Ready()
      ensures TakeTurn(consumer.world, old(Here()), filterKeys)
           == if again then GoesOn(Here()) else Ends(Here(), ret, msg)
      ensures again ==> msg == []
    {
      hide Advance, Snapshot;
      TurnKeeps(consumer.world, Here(), filterKeys);
      ConsumeKeepsValid(consumer.world, Here());
      again, ret, msg := false, None, [];
      var kmsg := consumer.ConsumeOne();
      match kmsg
      case Horizon =>
      case Failure(Timeout(positionKnown)) =>
        again, ret := OnTimedOut(positionKnown);
      case Got(m) =>
        if logOffset == [] { var _ := FillOffset(); }
        if m.key.None? {
          ret := Some(ERR__FAIL);
        } else if filterKeys != [] {
          var found := Contains(filterKeys, m.key.value);
          if found { ret, msg := Some(ERR_NO_ERROR), m.payload; } else { again := true; }
        } else {
          ret, msg := Some(ERR_NO_ERROR), m.payload;
        }
      case Failure(PartitionEof) => ret := Some(ERR__PARTITION_EOF);
      case Failure(UnknownTopic) => ret := Some(ERR__UNKNOWN_PARTITION);
      case Failure(UnknownPartition) => ret := Some(ERR__UNKNOWN_PARTITION);
      case Failure(_) => ret := Some(ERR__FAIL);
    }

    /** A timeout ends the read once every partition it consumed from is at its mark. */
    method OnTimedOut(positionKnown: bool) returns (again: bool, ret: Option<ErrorCode>)
      requires Ready()
      modifies this, consumer
      ensures consumer.committed == old(consumer.committed)
      ensures OnTimeout(consumer.world, old(Here()), positionKnown)
           == if again then GoesOn(Here()) else Ends(Here(), ret, [])
    {
      hide Advance, Snapshot;
      ret := None;
      if logOffset == [] {
        var _ := FillOffset();
        return true, None;
      }
      if !positionKnown { return false, Some(ERR__FAIL); }
      readOffset := consumer.Position();
      var i, readEnd := 0, true;
      while i < |logOffset| && readEnd
        invariant 0 <= i <= |logOffset| == |readOffset|
        invariant readEnd ==>
                    forall j :: 0 <= j < i ==> readOffset[j] <= OFFSET_INVALID || readOffset[j] >= logOffset[j]
        invariant !readEnd ==>
                    exists j :: 0 <= j < |logOffset| && OFFSET_INVALID < readOffset[j] < logOffset[j]
      {
        if readOffset[i] > OFFSET_INVALID && readOffset[i] < logOffset[i] { readEnd := false; }
        i := i + 1;
      }
      again, ret := !readEnd, if readEnd then Some(ERR__TIMED_OUT) else None;
    }

    method CommitOffset() returns (ret: int)
      requires Ready()
      modifies consumer`committed
      ensures ret == consumer.commitAnswer
      ensures consumer.committed == if ret == 0 then consumer.next else old(consumer.committed)
    {
      ret := consumer.CommitSync();
    }
  }

  method Contains(keys: seq<string>, key: string) returns (found: bool)
    ensures found <==> key in keys
  {
    found := false;
    for i := 0 to |keys|
      invariant found <==> key in keys[..i]
    {
      if keys[i] == key { return true; }
    }
    assert keys[..|keys|] == keys;
  }
}
