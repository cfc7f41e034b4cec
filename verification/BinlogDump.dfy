/**
 The program itself: it reads entries from the topic, decodes the entry and then the message
 inside it, and counts the row changes.
 */
module BinlogDump {
  import opened Wire
  import opened KafkaReader
  import BinlogKafka
  import EntryMessage
  import RowChangeMessage
  import MessageBytes

  const TRANSACTIONBEGIN: int32 := 1
  const ROWDATA: int32 := 2
  const TRANSACTIONEND: int32 := 3

  const INSERT: int32 := 1
  const UPDATE: int32 := 2
  const DELETE: int32 := 3

  datatype Statistics = Statistics(totalRows: uint64, insertCnt: uint64, updateCnt: uint64, deleteCnt: uint64)

  const NO_ROWS: Statistics := Statistics(0, 0, 0, 0)

  /** An increment of an unsigned 64-bit counter. */
  function Inc(n: uint64): uint64 { (n + 1) % TWO64 }

  /** An enum member that is absent reads as 0. */
  function EnumOf(v: Option<int32>): int32 { if v.Some? then v.value else 0 }

  /** Both layers decode: the entry, and the row change in it if the entry says it holds one. */
  predicate WellFormed(data: Bytes) {
    && EntryMessage.Parse(data).Some?
    && (EnumOf(EntryMessage.Parse(data).value.entryType) == ROWDATA ==>
          RowChangeMessage.Parse(EntryMessage.Parse(data).value.storeValue).Some?)
  }

  /** The event type of the row change inside an entry, if it holds one. */
  function RowEvent(data: Bytes): Option<int32>
    requires WellFormed(data)
  {
    var entry := EntryMessage.Parse(data).value;
    if EnumOf(entry.entryType) == ROWDATA
    then Some(EnumOf(RowChangeMessage.Parse(entry.storeValue).value.eventType))
    else None
  }

  function AddRow(st: Statistics, eventType: int32): Statistics {
    var counted := st.(totalRows := Inc(st.totalRows));
    if eventType == INSERT then counted.(insertCnt := Inc(st.insertCnt))
    else if eventType == UPDATE then counted.(updateCnt := Inc(st.updateCnt))
    else if eventType == DELETE then counted.(deleteCnt := Inc(st.deleteCnt))
    else counted
  }

  function AddEntry(st: Statistics, data: Bytes): Statistics
    requires WellFormed(data)
  {
    if RowEvent(data).Some? then AddRow(st, RowEvent(data).value) else st
  }

  // --------------------------------------------------------- an entry's meaning

  /** What a producer puts on the topic: an entry around the serialisation of a message. */
  datatype Item = Item(entry: EntryMessage.EntryValue, row: RowChangeMessage.RowChangeValue)

  /** An entry a producer can serialise, whose storeValue is its row change if it is a row entry. */
  ghost predicate Produced(item: Item) {
    && EntryMessage.Valid(item.entry) && EntryMessage.Serialize(item.entry).Some?
    && (IsRow(item) ==>
          && RowChangeMessage.Valid(item.row)
          && RowChangeMessage.Serialize(item.row) == Some(item.entry.storeValue))
  }

  predicate IsRow(item: Item) { item.entry.entryType == Some(2) }

  /** What a counter counts: row entries of any kind, or those of one event type. */
  datatype Kind = AnyRow | RowOf(eventType: int32)

  predicate IsOfKind(item: Item, kind: Kind) {
    IsRow(item) && (kind.RowOf? ==> item.row.eventType == Some(kind.eventType))
  }

  ghost predicate Carries(data: Bytes, item: Item) {
    Produced(item) && EntryMessage.Serialize(item.entry) == Some(data)
  }

  /** Two-layer decoding: the entry comes back, and then the row change inside it. */
  lemma TwoLayers(data: Bytes, item: Item)
    requires Carries(data, item)
    ensures EntryMessage.Parse(data) == Some(item.entry)
    ensures WellFormed(data)
    ensures IsRow(item) ==> RowChangeMessage.Parse(item.entry.storeValue) == Some(item.row)
    ensures RowEvent(data) == if IsRow(item) then Some(EnumOf(item.row.eventType)) else None
  {
    hide EntryMessage.Parse, EntryMessage.Valid, EntryMessage.Serialize;
    hide RowChangeMessage.Parse, RowChangeMessage.Valid, RowChangeMessage.Serialize;
    EntryMessage.RoundTrip(item.entry);
    if IsRow(item) { RowChangeMessage.RoundTrip(item.row); }
  }

  /** What an entry does to the counters, its types as the numbers they are on the wire: a row entry is
      of type 2, an insert of event type 1, an update of 2, a delete of 3. No other entry counts. */
  ghost predicate CountsOnce(before: Statistics, after: Statistics, item: Item) {
    if item.entry.entryType != Some(2) then after == before
    else
      && after.totalRows == OneMoreIf(true, before.totalRows)
      && after.insertCnt == OneMoreIf(item.row.eventType == Some(1), before.insertCnt)
      && after.updateCnt == OneMoreIf(item.row.eventType == Some(2), before.updateCnt)
      && after.deleteCnt == OneMoreIf(item.row.eventType == Some(3), before.deleteCnt)
  }

  /** Any bytes that parse count as what they parse to. */
  lemma ParsedCounts(st: Statistics, data: Bytes, item: Item)
    requires EntryMessage.Parse(data) == Some(item.entry)
    requires item.entry.entryType == Some(2) ==> RowChangeMessage.Parse(item.entry.storeValue) == Some(item.row)
    ensures WellFormed(data) && CountsOnce(st, AddEntry(st, data), item)
  {
    hide EntryMessage.ParseFrom, RowChangeMessage.ParseFrom;
  }

  /** What was produced counts as what it was produced from. */
  lemma EntryCounts(st: Statistics, data: Bytes, item: Item)
    requires EntryMessage.Valid(item.entry) && EntryMessage.Serialize(item.entry) == Some(data)
    requires item.entry.entryType == Some(2) ==>
               && RowChangeMessage.Valid(item.row)
               && RowChangeMessage.Serialize(item.row) == Some(item.entry.storeValue)
    ensures WellFormed(data) && CountsOnce(st, AddEntry(st, data), item)
  {
    hide EntryMessage.Parse, EntryMessage.Valid, EntryMessage.Serialize, WellFormed;
    hide RowChangeMessage.Parse, RowChangeMessage.Valid, RowChangeMessage.Serialize;
    EntryMessage.RoundTrip(item.entry);
    if item.entry.entryType == Some(2) { RowChangeMessage.RoundTrip(item.row); }
    ParsedCounts(st, data, item);
  }

  /** A 64-bit counter wraps around. */
  function OneMoreIf(counted: bool, n: uint64): uint64 {
    if !counted then n else if n == 0xFFFF_FFFF_FFFF_FFFF then 0 else n + 1
  }

  const AN_INSERT: RowChangeMessage.RowChangeValue := RowChangeMessage.EMPTY.(eventType := Some(1))
  const A_ROW_ENTRY: EntryMessage.EntryValue := EntryMessage.EMPTY.(entryType := Some(2), storeValue := [16, 1])

  lemma AnInsertIsWritten()
    ensures RowChangeMessage.Valid(AN_INSERT) && RowChangeMessage.Serialize(AN_INSERT) == Some([16, 1])
  {
    MessageBytes.RowChangeIsWritten(AN_INSERT);
    MessageBytes.NothingWritten();
    assert Varint(1) == [1];
    hide EncodeRecords, RowChangeMessage.Serialize, RowChangeMessage.Encode, Varint;
    assert MessageBytes.RowChangeWritten(AN_INSERT) == [16, 1];
  }

  lemma ARowEntryIsWritten()
    ensures EntryMessage.Valid(A_ROW_ENTRY) && EntryMessage.Serialize(A_ROW_ENTRY) == Some([16, 2, 26, 2, 16, 1])
  {
    MessageBytes.EntryIsWritten(A_ROW_ENTRY);
    MessageBytes.NothingWritten();
    assert Varint(2) == [2];
    hide EncodeRecords, EntryMessage.Serialize, EntryMessage.Encode, Varint;
    assert MessageBytes.EntryWritten(A_ROW_ENTRY) == [16, 2, 26, 2, 16, 1];
  }

  /** An entry of six bytes: type 2, around a row change of two bytes with event type 1. */
  lemma AnInsertIsCounted()
    ensures WellFormed([16, 2, 26, 2, 16, 1])
    ensures AddEntry(NO_ROWS, [16, 2, 26, 2, 16, 1]) == Statistics(1, 1, 0, 0)
  {
    AnInsertIsWritten();
    ARowEntryIsWritten();
    hide WellFormed, AddEntry, EntryMessage.Serialize, EntryMessage.Valid,
         RowChangeMessage.Serialize, RowChangeMessage.Valid;
    EntryCounts(NO_ROWS, [16, 2, 26, 2, 16, 1], Item(A_ROW_ENTRY, AN_INSERT));
  }

  // ------------------------------------------------------------ whole runs

  predicate AllWellFormed(datas: seq<Bytes>) {
    forall i :: 0 <= i < |datas| ==> WellFormed(datas[i])
  }

  ghost predicate AllCarry(datas: seq<Bytes>, items: seq<Item>) {
    |datas| == |items| && forall i :: 0 <= i < |items| ==> Carries(datas[i], items[i])
  }

  function AddAll(st: Statistics, datas: seq<Bytes>): Statistics
    requires AllWellFormed(datas)
  {
    if datas == [] then st else AddEntry(AddAll(st, datas[..|datas| - 1]), datas[|datas| - 1])
  }

  function CountOf(items: seq<Item>, kind: Kind): nat {
    if items == [] then 0
    else CountOf(items[..|items| - 1], kind) + (if IsOfKind(items[|items| - 1], kind) then 1 else 0)
  }

  /** What a 64-bit counter shows after n increments. */
  function Counter(n: nat): uint64 { n % TWO64 }

  lemma IncCounts(n: nat)
    ensures Inc(Counter(n)) == Counter(n + 1)
  {
  }

  lemma SmallCounter(n: nat)
    requires n < TWO64
    ensures Counter(n) == n
  {
  }

  lemma {:induction false} CountsAreBounded(items: seq<Item>)
    ensures CountOf(items, RowOf(INSERT)) + CountOf(items, RowOf(UPDATE)) + CountOf(items, RowOf(DELETE))
         <= CountOf(items, AnyRow)
    ensures CountOf(items, AnyRow) <= |items|
  {
    if items != [] { CountsAreBounded(items[..|items| - 1]); }
  }

  /** A count is the number of the places where such an item stands. */
  lemma {:induction false} CountIsCardinality(items: seq<Item>, kind: Kind)
    ensures CountOf(items, kind) == |Places(items, kind)|
  {
    if items != [] {
      CountIsCardinality(items[..|items| - 1], kind);
      PlacesUnroll(items, kind);
      hide IsOfKind, Places;
    }
  }

  lemma PlacesUnroll(items: seq<Item>, kind: Kind)
    requires items != []
    ensures var init := items[..|items| - 1];
            |Places(items, kind)| == |Places(init, kind)| + (if IsOfKind(items[|init|], kind) then 1 else 0)
  {
    var init := items[..|items| - 1];
    var before, now := Places(init, kind), Places(items, kind);
    assert forall i: nat :: i in now <==> i in before || (i == |init| && IsOfKind(items[i], kind));
    assert now == if IsOfKind(items[|init|], kind) then before + {|init|} else before;
  }

  function Places(items: seq<Item>, kind: Kind): set<nat> {
    set i: nat | i < |items| && items[i].entry.entryType == Some(2)
                 && (kind.AnyRow? || items[i].row.eventType == Some(kind.eventType))
  }

  lemma ProducedIsWellFormed(datas: seq<Bytes>, items: seq<Item>)
    requires AllCarry(datas, items)
    ensures AllWellFormed(datas)
  {
    hide WellFormed, Carries;
    forall i | 0 <= i < |datas| ensures WellFormed(datas[i]) { TwoLayers(datas[i], items[i]); }
  }

  /** What the counters show after the items. */
  function Totals(items: seq<Item>): Statistics {
    Statistics(Counter(CountOf(items, AnyRow)), Counter(CountOf(items, RowOf(INSERT))),
               Counter(CountOf(items, RowOf(UPDATE))), Counter(CountOf(items, RowOf(DELETE))))
  }

  lemma CarryUnrolls(datas: seq<Bytes>, items: seq<Item>)
    requires AllCarry(datas, items)
    ensures datas == [] <==> items == []
    ensures items != [] ==>
              && AllCarry(datas[..|datas| - 1], items[..|items| - 1])
              && Carries(datas[|datas| - 1], items[|items| - 1])
  {
    hide Carries;
  }

  lemma AddAllUnrolls(st: Statistics, datas: seq<Bytes>)
    requires AllWellFormed(datas) && datas != []
    ensures AllWellFormed(datas[..|datas| - 1]) && WellFormed(datas[|datas| - 1])
    ensures AddAll(st, datas) == AddEntry(AddAll(st, datas[..|datas| - 1]), datas[|datas| - 1])
  {
    hide WellFormed, AddEntry;
  }

  lemma TotalsUnroll(items: seq<Item>)
    requires items != []
    ensures var init, last := items[..|items| - 1], items[|items| - 1];
            Totals(items) == if IsRow(last) then AddRow(Totals(init), EnumOf(last.row.eventType)) else Totals(init)
  {
    hide Inc, Counter;
    var init := items[..|items| - 1];
    IncCounts(CountOf(init, AnyRow));
    IncCounts(CountOf(init, RowOf(INSERT)));
    IncCounts(CountOf(init, RowOf(UPDATE)));
    IncCounts(CountOf(init, RowOf(DELETE)));
  }

  /** The statistics of a run over produced entries are the counts of what was produced, as far as
      64-bit counters go. */
  lemma {:induction false} StatisticsAreCounts(datas: seq<Bytes>, items: seq<Item>)
    requires AllCarry(datas, items)
    ensures AllWellFormed(datas)
    ensures AddAll(NO_ROWS, datas) == Totals(items)
  {
    ProducedIsWellFormed(datas, items);
    hide WellFormed, Carries, AllCarry, AllWellFormed, AddAll, RowEvent, IsRow, AddRow, EnumOf;
    CarryUnrolls(datas, items);
    if items == [] {
      NothingCounted();
    } else {
      TotalsUnroll(items);
      hide Totals;
      TwoLayers(datas[|datas| - 1], items[|items| - 1]);
      StatisticsAreCounts(datas[..|datas| - 1], items[..|items| - 1]);
      AddAllUnrolls(NO_ROWS, datas);
    }
  }

  lemma NothingCounted()
    ensures AllWellFormed([]) && AddAll(NO_ROWS, []) == Totals([])
  {
    assert Counter(0) == 0;
  }

  /** The same with the counters read as numbers, for a run that does not exhaust them. */
  lemma StatisticsOfRun(datas: seq<Bytes>, items: seq<Item>)
    requires AllCarry(datas, items) && |items| < TWO64
    ensures AllWellFormed(datas)
    ensures var st := AddAll(NO_ROWS, datas);
            && st.totalRows == CountOf(items, AnyRow)
            && st.insertCnt == CountOf(items, RowOf(INSERT))
            && st.updateCnt == CountOf(items, RowOf(UPDATE))
            && st.deleteCnt == CountOf(items, RowOf(DELETE))
            && st.insertCnt + st.updateCnt + st.deleteCnt <= st.totalRows
  {
    StatisticsAreCounts(datas, items);
    CountsAreBounded(items);
    hide AllCarry, AllWellFormed, AddAll, CountOf, Counter;
    SmallCounter(CountOf(items, AnyRow));
    SmallCounter(CountOf(items, RowOf(INSERT)));
    SmallCounter(CountOf(items, RowOf(UPDATE)));
    SmallCounter(CountOf(items, RowOf(DELETE)));
  }

  // ------------------------------------------- the statistics of an execution

  /** Every message of the logs carries an item. */
  ghost predicate LogsCarry(w: World, items: seq<seq<Item>>) {
    && |items| == |w.logs|
    && (forall p :: 0 <= p < |items| ==> |items[p]| == |w.logs[p]|)
    && (forall p, i :: 0 <= p < |items| && 0 <= i < |items[p]| ==> Carries(w.logs[p][i].payload, items[p][i]))
  }

  /** The items of a stretch of a log whose messages a filter lets through. */
  function Chosen(filter: seq<string>, ms: seq<Message>, its: seq<Item>): seq<Item>
    requires |ms| == |its|
  {
    if ms == [] then []
    else
      Chosen(filter, ms[..|ms| - 1], its[..|its| - 1])
      + (if Wanted(filter, ms[|ms| - 1]) then [its[|its| - 1]] else [])
  }

  ghost predicate Stretches(w: World, items: seq<seq<Item>>, to: seq<nat>) {
    && LogsCarry(w, items) && Within(w, w.start) && Within(w, to)
    && forall p :: 0 <= p < |to| ==> w.start[p] <= to[p]
  }

  /** The rows of a kind chosen from partition p between its start and to. */
  ghost function CountIn(w: World, items: seq<seq<Item>>, filter: seq<string>, to: seq<nat>, kind: Kind, p: nat): nat
    requires Stretches(w, items, to) && p < |w.logs|
  {
    CountOf(Chosen(filter, w.logs[p][w.start[p]..to[p]], items[p][w.start[p]..to[p]]), kind)
  }

  /** Their sum over the first n partitions. */
  ghost function SumOf(w: World, items: seq<seq<Item>>, filter: seq<string>, to: seq<nat>, kind: Kind, n: nat): nat
    requires Stretches(w, items, to) && n <= |w.logs|
  {
    if n == 0 then 0
    else SumOf(w, items, filter, to, kind, n - 1) + CountIn(w, items, filter, to, kind, n - 1)
  }

  ghost predicate InLogs(items: seq<seq<Item>>, tr: seq<Consumed>) {
    forall i :: 0 <= i < |tr| ==> tr[i].partition < |items| && tr[i].offset < |items[tr[i].partition]|
  }

  /** The items of the consumed messages a filter lets through, in the order they were consumed. */
  function ItemsOf(items: seq<seq<Item>>, filter: seq<string>, tr: seq<Consumed>): seq<Item>
    requires InLogs(items, tr)
  {
    if tr == [] then []
    else
      var c := tr[|tr| - 1];
      ItemsOf(items, filter, tr[..|tr| - 1])
      + (if Wanted(filter, c.message) then [items[c.partition][c.offset]] else [])
  }

  /** One message more of partition p adds its item, if the filter lets it through. */
  lemma CountInGrows(w: World, items: seq<seq<Item>>, filter: seq<string>, to: seq<nat>, kind: Kind, p: nat)
    requires Stretches(w, items, to) && p < |w.logs| && to[p] < |w.logs[p]|
    ensures var to1 := to[p := to[p] + 1];
            && Stretches(w, items, to1)
            && CountIn(w, items, filter, to1, kind, p) == CountIn(w, items, filter, to, kind, p)
               + (if Wanted(filter, w.logs[p][to[p]]) && IsOfKind(items[p][to[p]], kind) then 1 else 0)
  {
    hide Carries, Wanted, IsOfKind;
    var to1 := to[p := to[p] + 1];
    var ms, its := w.logs[p][w.start[p]..to1[p]], items[p][w.start[p]..to1[p]];
    assert ms[..|ms| - 1] == w.logs[p][w.start[p]..to[p]] && its[..|its| - 1] == items[p][w.start[p]..to[p]];
    var before := Chosen(filter, ms[..|ms| - 1], its[..|its| - 1]);
    assert (before + [its[|its| - 1]])[..|before|] == before;
    assert before + [] == before;
  }

  /** The other partitions count what they counted. */
  lemma CountInStays(w: World, items: seq<seq<Item>>, filter: seq<string>, to: seq<nat>, to1: seq<nat>, kind: Kind,
                     q: nat)
    requires Stretches(w, items, to) && Stretches(w, items, to1) && q < |w.logs| && to1[q] == to[q]
    ensures CountIn(w, items, filter, to1, kind, q) == CountIn(w, items, filter, to, kind, q)
  {
  }

  lemma SumUnrolls(w: World, items: seq<seq<Item>>, filter: seq<string>, to: seq<nat>, kind: Kind, n: nat)
    requires Stretches(w, items, to) && n <= |w.logs|
    ensures SumOf(w, items, filter, to, kind, n)
         == if n == 0 then 0
            else SumOf(w, items, filter, to, kind, n - 1) + CountIn(w, items, filter, to, kind, n - 1)
  {
  }

  /** The sum moves by what one partition moves. */
  lemma {:induction false} SumMoves(w: World, items: seq<seq<Item>>, filter: seq<string>, to: seq<nat>, to1: seq<nat>,
                                    kind: Kind, p: nat, n: nat)
    requires Stretches(w, items, to) && Stretches(w, items, to1) && p < |w.logs| && n <= |w.logs|
    requires forall q :: 0 <= q < |w.logs| && q != p ==> to1[q] == to[q]
    ensures SumOf(w, items, filter, to1, kind, n) - SumOf(w, items, filter, to, kind, n)
         == if p < n then CountIn(w, items, filter, to1, kind, p) - CountIn(w, items, filter, to, kind, p) else 0
  {
    hide CountIn, SumOf, Stretches;
    SumUnrolls(w, items, filter, to, kind, n);
    SumUnrolls(w, items, filter, to1, kind, n);
    if n > 0 {
      SumMoves(w, items, filter, to, to1, kind, p, n - 1);
      if n - 1 != p { CountInStays(w, items, filter, to, to1, kind, n - 1); }
    }
  }

  lemma SumGrows(w: World, items: seq<seq<Item>>, filter: seq<string>, to: seq<nat>, kind: Kind, p: nat)
    requires Stretches(w, items, to) && p < |w.logs| && to[p] < |w.logs[p]|
    ensures var to1 := to[p := to[p] + 1];
            && Stretches(w, items, to1)
            && SumOf(w, items, filter, to1, kind, |w.logs|) == SumOf(w, items, filter, to, kind, |w.logs|)
               + (if Wanted(filter, w.logs[p][to[p]]) && IsOfKind(items[p][to[p]], kind) then 1 else 0)
  {
    hide CountIn, SumOf, Wanted, IsOfKind, Carries;
    CountInGrows(w, items, filter, to, kind, p);
    SumMoves(w, items, filter, to, to[p := to[p] + 1], kind, p, |w.logs|);
  }

  lemma {:induction false} NothingSummed(w: World, items: seq<seq<Item>>, filter: seq<string>, kind: Kind, n: nat)
    requires Stretches(w, items, w.start) && n <= |w.logs|
    ensures SumOf(w, items, filter, w.start, kind, n) == 0
  {
    if n > 0 { NothingSummed(w, items, filter, kind, n - 1); }
  }

  /** One consumed message more adds its item to the items chosen. */
  lemma ItemsGrow(items: seq<seq<Item>>, filter: seq<string>, init: seq<Consumed>, c: Consumed, kind: Kind)
    requires c.partition < |items| && c.offset < |items[c.partition]|
    requires Carries(c.message.payload, items[c.partition][c.offset])
    requires InLogs(items, init) && AllCarry(Payloads(filter, init), ItemsOf(items, filter, init))
    ensures InLogs(items, init + [c])
    ensures AllCarry(Payloads(filter, init + [c]), ItemsOf(items, filter, init + [c]))
    ensures CountOf(ItemsOf(items, filter, init + [c]), kind) == CountOf(ItemsOf(items, filter, init), kind)
            + (if Wanted(filter, c.message) && IsOfKind(items[c.partition][c.offset], kind) then 1 else 0)
  {
    hide Carries, Wanted, IsOfKind;
    var tr := init + [c];
    assert tr[..|tr| - 1] == init;
    var before := ItemsOf(items, filter, init);
    assert (before + [items[c.partition][c.offset]])[..|before|] == before;
    assert before + [] == before;
  }

  /** A trace that advances was advancing before its last message, which came from the log. */
  lemma AdvanceUnrolls(w: World, tr: seq<Consumed>, to: seq<nat>)
    requires Within(w, w.start) && tr != [] && Advance(w, w.start, tr) == Some(to)
    ensures var c, before := tr[|tr| - 1], Advance(w, w.start, tr[..|tr| - 1]);
            && before.Some? && c.partition < |before.value| == |w.logs|
            && c.offset == before.value[c.partition] < |w.logs[c.partition]|
            && c.message == w.logs[c.partition][c.offset]
            && to == before.value[c.partition := c.offset + 1]
  {
  }

  /** What was consumed carries its items, and they are counted partition by partition. */
  lemma {:induction false} TraceCounts(w: World, items: seq<seq<Item>>, filter: seq<string>, tr: seq<Consumed>,
                                       to: seq<nat>, kind: Kind)
    requires LogsCarry(w, items) && Within(w, w.start) && Advance(w, w.start, tr) == Some(to)
    ensures InLogs(items, tr) && Stretches(w, items, to)
    ensures AllCarry(Payloads(filter, tr), ItemsOf(items, filter, tr))
    ensures CountOf(ItemsOf(items, filter, tr), kind) == SumOf(w, items, filter, to, kind, |w.logs|)
  {
    hide Carries, Wanted, IsOfKind, SumOf, CountOf;
    if tr == [] {
      NothingSummed(w, items, filter, kind, |w.logs|);
      NoItems(kind);
    } else {
      AdvanceUnrolls(w, tr, to);
      hide Advance;
      var init, c := tr[..|tr| - 1], tr[|tr| - 1];
      var mid := Advance(w, w.start, init).value;
      TraceCounts(w, items, filter, init, mid, kind);
      SumGrows(w, items, filter, mid, kind, c.partition);
      assert tr == init + [c];
      ItemsGrow(items, filter, init, c, kind);
    }
  }

  lemma NoItems(kind: Kind)
    ensures CountOf([], kind) == 0
  {
  }

  /** The statistics of an execution over logs of produced items: each counter is the number of the
      items of its kind in the consumed stretches, filtered, summed over the partitions. */
  lemma StatisticsOfExecution(w: World, items: seq<seq<Item>>, script: Script, filter: seq<string>)
    requires LogsCarry(w, items) && Within(w, w.start)
    ensures var (s, out, _) := Execute(w, script, filter);
            && Stretches(w, items, s.next) && AllWellFormed(out)
            && AddAll(NO_ROWS, out) == Statistics(
                 Counter(SumOf(w, items, filter, s.next, AnyRow, |w.logs|)),
                 Counter(SumOf(w, items, filter, s.next, RowOf(INSERT), |w.logs|)),
                 Counter(SumOf(w, items, filter, s.next, RowOf(UPDATE), |w.logs|)),
                 Counter(SumOf(w, items, filter, s.next, RowOf(DELETE), |w.logs|)))
  {
    var s0 := Started(w, script.events, script.fills);
    RunDelivers(w, s0, filter, script.waitMode, script.calls);
    var (s, out, _) := Execute(w, script, filter);
    assert Since(s0, s) == s.trace;
    hide Run, Carries, LogsCarry, Advance, SumOf, CountOf, AddAll, AllCarry, AllWellFormed, Counter, Payloads, ItemsOf;
    TraceCounts(w, items, filter, s.trace, s.next, AnyRow);
    TraceCounts(w, items, filter, s.trace, s.next, RowOf(INSERT));
    TraceCounts(w, items, filter, s.trace, s.next, RowOf(UPDATE));
    TraceCounts(w, items, filter, s.trace, s.next, RowOf(DELETE));
    StatisticsAreCounts(out, ItemsOf(items, filter, s.trace));
  }

  /** One entry, whatever it holds: no counter moves, or the total does and at most one other. */
  ghost predicate Counted(before: Statistics, after: Statistics) {
    after == before || exists eventType :: after == AddRow(before, eventType)
  }

  ghost predicate Consistent(st: Statistics, entries: nat) {
    st.insertCnt + st.updateCnt + st.deleteCnt <= st.totalRows <= entries
  }

  lemma CountedKeepsConsistent(before: Statistics, after: Statistics, entries: nat)
    requires Counted(before, after) && Consistent(before, entries) && entries + 1 < TWO64
    ensures Consistent(after, entries + 1)
  {
  }

  // ------------------------------------------------------------- the program

  class Dump {
    const reader: BinlogKafka.CBinlogKafkaReader
    const printRaw: bool
    var gbStat: Statistics

    constructor (reader: BinlogKafka.CBinlogKafkaReader, printRaw: bool)
      ensures this.reader == reader && gbStat == NO_ROWS
    {
      this.reader, this.printRaw, gbStat := reader, printRaw, NO_ROWS;
    }

    /** The results of both parses are ignored: after a parse that failed the message holds
        whatever was stored before the failure, and nothing is known of its type. */
    method PrintSql(data: Bytes) returns (ret: int)
      modifies `gbStat
      ensures ret == if data == [] then -1 else 0
      ensures Counted(old(gbStat), gbStat)
      ensures WellFormed(data) ==> gbStat == AddEntry(old(gbStat), data)
    {
      hide Inc, EntryMessage.ParseFrom, RowChangeMessage.ParseFrom;
      if |data| <= 0 {
        EmptyEntry();
        return -1;
      }
      var rowEntry := new EntryMessage.Entry();
      var _ := rowEntry.ParseFromString(data);
      ghost var entry := rowEntry.Value();
      var stored := [];
      if !printRaw {
        stored := rowEntry.storeValue;
        rowEntry.ClearStoreValue();
      }
      var storevalue := if printRaw then rowEntry.storeValue else stored;
      if rowEntry.EntryType() == TRANSACTIONEND {
      } else if rowEntry.EntryType() == TRANSACTIONBEGIN {
      } else if rowEntry.EntryType() == ROWDATA {
        var rowChange := new RowChangeMessage.RowChange();
        var _ := rowChange.ParseFromString(storevalue);
        CountRow(rowChange.EventType());
      }
      ret := 0;
    }

    method CountRow(eventType: int32)
      modifies `gbStat
      ensures gbStat == AddRow(old(gbStat), eventType)
    {
      hide Inc;
      gbStat := gbStat.(totalRows := Inc(gbStat.totalRows));
      match eventType
      case 1 => gbStat := gbStat.(insertCnt := Inc(gbStat.insertCnt));
      case 2 => gbStat := gbStat.(updateCnt := Inc(gbStat.updateCnt));
      case 3 => gbStat := gbStat.(deleteCnt := Inc(gbStat.deleteCnt));
      case _ =>
    }

    lemma EmptyEntry()
      ensures WellFormed([]) && RowEvent([]) == None
    {
    }

    /** The loop of the main program. The interrupt is seen before the read after the given number
        of calls; the payloads printed are those of the run, and the statistics are theirs. A run
        that is cut is still in a read, and has not come to its commit. */
    method ReadAndPrint(filterKeys: seq<string>, waitMode: bool, calls: nat, commit: bool)
      returns (end: End, ghost printed: seq<Bytes>)
      requires reader.Ready()
      modifies `gbStat, reader, reader.consumer
      ensures reader.Ready()
      ensures (reader.Here(), printed, end)
           == Run(reader.consumer.world, old(reader.Here()), filterKeys, waitMode, calls)
      ensures AllWellFormed(printed) ==> gbStat == AddAll(old(gbStat), printed)
      ensures Consistent(old(gbStat), 0) && |printed| < TWO64 ==> Consistent(gbStat, |printed|)
      ensures reader.consumer.committed
           == if commit && end != Cut && reader.consumer.commitAnswer == 0 then reader.consumer.next
              else old(reader.consumer.committed)
    {
      hide Valid, KafkaReader.ReadFrom, WellFormed, Counted, Consistent;
      ghost var w, start := reader.consumer.world, reader.Here();
      var left := calls;
      end, printed := Interrupted, [];
      PrefixedNothing(Run(w, start, filterKeys, waitMode, calls));
      while left > 0
        invariant reader.consumer.committed == old(reader.consumer.committed)
        invariant reader.Ready() && 0 <= left <= calls && end == Interrupted
        invariant Prefixed(printed, Run(w, reader.Here(), filterKeys, waitMode, left))
               == Run(w, start, filterKeys, waitMode, calls)
        invariant AllWellFormed(printed) ==> gbStat == AddAll(old(gbStat), printed)
        invariant Consistent(old(gbStat), 0) && |printed| < TWO64 ==> Consistent(gbStat, |printed|)
      {
        ghost var s := reader.Here();
        var ret, buf := reader.Read(filterKeys);
        left := left - 1;
        if ret == None {
          end := Cut;
          break;
        }
        if ret != Some(ERR_NO_ERROR) {
          if ret != Some(ERR__TIMED_OUT) {
            end := Stopped(ret.value);
            break;
          } else if waitMode {
            continue;
          } else {
            end := Stopped(ERR__TIMED_OUT);
            break;
          }
        }
        ghost var before := gbStat;
        var _ := PrintSql(buf);
        PrintedOneMore(printed, buf, old(gbStat), before, gbStat);
        PrefixedOneMore(printed, buf, Run(w, reader.Here(), filterKeys, waitMode, left));
        printed := printed + [buf];
      }
      PrefixedDone(printed, reader.Here(), end);
      if commit && end != Cut { var _ := reader.CommitOffset(); }
    }
  }

  function Prefixed(out: seq<Bytes>, r: (State, seq<Bytes>, End)): (State, seq<Bytes>, End) {
    (r.0, out + r.1, r.2)
  }

  lemma PrefixedNothing(r: (State, seq<Bytes>, End))
    ensures Prefixed([], r) == r
  {
    assert [] + r.1 == r.1;
  }

  lemma PrefixedDone(out: seq<Bytes>, s: State, end: End)
    ensures Prefixed(out, (s, [], end)) == (s, out, end)
  {
    assert out + [] == out;
  }

  lemma PrefixedOneMore(out: seq<Bytes>, data: Bytes, r: (State, seq<Bytes>, End))
    ensures Prefixed(out, (r.0, [data] + r.1, r.2)) == Prefixed(out + [data], r)
  {
    assert out + ([data] + r.1) == (out + [data]) + r.1;
  }

  lemma PrintedOneMore(datas: seq<Bytes>, data: Bytes, first: Statistics, before: Statistics, after: Statistics)
    requires AllWellFormed(datas) ==> before == AddAll(first, datas)
    requires WellFormed(data) ==> after == AddEntry(before, data)
    requires Consistent(first, 0) && |datas| < TWO64 ==> Consistent(before, |datas|)
    requires Counted(before, after)
    ensures AllWellFormed(datas + [data]) ==> after == AddAll(first, datas + [data])
    ensures Consistent(first, 0) && |datas + [data]| < TWO64 ==> Consistent(after, |datas + [data]|)
  {
    if Consistent(first, 0) && |datas| + 1 < TWO64 { CountedKeepsConsistent(before, after, |datas|); }
    hide WellFormed, AddEntry, Counted, Consistent;
    var all := datas + [data];
    assert all[..|datas|] == datas && all[|datas|] == data;
    if AllWellFormed(all) {
      assert forall i :: 0 <= i < |datas| ==> datas[i] == all[i];
      assert AllWellFormed(datas) && WellFormed(all[|datas|]);
      assert AddAll(first, all) == AddEntry(AddAll(first, all[..|all| - 1]), all[|all| - 1]);
    }
  }
}
