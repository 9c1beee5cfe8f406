/** The td / aps merge of source/datToEs.cpp as an explicit state machine: the reference the
    imperative `DatToEs.Merge` is proved against, and the place where its ordering, per-pixel
    and interleaving guarantees are proved.

    A channel is the sequence of complete 8-byte records of its file (a disabled channel has
    none). A cursor `ti` / `ai` counts the records read so far; reading at the end of a
    channel is what the source observes as `eof()`. */
module MergeEngine {
  import opened Support
  import opened Bytes
  import opened DatRecords

  /** The four reading states of the source's `Status` enumeration. */
  datatype Status = TdLate | ApsLate | TdEndOfFile | ApsEndOfFile

  /** Everything the source's main loop reads and writes: the state, the two read cursors,
      the two buffered events, the last emitted timestamp, the per-pixel table, the events
      written so far, and the `done` flag. */
  datatype Engine = Engine(status: Status, ti: nat, ai: nat, tdEvent: Event, apsEvent: Event,
                           previous: nat, table: seq<nat>, out: seq<Event>, done: bool)

  /** The per-pixel table as the source fills it before reading. */
  function Zeros(): (z: seq<nat>)
    ensures |z| == TableSize && forall i :: 0 <= i < |z| ==> z[i] == 0
  {
    seq(TableSize, i => 0)
  }

  /** The cursors stay inside their channels, the table keeps its size, and every aps record
      addresses a table entry. */
  ghost predicate Wf(td: seq<Record8>, aps: seq<Record8>, e: Engine) {
    e.ti <= |td| && e.ai <= |aps| && |e.table| == TableSize && ApsInRange(aps)
  }

  /** Admission of an aps candidate: not older than the last emitted event, and strictly
      newer than the last admitted aps event at the same pixel. */
  predicate ApsAdmits(e: Event, previous: nat, table: seq<nat>)
    requires PixelIndex(e) < |table|
  {
    e.t >= previous && e.t > table[PixelIndex(e)]
  }

  /** The index of the first td record at or after `from` whose timestamp is at least
      `previous`, or `|td|` when the channel runs out first. */
  function FirstTd(td: seq<Record8>, from: nat, previous: nat): (j: nat)
    requires from <= |td|
    ensures from <= j <= |td|
    ensures j < |td| ==> TdEvent(td[j]).t >= previous
    ensures forall k :: from <= k < j ==> TdEvent(td[k]).t < previous
    decreases |td| - from
  {
    if from == |td| || TdEvent(td[from]).t >= previous then from
    else FirstTd(td, from + 1, previous)
  }

  /** The index of the first aps record at or after `from` that the table admits, or `|aps|`
      when the channel runs out first. The table does not change while records are skipped. */
  function FirstAps(aps: seq<Record8>, from: nat, previous: nat, table: seq<nat>): (j: nat)
    requires from <= |aps| && |table| == TableSize && ApsInRange(aps)
    ensures from <= j <= |aps|
    ensures j < |aps| ==> ApsAdmits(ApsEvent(aps[j]), previous, table)
    ensures forall k :: from <= k < j ==> !ApsAdmits(ApsEvent(aps[k]), previous, table)
    decreases |aps| - from
  {
    if from == |aps| || ApsAdmits(ApsEvent(aps[from]), previous, table) then from
    else FirstAps(aps, from + 1, previous, table)
  }

  function Measure(td: seq<Record8>, aps: seq<Record8>, e: Engine): nat
    requires e.ti <= |td| && e.ai <= |aps|
  {
    if e.done then 0
    else 2 * (|td| - e.ti + |aps| - e.ai) + (if e.status == TdLate || e.status == ApsLate then 2 else 1)
  }

  /** One pass of the main loop: write the buffered event of the state's channel, remember its
      timestamp, and read that channel on to its next admitted record. */
  function Step(td: seq<Record8>, aps: seq<Record8>, e: Engine): (e': Engine)
    requires Wf(td, aps, e) && !e.done
    ensures Wf(td, aps, e') && Measure(td, aps, e') < Measure(td, aps, e)
  {
    match e.status
    case TdLate =>
      var previous := e.tdEvent.t;
      var out := e.out + [e.tdEvent];
      var j := FirstTd(td, e.ti, previous);
      if j == |td| then e.(status := TdEndOfFile, ti := j, previous := previous, out := out)
      else
        var next := TdEvent(td[j]);
        e.(status := if next.t > e.apsEvent.t then ApsLate else TdLate,
           ti := j + 1, tdEvent := next, previous := previous, out := out)
    case ApsLate =>
      var previous := e.apsEvent.t;
      var out := e.out + [e.apsEvent];
      var j := FirstAps(aps, e.ai, previous, e.table);
      if j == |aps| then e.(status := ApsEndOfFile, ai := j, previous := previous, out := out)
      else
        var next := ApsEvent(aps[j]);
        e.(status := if next.t >= e.tdEvent.t then TdLate else ApsLate,
           ai := j + 1, apsEvent := next, table := e.table[PixelIndex(next) := next.t],
           previous := previous, out := out)
    case TdEndOfFile =>
      var previous := e.apsEvent.t;
      var out := e.out + [e.apsEvent];
      var j := FirstAps(aps, e.ai, previous, e.table);
      if j == |aps| then e.(ai := j, previous := previous, out := out, done := true)
      else
        var next := ApsEvent(aps[j]);
        e.(ai := j + 1, apsEvent := next, table := e.table[PixelIndex(next) := next.t],
           previous := previous, out := out)
    case ApsEndOfFile =>
      var previous := e.tdEvent.t;
      var out := e.out + [e.tdEvent];
      var j := FirstTd(td, e.ti, previous);
      if j == |td| then e.(ti := j, previous := previous, out := out, done := true)
      else e.(ti := j + 1, tdEvent := TdEvent(td[j]), previous := previous, out := out)
  }

  /** The main loop, run until `done`. */
  function Run(td: seq<Record8>, aps: seq<Record8>, e: Engine): (f: Engine)
    requires Wf(td, aps, e)
    ensures Wf(td, aps, f) && f.done
    decreases Measure(td, aps, e)
  {
    if e.done then e else Run(td, aps, Step(td, aps, e))
  }

  /** The priming reads: the first admitted record of each channel (with the table updated
      for the aps one) and the cursors after them; the state is decided by the callers. */
  function PrimeBuffers(td: seq<Record8>, aps: seq<Record8>): (e: Engine)
    requires ApsInRange(aps)
    ensures Wf(td, aps, e)
  {
    var j := FirstTd(td, 0, 0);
    var k := FirstAps(aps, 0, 0, Zeros());
    var tdEvent := if j < |td| then TdEvent(td[j]) else DefaultEvent;
    var apsEvent := if k < |aps| then ApsEvent(aps[k]) else DefaultEvent;
    var table := if k < |aps| then Zeros()[PixelIndex(apsEvent) := apsEvent.t] else Zeros();
    Engine(TdLate, if j < |td| then j + 1 else j, if k < |aps| then k + 1 else k,
           tdEvent, apsEvent, 0, table, [], false)
  }

  /** Priming as the source writes it (lines 128-190). The state is `tdLate` unless the td
      channel is disabled or exhausted; `apsEndOfFile` then overwrites it whenever the aps
      channel is disabled or exhausted; finally, when neither stream reports `eof()`, the
      timestamps decide. A stream that was never opened never reports `eof()`, so a disabled
      channel takes part in that last comparison with its default event. */
  function PrimeAsWritten(tdEnabled: bool, apsEnabled: bool, td: seq<Record8>, aps: seq<Record8>): (e: Engine)
    requires ApsInRange(aps) && (!tdEnabled ==> td == []) && (!apsEnabled ==> aps == [])
    ensures Wf(td, aps, e)
  {
    var b := PrimeBuffers(td, aps);
    var tdFound := FirstTd(td, 0, 0) < |td|;
    var apsFound := FirstAps(aps, 0, 0, Zeros()) < |aps|;
    var afterTd := if tdFound then TdLate else TdEndOfFile;
    var afterAps := if apsFound then afterTd else ApsEndOfFile;
    var tdEof := tdEnabled && !tdFound;
    var apsEof := apsEnabled && !apsFound;
    b.(status := if !tdEof && !apsEof then (if b.tdEvent.t > b.apsEvent.t then ApsLate else TdLate)
                 else afterAps)
  }

  /** Priming decided on which channels actually hold an admitted record: both compare their
      timestamps (the td event goes first on a tie), a single one is drained in the other
      channel's end-of-file state, and with none there is nothing to write. */
  function Prime(td: seq<Record8>, aps: seq<Record8>): (e: Engine)
    requires ApsInRange(aps)
    ensures Wf(td, aps, e)
  {
    var b := PrimeBuffers(td, aps);
    var tdFound := FirstTd(td, 0, 0) < |td|;
    var apsFound := FirstAps(aps, 0, 0, Zeros()) < |aps|;
    b.(status := if tdFound && apsFound then (if b.tdEvent.t > b.apsEvent.t then ApsLate else TdLate)
                 else if tdFound then ApsEndOfFile else TdEndOfFile,
       done := !tdFound && !apsFound)
  }

  /** The records of a channel as the merge sees them: none when it is disabled. */
  function Channel(enabled: bool, records: seq<Record8>): seq<Record8> {
    if enabled then records else []
  }

  // ---------------------------------------------------------------------------------------
  // What the merge guarantees

  /** Timestamps never decrease along the sequence. */
  ghost predicate Chronological(s: seq<Event>) {
    forall i, j :: 0 <= i < j < |s| ==> s[i].t <= s[j].t
  }

  /** Two aps events at the same pixel appear with strictly increasing timestamps. */
  ghost predicate PixelStrict(s: seq<Event>) {
    forall i, j :: 0 <= i < j < |s| && s[i].isThresholdCrossing && s[j].isThresholdCrossing ==>
      PixelIndex(s[i]) == PixelIndex(s[j]) ==> s[i].t < s[j].t
  }

  /** The events of one channel (aps when `threshold`, td otherwise), in order. */
  function Part(s: seq<Event>, threshold: bool): (r: seq<Event>)
    decreases |s|
  {
    if s == [] then []
    else Part(s[..|s| - 1], threshold) + (if s[|s| - 1].isThresholdCrossing == threshold then [s[|s| - 1]] else [])
  }

  lemma PartSnoc(s: seq<Event>, x: Event, threshold: bool)
    ensures Part(s + [x], threshold) == Part(s, threshold) + (if x.isThresholdCrossing == threshold then [x] else [])
  {
    assert (s + [x])[..|s|] == s;
  }

  predicate TdPending(e: Engine) { !e.done && e.status != TdEndOfFile }
  predicate ApsPending(e: Engine) { !e.done && e.status != ApsEndOfFile }

  /** A channel's events written so far followed by its buffered event, if one is pending. */
  function View(e: Engine, threshold: bool): seq<Event> {
    Part(e.out, threshold)
      + if threshold then (if ApsPending(e) then [e.apsEvent] else [])
        else (if TdPending(e) then [e.tdEvent] else [])
  }

  /** Every aps event of `out` addresses the table, has a nonzero timestamp, and is no newer
      than its pixel's table entry. */
  ghost predicate BehindTable(out: seq<Event>, table: seq<nat>) {
    |table| == TableSize &&
    forall k :: 0 <= k < |out| && out[k].isThresholdCrossing ==>
      PixelIndex(out[k]) < TableSize && 0 < out[k].t <= table[PixelIndex(out[k])]
  }

  /** Every aps event of `out` at the pixel of `x` is older than `x`. */
  ghost predicate OlderAtPixel(out: seq<Event>, x: Event) {
    forall k :: 0 <= k < |out| && out[k].isThresholdCrossing && PixelIndex(out[k]) == PixelIndex(x) ==>
      out[k].t < x.t
  }

  /** Every aps event written so far is no newer than its pixel's table entry, and older than
      the buffered aps event when that one is pending at the same pixel. */
  ghost predicate PixelsBehindTable(e: Engine) {
    BehindTable(e.out, e.table) && (ApsPending(e) ==> OlderAtPixel(e.out, e.apsEvent))
  }

  /** Writing a td event changes nothing about the aps events. */
  lemma AppendTdPixels(out: seq<Event>, table: seq<nat>, x: Event, y: Event)
    requires !x.isThresholdCrossing
    ensures BehindTable(out + [x], table) == BehindTable(out, table)
    ensures OlderAtPixel(out + [x], y) == OlderAtPixel(out, y)
    ensures PixelStrict(out + [x]) == PixelStrict(out)
  {
    assert forall k :: 0 <= k < |out| ==> (out + [x])[k] == out[k];
  }

  /** Writing an aps event that its table entry records and that is newer than every earlier
      aps event at its pixel keeps the written aps events behind the table and strictly
      ordered per pixel. */
  lemma AppendApsPixels(out: seq<Event>, table: seq<nat>, x: Event)
    requires BehindTable(out, table) && OlderAtPixel(out, x) && PixelStrict(out)
    requires x.isThresholdCrossing && PixelIndex(x) < TableSize && 0 < x.t && table[PixelIndex(x)] == x.t
    ensures BehindTable(out + [x], table) && PixelStrict(out + [x])
  {
    assert forall k :: 0 <= k < |out| ==> (out + [x])[k] == out[k];
  }

  /** Admitting `y` (strictly newer than its table entry) raises that entry and leaves every
      written aps event behind the table and older than `y` at its pixel. */
  lemma AdmitPixels(out: seq<Event>, table: seq<nat>, y: Event)
    requires BehindTable(out, table) && PixelIndex(y) < TableSize && y.t > table[PixelIndex(y)]
    ensures BehindTable(out, table[PixelIndex(y) := y.t]) && OlderAtPixel(out, y)
  {
  }

  /** Output order: the written timestamps never decrease and none is newer than the last. */
  ghost predicate OrderInv(e: Engine) {
    Chronological(e.out) && forall k :: 0 <= k < |e.out| ==> e.out[k].t <= e.previous
  }

  /** A pending buffer holds the decoded record just before its cursor, not older than the
      last written event; an aps one is recorded in the table; the state names the older
      buffer; a channel with nothing pending has been read to its end. */
  ghost predicate BufferInv(td: seq<Record8>, aps: seq<Record8>, e: Engine)
    requires Wf(td, aps, e)
  {
    && (TdPending(e) ==> 0 < e.ti && e.tdEvent == TdEvent(td[e.ti - 1]) && e.previous <= e.tdEvent.t)
    && (!TdPending(e) ==> e.ti == |td|)
    && (ApsPending(e) ==> 0 < e.ai && e.apsEvent == ApsEvent(aps[e.ai - 1]) && e.previous <= e.apsEvent.t
                          && 0 < e.apsEvent.t && e.table[PixelIndex(e.apsEvent)] == e.apsEvent.t)
    && (!ApsPending(e) ==> e.ai == |aps|)
    && (!e.done && e.status == TdLate ==> e.tdEvent.t <= e.apsEvent.t)
    && (!e.done && e.status == ApsLate ==> e.apsEvent.t < e.tdEvent.t)
  }

  ghost predicate PixelInv(e: Engine) {
    PixelsBehindTable(e) && PixelStrict(e.out)
  }

  /** What the td channel still contributes after its cursor: the records its admission rule
      keeps, counted from the pending event's timestamp (nothing once the channel has ended). */
  function TdRest(td: seq<Record8>, e: Engine): seq<Event>
    requires e.ti <= |td|
  {
    if TdPending(e) then Monotone(DecodedTd(td)[e.ti..], e.tdEvent.t) else []
  }

  /** The same for the aps channel, against the pending event's timestamp and the table. */
  ghost function ApsRest(aps: seq<Record8>, e: Engine): seq<Event>
    requires e.ai <= |aps| && |e.table| == TableSize && ApsInRange(aps)
  {
    if ApsPending(e) then ApsFilter(DecodedAps(aps)[e.ai..], e.apsEvent.t, e.table) else []
  }

  /** Each channel's view followed by what it still contributes is the whole channel under
      its admission rule: no admitted record is lost, none is written twice, and none that
      the rule drops is written. */
  ghost predicate ViewInv(td: seq<Record8>, aps: seq<Record8>, e: Engine)
    requires Wf(td, aps, e)
  {
    TdViewInv(td, e) && ApsViewInv(aps, e)
  }

  ghost predicate TdViewInv(td: seq<Record8>, e: Engine)
    requires e.ti <= |td|
  {
    Monotone(DecodedTd(td), 0) == View(e, false) + TdRest(td, e)
  }

  ghost predicate ApsViewInv(aps: seq<Record8>, e: Engine)
    requires e.ai <= |aps| && |e.table| == TableSize && ApsInRange(aps)
  {
    ApsFilter(DecodedAps(aps), 0, Zeros()) == View(e, true) + ApsRest(aps, e)
  }

  /** The invariant of the main loop. */
  ghost predicate Inv(td: seq<Record8>, aps: seq<Record8>, e: Engine) {
    Wf(td, aps, e) && OrderInv(e) && BufferInv(td, aps, e) && PixelInv(e) && ViewInv(td, aps, e)
  }

  /** Appending an event not older than the last written one keeps the output in order. */
  lemma AppendKeepsOrder(s: seq<Event>, previous: nat, x: Event)
    requires Chronological(s) && (forall k :: 0 <= k < |s| ==> s[k].t <= previous) && previous <= x.t
    ensures Chronological(s + [x]) && forall k :: 0 <= k < |s + [x]| ==> (s + [x])[k].t <= x.t
  {
  }

  /** What writing the td buffer changes. */
  lemma EmitTdShape(td: seq<Record8>, aps: seq<Record8>, e: Engine)
    requires Wf(td, aps, e) && !e.done && (e.status == TdLate || e.status == ApsEndOfFile)
    ensures var e', j := Step(td, aps, e), FirstTd(td, e.ti, e.tdEvent.t);
      && e'.out == e.out + [e.tdEvent] && e'.previous == e.tdEvent.t && e'.table == e.table
      && e'.apsEvent == e.apsEvent && e'.ai == e.ai && ApsPending(e') == ApsPending(e)
      && (j == |td| ==> e'.ti == |td| && e'.tdEvent == e.tdEvent && !TdPending(e'))
      && (j < |td| ==> e'.ti == j + 1 && e'.tdEvent == TdEvent(td[j]) && TdPending(e'))
      && (TdPending(e') && e'.status == TdLate ==> e'.tdEvent.t <= e'.apsEvent.t)
      && (TdPending(e') && e'.status == ApsLate ==> e'.apsEvent.t < e'.tdEvent.t)
      && (e'.done ==> e.status == ApsEndOfFile)
      && (!e'.done && e'.status == ApsEndOfFile ==> e.status == ApsEndOfFile)
  {
  }

  /** What writing the aps buffer changes. */
  lemma EmitApsShape(td: seq<Record8>, aps: seq<Record8>, e: Engine)
    requires Wf(td, aps, e) && !e.done && (e.status == ApsLate || e.status == TdEndOfFile)
    ensures var e', j := Step(td, aps, e), FirstAps(aps, e.ai, e.apsEvent.t, e.table);
      && e'.out == e.out + [e.apsEvent] && e'.previous == e.apsEvent.t
      && e'.tdEvent == e.tdEvent && e'.ti == e.ti && TdPending(e') == TdPending(e)
      && (j == |aps| ==> e'.ai == |aps| && e'.table == e.table && e'.apsEvent == e.apsEvent && !ApsPending(e'))
      && (j < |aps| ==> e'.ai == j + 1 && e'.apsEvent == ApsEvent(aps[j]) && ApsPending(e')
                        && e'.table == e.table[PixelIndex(ApsEvent(aps[j])) := ApsEvent(aps[j]).t])
      && (ApsPending(e') && e'.status == TdLate ==> e'.tdEvent.t <= e'.apsEvent.t)
      && (ApsPending(e') && e'.status == ApsLate ==> e'.apsEvent.t < e'.tdEvent.t)
      && (e'.done ==> e.status == TdEndOfFile)
      && (!e'.done && e'.status == TdEndOfFile ==> e.status == TdEndOfFile)
  {
  }

  lemma EmitTdKeepsOrder(td: seq<Record8>, aps: seq<Record8>, e: Engine)
    requires Wf(td, aps, e) && BufferInv(td, aps, e) && OrderInv(e)
    requires !e.done && (e.status == TdLate || e.status == ApsEndOfFile)
    ensures OrderInv(Step(td, aps, e))
  {
    EmitTdShape(td, aps, e);
    AppendKeepsOrder(e.out, e.previous, e.tdEvent);
  }

  lemma EmitTdKeepsBuffers(td: seq<Record8>, aps: seq<Record8>, e: Engine)
    requires Wf(td, aps, e) && BufferInv(td, aps, e)
    requires !e.done && (e.status == TdLate || e.status == ApsEndOfFile)
    ensures BufferInv(td, aps, Step(td, aps, e))
  {
    EmitTdShape(td, aps, e);
  }

  lemma EmitTdKeepsPixels(td: seq<Record8>, aps: seq<Record8>, e: Engine)
    requires Wf(td, aps, e) && BufferInv(td, aps, e) && PixelInv(e)
    requires !e.done && (e.status == TdLate || e.status == ApsEndOfFile)
    ensures PixelInv(Step(td, aps, e))
  {
    EmitTdShape(td, aps, e);
    AppendTdPixels(e.out, e.table, e.tdEvent, e.apsEvent);
  }

  /** Writing the td buffer moves it from what the td channel still contributes to its view. */
  lemma EmitTdKeepsTdView(td: seq<Record8>, aps: seq<Record8>, e: Engine)
    requires Wf(td, aps, e) && !e.done && (e.status == TdLate || e.status == ApsEndOfFile)
    requires TdViewInv(td, e)
    requires !e.tdEvent.isThresholdCrossing
    ensures TdViewInv(td, Step(td, aps, e))
  {
    EmitTdShape(td, aps, e);
    TdViewMoves(td, e, Step(td, aps, e), FirstTd(td, e.ti, e.tdEvent.t));
  }

  /** The td view argument, on any successor state with the shape of a td step. */
  lemma TdViewMoves(td: seq<Record8>, e: Engine, e': Engine, j: nat)
    requires e.ti <= |td| && e'.ti <= |td| && TdPending(e) && !e.tdEvent.isThresholdCrossing
    requires TdViewInv(td, e) && j == FirstTd(td, e.ti, e.tdEvent.t)
    requires e'.out == e.out + [e.tdEvent]
    requires j == |td| ==> !TdPending(e')
    requires j < |td| ==> e'.ti == j + 1 && e'.tdEvent == TdEvent(td[j]) && TdPending(e')
    ensures TdViewInv(td, e')
  {
    var v := View(e, false);
    PartSnoc(e.out, e.tdEvent, false);
    assert Part(e'.out, false) == v;
    FirstTdIsMonotone(td, e.ti, e.tdEvent.t);
    if j < |td| {
      assert View(e', false) == v + [TdEvent(td[j])];
      assert TdRest(td, e) == [TdEvent(td[j])] + TdRest(td, e');
      AppendAssoc(v, [TdEvent(td[j])], TdRest(td, e'));
    } else {
      assert View(e', false) == v && TdRest(td, e) == [] == TdRest(td, e');
    }
  }

  lemma EmitTdKeepsApsView(td: seq<Record8>, aps: seq<Record8>, e: Engine)
    requires Wf(td, aps, e) && !e.done && (e.status == TdLate || e.status == ApsEndOfFile)
    requires ApsViewInv(aps, e)
    requires !e.tdEvent.isThresholdCrossing
    ensures ApsViewInv(aps, Step(td, aps, e))
  {
    EmitTdShape(td, aps, e);
    PartSnoc(e.out, e.tdEvent, true);
    assert View(Step(td, aps, e), true) == View(e, true);
  }

  /** Writing the buffered td event and reading the td channel on keeps the invariant. */
  lemma EmitTdKeepsInv(td: seq<Record8>, aps: seq<Record8>, e: Engine)
    requires Inv(td, aps, e) && !e.done && (e.status == TdLate || e.status == ApsEndOfFile)
    ensures Inv(td, aps, Step(td, aps, e))
  {
    EmitTdKeepsOrder(td, aps, e);
    EmitTdKeepsBuffers(td, aps, e);
    EmitTdKeepsPixels(td, aps, e);
    EmitTdKeepsTdView(td, aps, e);
    EmitTdKeepsApsView(td, aps, e);
  }

  lemma EmitApsKeepsOrder(td: seq<Record8>, aps: seq<Record8>, e: Engine)
    requires Wf(td, aps, e) && BufferInv(td, aps, e) && OrderInv(e)
    requires !e.done && (e.status == ApsLate || e.status == TdEndOfFile)
    ensures OrderInv(Step(td, aps, e))
  {
    EmitApsShape(td, aps, e);
    AppendKeepsOrder(e.out, e.previous, e.apsEvent);
  }

  lemma EmitApsKeepsBuffers(td: seq<Record8>, aps: seq<Record8>, e: Engine)
    requires Wf(td, aps, e) && BufferInv(td, aps, e)
    requires !e.done && (e.status == ApsLate || e.status == TdEndOfFile)
    ensures BufferInv(td, aps, Step(td, aps, e))
  {
    EmitApsShape(td, aps, e);
  }

  lemma EmitApsKeepsPixels(td: seq<Record8>, aps: seq<Record8>, e: Engine)
    requires Wf(td, aps, e) && BufferInv(td, aps, e) && PixelInv(e)
    requires !e.done && (e.status == ApsLate || e.status == TdEndOfFile)
    ensures PixelInv(Step(td, aps, e))
  {
    EmitApsShape(td, aps, e);
    var j := FirstAps(aps, e.ai, e.apsEvent.t, e.table);
    AppendApsPixels(e.out, e.table, e.apsEvent);
    if j < |aps| {
      AdmitPixels(e.out + [e.apsEvent], e.table, ApsEvent(aps[j]));
    }
  }

  /** Writing the aps buffer moves it from what the aps channel still contributes to its
      view. */
  lemma EmitApsKeepsApsView(td: seq<Record8>, aps: seq<Record8>, e: Engine)
    requires Wf(td, aps, e) && !e.done && (e.status == ApsLate || e.status == TdEndOfFile)
    requires ApsViewInv(aps, e)
    requires e.apsEvent.isThresholdCrossing
    ensures ApsViewInv(aps, Step(td, aps, e))
  {
    EmitApsShape(td, aps, e);
    ApsViewMoves(aps, e, Step(td, aps, e), FirstAps(aps, e.ai, e.apsEvent.t, e.table));
  }

  /** The aps view argument, on any successor state with the shape of an aps step. */
  lemma ApsViewMoves(aps: seq<Record8>, e: Engine, e': Engine, j: nat)
    requires ApsInRange(aps) && e.ai <= |aps| && e'.ai <= |aps| && |e.table| == TableSize && |e'.table| == TableSize
    requires ApsPending(e) && e.apsEvent.isThresholdCrossing
    requires ApsViewInv(aps, e) && j == FirstAps(aps, e.ai, e.apsEvent.t, e.table)
    requires e'.out == e.out + [e.apsEvent]
    requires j == |aps| ==> !ApsPending(e')
    requires j < |aps| ==> e'.ai == j + 1 && e'.apsEvent == ApsEvent(aps[j]) && ApsPending(e')
                           && e'.table == e.table[PixelIndex(ApsEvent(aps[j])) := ApsEvent(aps[j]).t]
    ensures ApsViewInv(aps, e')
  {
    var v := View(e, true);
    PartSnoc(e.out, e.apsEvent, true);
    assert Part(e'.out, true) == v;
    FirstApsIsFilter(aps, e.ai, e.apsEvent.t, e.table);
    if j < |aps| {
      assert View(e', true) == v + [ApsEvent(aps[j])];
      assert ApsRest(aps, e) == [ApsEvent(aps[j])] + ApsRest(aps, e');
      AppendAssoc(v, [ApsEvent(aps[j])], ApsRest(aps, e'));
    } else {
      assert View(e', true) == v && ApsRest(aps, e) == [] == ApsRest(aps, e');
    }
  }

  lemma EmitApsKeepsTdView(td: seq<Record8>, aps: seq<Record8>, e: Engine)
    requires Wf(td, aps, e) && !e.done && (e.status == ApsLate || e.status == TdEndOfFile)
    requires TdViewInv(td, e)
    requires e.apsEvent.isThresholdCrossing
    ensures TdViewInv(td, Step(td, aps, e))
  {
    EmitApsShape(td, aps, e);
    PartSnoc(e.out, e.apsEvent, false);
    assert View(Step(td, aps, e), false) == View(e, false);
  }

  /** Writing the buffered aps event and reading the aps channel on keeps the invariant. */
  lemma EmitApsKeepsInv(td: seq<Record8>, aps: seq<Record8>, e: Engine)
    requires Inv(td, aps, e) && !e.done && (e.status == ApsLate || e.status == TdEndOfFile)
    ensures Inv(td, aps, Step(td, aps, e))
  {
    EmitApsKeepsOrder(td, aps, e);
    EmitApsKeepsBuffers(td, aps, e);
    EmitApsKeepsPixels(td, aps, e);
    EmitApsKeepsApsView(td, aps, e);
    EmitApsKeepsTdView(td, aps, e);
  }

  /** The invariant holds on every pass of the main loop. */
  lemma StepKeepsInv(td: seq<Record8>, aps: seq<Record8>, e: Engine)
    requires Inv(td, aps, e) && !e.done
    ensures Inv(td, aps, Step(td, aps, e))
  {
    if e.status == TdLate || e.status == ApsEndOfFile {
      EmitTdKeepsInv(td, aps, e);
    } else {
      EmitApsKeepsInv(td, aps, e);
    }
  }

  /** Running the loop to the end keeps the invariant. */
  lemma {:induction false} RunKeepsInv(td: seq<Record8>, aps: seq<Record8>, e: Engine)
    requires Inv(td, aps, e)
    ensures Inv(td, aps, Run(td, aps, e))
    decreases Measure(td, aps, e)
  {
    if !e.done {
      StepKeepsInv(td, aps, e);
      RunKeepsInv(td, aps, Step(td, aps, e));
    }
  }

  /** The loop only ever appends to the output. */
  lemma {:induction false} RunExtends(td: seq<Record8>, aps: seq<Record8>, e: Engine)
    requires Wf(td, aps, e)
    ensures |e.out| <= |Run(td, aps, e).out| && Run(td, aps, e).out[..|e.out|] == e.out
    decreases Measure(td, aps, e)
  {
    if !e.done {
      var e' := Step(td, aps, e);
      assert |e'.out| == |e.out| + 1 && e'.out[..|e.out|] == e.out;
      RunExtends(td, aps, e');
    }
  }

  /** What the corrected priming sets up. */
  lemma PrimeShape(td: seq<Record8>, aps: seq<Record8>)
    requires ApsInRange(aps)
    ensures var e, j, k := Prime(td, aps), FirstTd(td, 0, 0), FirstAps(aps, 0, 0, Zeros());
      && e.out == [] && e.previous == 0 && |e.table| == TableSize
      && (|td| > 0 ==> j == 0)
      && (j < |td| ==> e.ti == j + 1 && e.tdEvent == TdEvent(td[j]) && TdPending(e))
      && (j == |td| ==> e.ti == |td| && !TdPending(e))
      && (k < |aps| ==> e.ai == k + 1 && e.apsEvent == ApsEvent(aps[k]) && ApsPending(e)
                        && e.table[PixelIndex(e.apsEvent)] == e.apsEvent.t && 0 < e.apsEvent.t)
      && (k == |aps| ==> e.ai == |aps| && !ApsPending(e))
      && (!e.done && e.status == TdLate ==> e.tdEvent.t <= e.apsEvent.t)
      && (!e.done && e.status == ApsLate ==> e.apsEvent.t < e.tdEvent.t)
  {
  }

  /** The corrected priming establishes the invariant. */
  lemma PrimeEstablishesInv(td: seq<Record8>, aps: seq<Record8>)
    requires ApsInRange(aps)
    ensures Inv(td, aps, Prime(td, aps))
  {
    PrimeShape(td, aps);
    PrimeTdView(td, aps);
    PrimeApsView(td, aps);
  }

  /** After priming, the td view is the first admitted td record, if any. */
  lemma PrimeTdView(td: seq<Record8>, aps: seq<Record8>)
    requires ApsInRange(aps)
    ensures TdViewInv(td, Prime(td, aps))
  {
    PrimeShape(td, aps);
    assert Part([], false) == [];
    assert DecodedTd(td)[0..] == DecodedTd(td);
    FirstTdIsMonotone(td, 0, 0);
  }

  /** After priming, the aps view is the first admitted aps record, if any. */
  lemma PrimeApsView(td: seq<Record8>, aps: seq<Record8>)
    requires ApsInRange(aps)
    ensures ApsViewInv(aps, Prime(td, aps))
  {
    PrimeShape(td, aps);
    assert Part([], true) == [];
    assert DecodedAps(aps)[0..] == DecodedAps(aps);
    FirstApsIsFilter(aps, 0, 0, Zeros());
  }

  /** The guarantees of the merge on its output: the written timestamps never decrease; two
      aps events at the same pixel are written with strictly increasing timestamps; no aps
      event with timestamp 0 is written; and the output is an interleaving of the two channels,
      each channel's events being exactly its decoded records that its admission rule keeps
      (so a subsequence of them, each written once and in its channel's order). */
  ghost predicate Guarantees(td: seq<Record8>, aps: seq<Record8>, out: seq<Event>)
    requires ApsInRange(aps)
  {
    && Chronological(out)
    && PixelStrict(out)
    && (forall k :: 0 <= k < |out| && out[k].isThresholdCrossing ==> out[k].t > 0)
    && Part(out, false) == Monotone(DecodedTd(td), 0)
    && Part(out, true) == ApsFilter(DecodedAps(aps), 0, Zeros())
    && IsSubseq(Part(out, false), DecodedTd(td))
    && IsSubseq(Part(out, true), DecodedAps(aps))
  }

  /** Once the loop is done, the invariant gives the guarantees. */
  lemma DoneGuarantees(td: seq<Record8>, aps: seq<Record8>, f: Engine)
    requires Inv(td, aps, f) && f.done
    ensures Guarantees(td, aps, f.out)
  {
    assert View(f, false) == Part(f.out, false) && View(f, true) == Part(f.out, true);
    assert TdRest(td, f) == [] && ApsRest(aps, f) == [];
    MonotoneSubseq(DecodedTd(td), 0);
    ApsFilterSubseq(DecodedAps(aps), 0, Zeros());
  }

  /** The events the merge writes, from the records of both channels. */
  function Merged(tdEnabled: bool, apsEnabled: bool, td: seq<Record8>, aps: seq<Record8>): seq<Event>
    requires apsEnabled ==> ApsInRange(aps)
  {
    var tdc, apsc := Channel(tdEnabled, td), Channel(apsEnabled, aps);
    Run(tdc, apsc, Prime(tdc, apsc)).out
  }

  /** The merge keeps its guarantees for every pair of channels. */
  lemma MergedCorrect(tdEnabled: bool, apsEnabled: bool, td: seq<Record8>, aps: seq<Record8>)
    requires apsEnabled ==> ApsInRange(aps)
    ensures Guarantees(Channel(tdEnabled, td), Channel(apsEnabled, aps), Merged(tdEnabled, apsEnabled, td, aps))
  {
    var tdc, apsc := Channel(tdEnabled, td), Channel(apsEnabled, aps);
    PrimeEstablishesInv(tdc, apsc);
    RunKeepsInv(tdc, apsc, Prime(tdc, apsc));
    DoneGuarantees(tdc, apsc, Run(tdc, apsc, Prime(tdc, apsc)));
  }

  /** Channels that are already in order lose nothing: when the td records never go back in
      time, and the aps records never go back in time, have nonzero timestamps and strictly
      increase at each pixel, the merge writes every record of both channels. */
  lemma MergedKeepsEverything(td: seq<Record8>, aps: seq<Record8>)
    requires ApsInRange(aps)
    requires Chronological(DecodedTd(td)) && Chronological(DecodedAps(aps)) && PixelStrict(DecodedAps(aps))
    requires forall k :: 0 <= k < |aps| ==> ApsEvent(aps[k]).t > 0
    ensures Part(Merged(true, true, td, aps), false) == DecodedTd(td)
    ensures Part(Merged(true, true, td, aps), true) == DecodedAps(aps)
  {
    MergedCorrect(true, true, td, aps);
    MonotoneKeepsChronological(DecodedTd(td), 0);
    ApsFilterKeepsGood(DecodedAps(aps), 0, Zeros());
  }

  // ---------------------------------------------------------------------------------------
  // Each channel on its own: the admission rules, and a single enabled td channel

  /** The events of `evs` that are not older than the last one kept (initially `previous`):
      the td admission rule applied to a single channel. */
  function Monotone(evs: seq<Event>, previous: nat): seq<Event>
    decreases |evs|
  {
    if evs == [] then []
    else if evs[0].t >= previous then [evs[0]] + Monotone(evs[1..], evs[0].t)
    else Monotone(evs[1..], previous)
  }

  /** Skipping the events older than `previous` up to the next one that is not, `j`, is what
      `Monotone` does first. */
  lemma {:induction false} SkipToNext(d: seq<Event>, from: nat, previous: nat, j: nat)
    requires from <= j <= |d|
    requires j < |d| ==> d[j].t >= previous
    requires forall k :: from <= k < j ==> d[k].t < previous
    ensures Monotone(d[from..], previous) == if j == |d| then [] else [d[j]] + Monotone(d[j + 1..], d[j].t)
    decreases j - from
  {
    if from == |d| {
      assert d[from..] == [];
    } else {
      assert d[from..] == [d[from]] + d[from + 1..];
      MonotoneCons(d[from], d[from + 1..], previous);
      if from < j {
        SkipToNext(d, from + 1, previous, j);
      }
    }
  }

  /** `FirstTd` finds exactly the next event `Monotone` keeps. */
  lemma FirstTdIsMonotone(td: seq<Record8>, from: nat, previous: nat)
    requires from <= |td|
    ensures var j := FirstTd(td, from, previous);
      Monotone(DecodedTd(td)[from..], previous)
        == if j == |td| then [] else [TdEvent(td[j])] + Monotone(DecodedTd(td)[j + 1..], TdEvent(td[j]).t)
  {
    var d := DecodedTd(td);
    var j := FirstTd(td, from, previous);
    SkipToNext(d, from, previous, j);
  }

  /** One step of `Monotone` on a nonempty sequence. */
  lemma MonotoneCons(x: Event, rest: seq<Event>, previous: nat)
    ensures Monotone([x] + rest, previous)
      == if x.t >= previous then [x] + Monotone(rest, x.t) else Monotone(rest, previous)
  {
    assert ([x] + rest)[0] == x && ([x] + rest)[1..] == rest;
  }

  /** `Monotone` keeps a subsequence of its events. */
  lemma {:induction false} MonotoneSubseq(evs: seq<Event>, previous: nat)
    ensures IsSubseq(Monotone(evs, previous), evs)
    decreases |evs|
  {
    if evs != [] {
      assert evs == [evs[0]] + evs[1..];
      if evs[0].t >= previous {
        MonotoneSubseq(evs[1..], evs[0].t);
        SubseqCons(evs[0], Monotone(evs[1..], evs[0].t), evs[1..]);
      } else {
        MonotoneSubseq(evs[1..], previous);
        SubseqCons(evs[0], Monotone(evs[1..], previous), evs[1..]);
      }
    }
  }

  /** Every event addresses an entry of the table. */
  ghost predicate OnTable(evs: seq<Event>) {
    forall k :: 0 <= k < |evs| ==> PixelIndex(evs[k]) < TableSize
  }

  /** The events of `evs` the aps rule admits one after the other, starting from the last
      admitted timestamp `previous` and the table `table`: an admitted event becomes the new
      `previous` and is recorded at its pixel, a refused one changes nothing. */
  function ApsFilter(evs: seq<Event>, previous: nat, table: seq<nat>): seq<Event>
    requires |table| == TableSize && OnTable(evs)
    decreases |evs|
  {
    if evs == [] then []
    else if ApsAdmits(evs[0], previous, table) then
      [evs[0]] + ApsFilter(evs[1..], evs[0].t, table[PixelIndex(evs[0]) := evs[0].t])
    else ApsFilter(evs[1..], previous, table)
  }

  /** One step of `ApsFilter` on a nonempty sequence. */
  lemma ApsFilterCons(x: Event, rest: seq<Event>, previous: nat, table: seq<nat>)
    requires |table| == TableSize && PixelIndex(x) < TableSize && OnTable([x] + rest) && OnTable(rest)
    ensures ApsFilter([x] + rest, previous, table) ==
      if ApsAdmits(x, previous, table) then [x] + ApsFilter(rest, x.t, table[PixelIndex(x) := x.t])
      else ApsFilter(rest, previous, table)
  {
    assert ([x] + rest)[0] == x && ([x] + rest)[1..] == rest;
  }

  /** Skipping the events the table refuses up to the next one it admits, `j`, is what
      `ApsFilter` does first. */
  lemma {:induction false} SkipToAdmitted(d: seq<Event>, from: nat, previous: nat, table: seq<nat>, j: nat)
    requires |table| == TableSize && OnTable(d) && from <= j <= |d|
    requires j < |d| ==> ApsAdmits(d[j], previous, table)
    requires forall k :: from <= k < j ==> !ApsAdmits(d[k], previous, table)
    ensures ApsFilter(d[from..], previous, table) ==
      if j == |d| then [] else [d[j]] + ApsFilter(d[j + 1..], d[j].t, table[PixelIndex(d[j]) := d[j].t])
    decreases j - from
  {
    if from == |d| {
      assert d[from..] == [];
    } else {
      assert d[from..] == [d[from]] + d[from + 1..];
      ApsFilterCons(d[from], d[from + 1..], previous, table);
      if from < j {
        SkipToAdmitted(d, from + 1, previous, table, j);
      }
    }
  }

  /** `FirstAps` finds exactly the next event `ApsFilter` admits. */
  lemma FirstApsIsFilter(aps: seq<Record8>, from: nat, previous: nat, table: seq<nat>)
    requires from <= |aps| && |table| == TableSize && ApsInRange(aps)
    ensures var j := FirstAps(aps, from, previous, table);
      ApsFilter(DecodedAps(aps)[from..], previous, table) ==
        if j == |aps| then []
        else [ApsEvent(aps[j])] + ApsFilter(DecodedAps(aps)[j + 1..], ApsEvent(aps[j]).t,
                                            table[PixelIndex(ApsEvent(aps[j])) := ApsEvent(aps[j]).t])
  {
    SkipToAdmitted(DecodedAps(aps), from, previous, table, FirstAps(aps, from, previous, table));
  }

  /** `ApsFilter` keeps a subsequence of its events. */
  lemma {:induction false} ApsFilterSubseq(evs: seq<Event>, previous: nat, table: seq<nat>)
    requires |table| == TableSize && OnTable(evs)
    ensures IsSubseq(ApsFilter(evs, previous, table), evs)
    decreases |evs|
  {
    if evs != [] {
      var x, rest := evs[0], evs[1..];
      assert evs == [x] + rest;
      if ApsAdmits(x, previous, table) {
        var table' := table[PixelIndex(x) := x.t];
        ApsFilterSubseq(rest, x.t, table');
        SubseqCons(x, ApsFilter(rest, x.t, table'), rest);
      } else {
        ApsFilterSubseq(rest, previous, table);
        SubseqCons(x, ApsFilter(rest, previous, table), rest);
      }
    }
  }

  /** A chronological run of aps events, strictly increasing at each pixel, none older than
      `previous` and each newer than its pixel's table entry, is admitted whole. */
  lemma {:induction false} ApsFilterKeepsGood(evs: seq<Event>, previous: nat, table: seq<nat>)
    requires |table| == TableSize && OnTable(evs)
    requires Chronological(evs) && PixelStrict(evs)
    requires forall k :: 0 <= k < |evs| ==> evs[k].isThresholdCrossing
    requires evs != [] ==> previous <= evs[0].t
    requires forall k :: 0 <= k < |evs| ==> table[PixelIndex(evs[k])] < evs[k].t
    ensures ApsFilter(evs, previous, table) == evs
    decreases |evs|
  {
    if evs != [] {
      var x, rest := evs[0], evs[1..];
      var table' := table[PixelIndex(x) := x.t];
      assert forall k :: 0 <= k < |rest| ==> rest[k] == evs[k + 1];
      forall k | 0 <= k < |rest|
        ensures table'[PixelIndex(rest[k])] < rest[k].t
      {
        if PixelIndex(rest[k]) == PixelIndex(x) {
          assert x.t < evs[k + 1].t;
        }
      }
      assert Chronological(rest) && PixelStrict(rest);
      ApsFilterKeepsGood(rest, x.t, table');
      assert evs == [x] + rest;
    }
  }

  /** One pass in `apsEndOfFile`: write the td buffer and read the td channel on. */
  lemma DrainTdStep(td: seq<Record8>, aps: seq<Record8>, e: Engine) returns (e': Engine)
    requires Wf(td, aps, e) && !e.done && e.status == ApsEndOfFile
    ensures Wf(td, aps, e') && Measure(td, aps, e') < Measure(td, aps, e)
    ensures Run(td, aps, e) == Run(td, aps, e')
    ensures var j := FirstTd(td, e.ti, e.tdEvent.t);
      && e'.out == e.out + [e.tdEvent] && e'.status == ApsEndOfFile && (e'.done <==> j == |td|)
      && (j < |td| ==> e'.ti == j + 1 && e'.tdEvent == TdEvent(td[j]))
  {
    e' := Step(td, aps, e);
  }

  /** Draining the td channel after the aps channel has ended writes the buffered td event
      followed by the td records `Monotone` keeps. */
  lemma {:induction false} DrainTd(td: seq<Record8>, aps: seq<Record8>, e: Engine)
    requires Wf(td, aps, e) && !e.done && e.status == ApsEndOfFile
    ensures Run(td, aps, e).out == e.out + [e.tdEvent] + Monotone(DecodedTd(td)[e.ti..], e.tdEvent.t)
    decreases Measure(td, aps, e)
  {
    var e' := DrainTdStep(td, aps, e);
    var j := FirstTd(td, e.ti, e.tdEvent.t);
    if j == |td| {
      assert Monotone(DecodedTd(td)[e.ti..], e.tdEvent.t) == [] by {
        FirstTdIsMonotone(td, e.ti, e.tdEvent.t);
      }
    } else {
      var m := Monotone(DecodedTd(td)[e'.ti..], e'.tdEvent.t);
      assert Monotone(DecodedTd(td)[e.ti..], e.tdEvent.t) == [e'.tdEvent] + m by {
        FirstTdIsMonotone(td, e.ti, e.tdEvent.t);
      }
      DrainTd(td, aps, e');
      JoinOutputs(e.out, e.tdEvent, e'.tdEvent, m, Monotone(DecodedTd(td)[e.ti..], e.tdEvent.t));
    }
  }

  /** The drain argument on the outputs alone: the pending event, then the next kept record
      and what is kept after it. */
  lemma JoinOutputs(out: seq<Event>, x: Event, y: Event, m: seq<Event>, rest: seq<Event>)
    requires rest == [y] + m
    ensures out + [x] + [y] + m == out + [x] + rest
  {
    AppendAssoc(out + [x], [y], m);
  }

  /** With the aps channel disabled, the merge writes exactly the td records that are not
      older than the last one written. */
  lemma MergedTdOnly(td: seq<Record8>, aps: seq<Record8>)
    ensures Merged(true, false, td, aps) == Monotone(DecodedTd(td), 0)
  {
    var e := Prime(td, []);
    if |td| > 0 {
      assert FirstTd(td, 0, 0) == 0;
      DrainTd(td, [], e);
      assert DecodedTd(td)[1..] == DecodedTd(td)[0..][1..];
    }
  }

  /** `Monotone` leaves a chronological sequence untouched. */
  lemma {:induction false} MonotoneKeepsChronological(evs: seq<Event>, previous: nat)
    requires Chronological(evs) && (evs != [] ==> previous <= evs[0].t)
    ensures Monotone(evs, previous) == evs
    decreases |evs|
  {
    if evs != [] {
      assert Chronological(evs[1..]);
      MonotoneKeepsChronological(evs[1..], evs[0].t);
    }
  }

  /** End to end: with the aps channel disabled and a td channel whose timestamps never
      decrease, the merge writes the td channel unchanged and in order. */
  lemma MergedTdOnlyChronological(td: seq<Record8>, aps: seq<Record8>)
    requires Chronological(DecodedTd(td))
    ensures Merged(true, false, td, aps) == DecodedTd(td)
  {
    MergedTdOnly(td, aps);
    MonotoneKeepsChronological(DecodedTd(td), 0);
  }

  // ---------------------------------------------------------------------------------------
  // Priming as written

  /** The priming as written writes a default-constructed event that no channel holds: with
      the aps input "null" and a td file holding one record with a nonzero timestamp, the
      output starts with sepia::Event{}, because lines 184-186 compare against the empty aps
      buffer (the never-opened aps stream does not report `eof()`) and choose `apsLate`. The
      corrected priming writes the td record alone. */
  lemma NullApsInjectsDefaultEvent(r: Record8)
    requires TdEvent(r).t > 0
    ensures Run([r], [], PrimeAsWritten(true, false, [r], [])).out == [DefaultEvent, TdEvent(r)]
    ensures Merged(true, false, [r], []) == [TdEvent(r)]
  {
    var td := [r];
    var e0 := PrimeAsWritten(true, false, td, []);
    assert FirstTd(td, 0, 0) == 0;
    assert e0.status == ApsLate && e0.ti == 1 && e0.tdEvent == TdEvent(r) && e0.apsEvent == DefaultEvent;
    var e1 := Step(td, [], e0);
    assert e1.status == ApsEndOfFile && !e1.done && e1.out == [DefaultEvent];
    var e2 := Step(td, [], e1);
    assert FirstTd(td, 1, TdEvent(r).t) == 1;
    assert e2.done && e2.out == [DefaultEvent, TdEvent(r)];
    assert Run(td, [], e0) == Run(td, [], e1) == e2;
    MergedTdOnly(td, []);
    assert DecodedTd(td)[1..] == [];
  }

  /** With both channels enabled, an empty td file and an aps file whose only record has
      timestamp 0 (so it is never admitted), the priming as written ends in `apsEndOfFile`
      (line 179 sets it after the refused record, over the `tdEndOfFile` of line 136) and the
      empty td buffer is written. The corrected priming writes nothing. */
  lemma EmptyTdInjectsDefaultEvent(r: Record8)
    requires ApsInRange([r]) && ApsEvent(r).t == 0
    ensures Run([], [r], PrimeAsWritten(true, true, [], [r])).out == [DefaultEvent]
    ensures Merged(true, true, [], [r]) == []
  {
    var aps := [r];
    assert FirstAps(aps, 1, 0, Zeros()) == 1;
    assert FirstAps(aps, 0, 0, Zeros()) == 1;
    var f0 := PrimeAsWritten(true, true, [], aps);
    assert f0.status == ApsEndOfFile && !f0.done && f0.tdEvent == DefaultEvent;
    var f1 := Step([], aps, f0);
    assert f1.done && f1.out == [DefaultEvent];
    assert Run([], aps, f0) == f1;
    assert Prime([], aps).done;
  }

  /** With the td input "null", every conversion as written starts with sepia::Event{}. The
      never-opened td stream does not report `eof()`, so either the aps channel holds an
      admitted record and lines 184-188 compare against the empty td buffer (timestamp 0
      never exceeds it, so `tdLate` is chosen), or it holds none and line 179 chooses
      `apsEndOfFile`; both states write the td buffer first. */
  lemma NullTdStartsWithDefaultEvent(aps: seq<Record8>)
    requires ApsInRange(aps)
    ensures var out := Run([], aps, PrimeAsWritten(false, true, [], aps)).out;
      out != [] && out[0] == DefaultEvent
  {
    var e0 := PrimeAsWritten(false, true, [], aps);
    assert e0.tdEvent == DefaultEvent && e0.out == [] && !e0.done;
    assert e0.status == TdLate || e0.status == ApsEndOfFile;
    var e1 := Step([], aps, e0);
    assert e1.out == [DefaultEvent];
    assert Run([], aps, e0) == Run([], aps, e1);
    RunExtends([], aps, e1);
  }

  /** With the td input "null" and one aps record with a nonzero timestamp, the conversion
      as written writes sepia::Event{} and then the aps event; the corrected merge writes the
      aps event alone. */
  lemma NullTdInjectsDefaultEvent(r: Record8)
    requires ApsInRange([r]) && ApsEvent(r).t > 0
    ensures Run([], [r], PrimeAsWritten(false, true, [], [r])).out == [DefaultEvent, ApsEvent(r)]
    ensures Merged(false, true, [], [r]) == [ApsEvent(r)]
  {
    var aps := [r];
    assert FirstAps(aps, 0, 0, Zeros()) == 0;
    var e0 := PrimeAsWritten(false, true, [], aps);
    assert e0.status == TdLate && e0.ai == 1 && e0.apsEvent == ApsEvent(r) && e0.tdEvent == DefaultEvent;
    var e1 := Step([], aps, e0);
    assert e1.status == TdEndOfFile && !e1.done && e1.out == [DefaultEvent];
    var e2 := Step([], aps, e1);
    assert e2.done && e2.out == [DefaultEvent, ApsEvent(r)];
    assert Run([], aps, e0) == Run([], aps, e1) == e2;
    var f0 := Prime([], aps);
    assert f0.status == TdEndOfFile && !f0.done && f0.ai == 1 && f0.apsEvent == ApsEvent(r);
    var f1 := Step([], aps, f0);
    assert f1.done && f1.out == [ApsEvent(r)];
    assert Run([], aps, f0) == f1;
  }

  /** With both channels enabled, the priming as written and the corrected one agree exactly
      when some channel holds an admitted record: the empty-td case above is the only
      difference. */
  lemma PrimeAgrees(td: seq<Record8>, aps: seq<Record8>)
    requires ApsInRange(aps)
    ensures PrimeAsWritten(true, true, td, aps) == Prime(td, aps)
        <==> FirstTd(td, 0, 0) < |td| || FirstAps(aps, 0, 0, Zeros()) < |aps|
  {
    if FirstTd(td, 0, 0) == |td| && FirstAps(aps, 0, 0, Zeros()) == |aps| {
      assert !PrimeAsWritten(true, true, td, aps).done && Prime(td, aps).done;
    }
  }

  /** With the aps input "null", a `tdLate` pass (whose pending td event has timestamp 0, the
      never-read aps buffer's timestamp) writes that event and reads the next td record, which
      is never skipped, since no timestamp is below 0. */
  lemma NullApsTdLateStep(td: seq<Record8>, e: Engine) returns (e': Engine)
    requires Wf(td, [], e) && !e.done && e.status == TdLate
    requires e.apsEvent == DefaultEvent && e.tdEvent.t == 0
    ensures Wf(td, [], e') && Measure(td, [], e') < Measure(td, [], e)
    ensures Run(td, [], e) == Run(td, [], e')
    ensures e'.out == e.out + [e.tdEvent] && e'.apsEvent == DefaultEvent && !e'.done
    ensures e.ti == |td| ==> e'.status == TdEndOfFile
    ensures e.ti < |td| ==>
              && e'.ti == e.ti + 1 && e'.tdEvent == TdEvent(td[e.ti])
              && e'.status == (if TdEvent(td[e.ti]).t > 0 then ApsLate else TdLate)
  {
    assert FirstTd(td, e.ti, 0) == e.ti;
    e' := Step(td, [], e);
  }

  /** With the aps input "null", an `apsLate` or `tdEndOfFile` pass writes the aps buffer and
      finds the aps channel at its end. */
  lemma NullApsFlush(td: seq<Record8>, e: Engine) returns (e': Engine)
    requires Wf(td, [], e) && !e.done && (e.status == ApsLate || e.status == TdEndOfFile)
    ensures Wf(td, [], e') && Run(td, [], e) == Run(td, [], e')
    ensures e'.out == e.out + [e.apsEvent]
    ensures e.status == TdEndOfFile ==> e'.done
    ensures e.status == ApsLate ==> !e'.done && e'.status == ApsEndOfFile && e'.ti == e.ti && e'.tdEvent == e.tdEvent
  {
    e' := Step(td, [], e);
  }

  /** The number of leading events with timestamp 0: where the code as written inserts the
      default event into the output of a run with the aps input "null". */
  function LeadingZeros(m: seq<Event>): (k: nat)
    ensures k <= |m| && (forall i :: 0 <= i < k ==> m[i].t == 0) && (k < |m| ==> m[k].t > 0)
  {
    if m == [] || m[0].t > 0 then 0 else 1 + LeadingZeros(m[1..])
  }

  /** `m` with one default event inserted after its leading zero-timestamp events. */
  function InsertDefault(m: seq<Event>): seq<Event> {
    var k := LeadingZeros(m);
    m[..k] + [DefaultEvent] + m[k..]
  }

  /** A leading event with timestamp 0 stays in front of the inserted default event. */
  lemma InsertAfterHead(x: Event, m: seq<Event>)
    requires x.t == 0
    ensures InsertDefault([x] + m) == [x] + InsertDefault(m)
  {
    var xm := [x] + m;
    var k := LeadingZeros(m);
    assert xm[1..] == m;
    assert LeadingZeros(xm) == k + 1;
    assert xm[..k + 1] == [x] + m[..k] && xm[k + 1..] == m[k..];
  }

  /** Events that start with a nonzero timestamp (or none) get the default event in front. */
  lemma InsertAtFront(m: seq<Event>)
    requires m != [] ==> m[0].t > 0
    ensures InsertDefault(m) == [DefaultEvent] + m
  {
    assert m[..0] == [] && m[0..] == m;
  }

  /** The `tdLate` pass finds the td channel at its end: `tdEndOfFile` writes the aps buffer,
      the default event, and the run ends. */
  lemma NullApsEndCase(td: seq<Record8>, e: Engine, e': Engine)
    requires Wf(td, [], e) && e.ti == |td| && Wf(td, [], e') && !e'.done && e'.status == TdEndOfFile
    requires Run(td, [], e) == Run(td, [], e') && e'.out == e.out + [e.tdEvent] && e'.apsEvent == DefaultEvent
    ensures Run(td, [], e).out == e.out + [e.tdEvent] + InsertDefault(Monotone(DecodedTd(td)[e.ti..], 0))
  {
    var f := NullApsFlush(td, e');
    assert Run(td, [], e') == f;
    assert DecodedTd(td)[e.ti..] == [];
    InsertAtFront([]);
  }

  /** The `tdLate` pass reads a record with a nonzero timestamp: `apsLate` writes the default
      event and finds the aps channel at its end, and the td channel is drained. */
  lemma NullApsLeaveCase(td: seq<Record8>, e: Engine, e': Engine)
    requires Wf(td, [], e) && e.ti < |td| && TdEvent(td[e.ti]).t > 0
    requires Wf(td, [], e') && !e'.done && e'.status == ApsLate
    requires e'.ti == e.ti + 1 && e'.tdEvent == TdEvent(td[e.ti])
    requires Run(td, [], e) == Run(td, [], e') && e'.out == e.out + [e.tdEvent] && e'.apsEvent == DefaultEvent
    ensures Run(td, [], e).out == e.out + [e.tdEvent] + InsertDefault(Monotone(DecodedTd(td)[e.ti..], 0))
  {
    var next := TdEvent(td[e.ti]);
    var rest := Monotone(DecodedTd(td)[e.ti + 1..], next.t);
    assert Monotone(DecodedTd(td)[e.ti..], 0) == [next] + rest by {
      assert FirstTd(td, e.ti, 0) == e.ti;
      FirstTdIsMonotone(td, e.ti, 0);
    }
    var f := NullApsFlush(td, e');
    var pre := e.out + [e.tdEvent];
    assert Run(td, [], e).out == pre + [DefaultEvent] + [next] + rest by {
      DrainTd(td, [], f);
    }
    InsertAtFront([next] + rest);
    AppendAssoc(pre, [DefaultEvent], [next] + rest);
    AppendAssoc(pre + [DefaultEvent], [next], rest);
  }

  /** The `tdLate` pass reads a record with timestamp 0: it stays in `tdLate`, and that record
      is the first the td rule keeps. */
  lemma NullApsStayCase(td: seq<Record8>, ti: nat, pre: seq<Event>, out: seq<Event>)
    requires ti < |td| && TdEvent(td[ti]).t == 0
    requires out == pre + [TdEvent(td[ti])] + InsertDefault(Monotone(DecodedTd(td)[ti + 1..], 0))
    ensures out == pre + InsertDefault(Monotone(DecodedTd(td)[ti..], 0))
  {
    var next := TdEvent(td[ti]);
    var rest := Monotone(DecodedTd(td)[ti + 1..], 0);
    assert Monotone(DecodedTd(td)[ti..], 0) == [next] + rest by {
      assert FirstTd(td, ti, 0) == ti;
      FirstTdIsMonotone(td, ti, 0);
    }
    InsertAfterHead(next, rest);
    AppendAssoc(pre, [next], InsertDefault(rest));
  }

  /** From a `tdLate` state of a run with the aps input "null" whose pending td event has
      timestamp 0, the rest of the output is the pending event followed by the td records the
      td rule keeps, with exactly one default event inserted among them: before the first
      kept record with a nonzero timestamp, or at the end when there is none. */
  lemma {:induction false} NullApsTdLate(td: seq<Record8>, e: Engine)
    requires Wf(td, [], e) && !e.done && e.status == TdLate
    requires e.apsEvent == DefaultEvent && e.tdEvent.t == 0
    ensures Run(td, [], e).out == e.out + [e.tdEvent] + InsertDefault(Monotone(DecodedTd(td)[e.ti..], 0))
    decreases Measure(td, [], e)
  {
    var e' := NullApsTdLateStep(td, e);
    if e.ti == |td| {
      NullApsEndCase(td, e, e');
    } else if TdEvent(td[e.ti]).t > 0 {
      NullApsLeaveCase(td, e, e');
    } else {
      NullApsTdLate(td, e');
      NullApsStayCase(td, e.ti, e.out + [e.tdEvent], Run(td, [], e).out);
    }
  }

  /** With the aps input "null", every conversion of a td file holding records writes, as
      written, exactly one default event more than the corrected merge: the corrected output
      with sepia::Event{} inserted before its first event with a nonzero timestamp, or at its
      end when it has none. */
  lemma NullApsInsertsOneDefaultEvent(td: seq<Record8>)
    requires td != []
    ensures var m := Merged(true, false, td, []);
      var k := LeadingZeros(m);
      Run(td, [], PrimeAsWritten(true, false, td, [])).out == m[..k] + [DefaultEvent] + m[k..]
  {
    NullApsPrimeShape(td);
    NullApsFromStart(td, PrimeAsWritten(true, false, td, []));
    MergedTdOnly(td, []);
  }

  /** The priming as written with the aps input "null": the first td record is buffered, the
      aps buffer keeps its default event, and the timestamps decide between the two late
      states. */
  lemma NullApsPrimeShape(td: seq<Record8>)
    requires td != []
    ensures var e0 := PrimeAsWritten(true, false, td, []);
      && e0.ti == 1 && e0.tdEvent == TdEvent(td[0]) && e0.apsEvent == DefaultEvent && e0.out == [] && !e0.done
      && e0.status == (if TdEvent(td[0]).t > 0 then ApsLate else TdLate)
  {
    assert FirstTd(td, 0, 0) == 0;
  }

  /** The run from that priming writes the td records the td rule keeps with the default
      event inserted after the leading zero-timestamp ones. */
  lemma NullApsFromStart(td: seq<Record8>, e0: Engine)
    requires td != [] && Wf(td, [], e0)
    requires e0.ti == 1 && e0.tdEvent == TdEvent(td[0]) && e0.apsEvent == DefaultEvent && e0.out == [] && !e0.done
    requires e0.status == (if TdEvent(td[0]).t > 0 then ApsLate else TdLate)
    ensures Run(td, [], e0).out == InsertDefault(Monotone(DecodedTd(td), 0))
  {
    var d := DecodedTd(td);
    var first := TdEvent(td[0]);
    NullApsFirstKept(td);
    if first.t > 0 {
      NullApsStartLeaves(td, e0);
      InsertAtFront(Monotone(d, 0));
    } else {
      NullApsTdLate(td, e0);
      InsertAfterHead(first, Monotone(d[1..], 0));
    }
  }

  /** A first td record with a nonzero timestamp: `apsLate` writes the default event, and
      the td channel is drained. */
  lemma NullApsStartLeaves(td: seq<Record8>, e0: Engine)
    requires td != [] && Wf(td, [], e0) && TdEvent(td[0]).t > 0
    requires e0.ti == 1 && e0.tdEvent == TdEvent(td[0]) && e0.out == [] && !e0.done && e0.status == ApsLate
    requires e0.apsEvent == DefaultEvent
    ensures Run(td, [], e0).out == [DefaultEvent] + Monotone(DecodedTd(td), 0)
  {
    var first := TdEvent(td[0]);
    var rest := Monotone(DecodedTd(td)[1..], first.t);
    var f := NullApsFlush(td, e0);
    DrainTd(td, [], f);
    NullApsFirstKept(td);
    AppendAssoc([DefaultEvent], [first], rest);
  }

  /** The first td record is always kept, since no timestamp is below 0. */
  lemma NullApsFirstKept(td: seq<Record8>)
    requires td != []
    ensures Monotone(DecodedTd(td), 0) == [TdEvent(td[0])] + Monotone(DecodedTd(td)[1..], TdEvent(td[0]).t)
  {
    assert FirstTd(td, 0, 0) == 0;
    FirstTdIsMonotone(td, 0, 0);
    assert DecodedTd(td)[0..] == DecodedTd(td);
  }

  /** The zero-timestamp instance: with the aps input "null" and a td file holding one record
      with timestamp 0, the code writes the td event and then sepia::Event{}, from the
      `tdEndOfFile` state (lines 259-260); the corrected merge writes the td event alone. */
  lemma NullApsZeroTimestampDefaultEvent(r: Record8)
    requires TdEvent(r).t == 0
    ensures Run([r], [], PrimeAsWritten(true, false, [r], [])).out == [TdEvent(r), DefaultEvent]
    ensures Merged(true, false, [r], []) == [TdEvent(r)]
  {
    var td := [r];
    var e0 := PrimeAsWritten(true, false, td, []);
    assert FirstTd(td, 0, 0) == 0;
    assert e0.status == TdLate && e0.ti == 1 && e0.tdEvent == TdEvent(r) && e0.apsEvent == DefaultEvent;
    var e1 := NullApsTdLateStep(td, e0);
    assert e1.status == TdEndOfFile && e1.out == [TdEvent(r)];
    var e2 := NullApsFlush(td, e1);
    assert Run(td, [], e0) == e2 && e2.out == [TdEvent(r), DefaultEvent];
    MergedTdOnly(td, []);
    assert DecodedTd(td)[1..] == [];
  }
}
