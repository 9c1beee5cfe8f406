/** The conversion of source/datToEs.cpp: argument checks, the comment header of the dump
    files, the error conditions of `main`, and the imperative merge loop, proved to compute
    what the state machine of `MergeEngine` computes. */
module DatToEs {
  import opened Support
  import opened Bytes
  import opened DatRecords
  import opened MergeEngine

  /** The errors `main` reports, in the order it checks them. */
  datatype Failure =
    | SameInputs      // the td and aps inputs are the same string
    | TdIsOutput      // the td input is the output
    | ApsIsOutput     // the aps input is the output
    | BothNull        // both inputs are "null"
    | TdFileEmpty     // "The td file is empty" (also reported for a bad aps header)
    | ApsFileEmpty    // "The aps file is empty"
    | BothFilesEmpty  // "Both the td file and the aps file are empty"

  /** The input name that disables a channel. */
  const Null: string := "null"

  /** The argument checks of lines 22-33, in order. */
  function CheckArguments(td: string, aps: string, output: string): (r: Option<Failure>)
    ensures r.None? <==> td != aps && td != output && aps != output
    ensures r != Some(BothNull)
  {
    if td == aps then Some(SameInputs)
    else if td == output then Some(TdIsOutput)
    else if aps == output then Some(ApsIsOutput)
    else if td == Null && aps == Null then Some(BothNull)
    else None
  }

  const Percent: Byte := 37

  /** Lines 91-99: while the next byte is '%', the line up to and including its line feed is
      skipped. The position after the last comment line, or None when a comment line runs to
      the end of the file. */
  function CommentEnd(bytes: seq<Byte>, pos: nat): (r: Option<nat>)
    requires pos <= |bytes|
    ensures r.Some? ==> pos <= r.value <= |bytes|
    decreases |bytes| - pos
  {
    if pos < |bytes| && bytes[pos] == Percent then
      var nl := LineEnd(bytes, pos);
      if nl == |bytes| then None else CommentEnd(bytes, nl + 1)
    else Some(pos)
  }

  /** A block of comment lines: each starts with '%' and ends with a line feed. */
  ghost predicate CommentBlock(s: seq<Byte>) {
    s == [] ||
    (s[0] == Percent && s[|s| - 1] == LineFeed &&
     forall i :: 0 < i < |s| && s[i - 1] == LineFeed ==> s[i] == Percent)
  }

  /** What `CommentEnd` finds: the longest block of comment lines at the start of the file,
      followed by a byte that is not '%'; or, when it fails, a comment block followed by a
      '%' line that has no line feed. */
  lemma {:induction false} CommentEndMeaning(bytes: seq<Byte>, pos: nat)
    requires pos <= |bytes| && CommentBlock(bytes[..pos])
    ensures var r := CommentEnd(bytes, pos);
      && (r.Some? ==> CommentBlock(bytes[..r.value]) && (r.value < |bytes| ==> bytes[r.value] != Percent))
      && (r.None? ==> exists p :: pos <= p < |bytes| && CommentBlock(bytes[..p]) && bytes[p] == Percent
                                 && forall i :: p <= i < |bytes| ==> bytes[i] != LineFeed)
    decreases |bytes| - pos
  {
    if pos < |bytes| && bytes[pos] == Percent {
      var nl := LineEnd(bytes, pos);
      if nl == |bytes| {
        assert bytes[pos] == Percent;
      } else {
        var s := bytes[..nl + 1];
        assert s[0] == Percent by {
          if pos > 0 { assert bytes[..pos][0] == s[0]; }
        }
        forall i | 0 < i < |s| && s[i - 1] == LineFeed
          ensures s[i] == Percent
        {
          if i < pos {
            assert bytes[..pos][i - 1] == s[i - 1] && bytes[..pos][i] == s[i];
          } else if i == pos {
            assert s[i] == bytes[pos];
          }
        }
        assert CommentBlock(s);
        CommentEndMeaning(bytes, nl + 1);
      }
    }
  }

  /** The comment loop of lines 91-99 (and 108-116), byte by byte. */
  method SkipComments(bytes: seq<Byte>) returns (r: Option<nat>)
    ensures r == CommentEnd(bytes, 0)
    ensures r.Some? ==> CommentBlock(bytes[..r.value]) && (r.value < |bytes| ==> bytes[r.value] != Percent)
  {
    var pos := 0;
    while pos < |bytes| && bytes[pos] == Percent
      invariant pos <= |bytes|
      invariant CommentEnd(bytes, pos) == CommentEnd(bytes, 0)
      decreases |bytes| - pos
    {
      var p := pos;
      while p < |bytes| && bytes[p] != LineFeed
        invariant pos <= p <= |bytes|
        invariant LineEnd(bytes, p) == LineEnd(bytes, pos)
        decreases |bytes| - p
      {
        p := p + 1;
      }
      if p == |bytes| {
        return None;
      }
      pos := p + 1;
    }
    r := Some(pos);
    assert bytes[..0] == [];
    CommentEndMeaning(bytes, 0);
  }

  /** The records of a dump file: after the comment lines, two header bytes are skipped and
      the complete 8-byte records follow. None when the comment lines are unterminated. */
  function ChannelRecords(bytes: seq<Byte>): Option<seq<Record8>> {
    match CommentEnd(bytes, 0)
    case None => None
    case Some(p) => Some(Records8(bytes[if p + 2 <= |bytes| then p + 2 else |bytes|..]))
  }

  /** What `main` does with its three arguments and the contents of the two input files
      (ignored for a "null" input): the first error it reports, or the events it writes,
      merged from the corrected priming (a disabled or exhausted channel never supplies the
      first event; see `PrimeChannels`). */
  function Convert(tdPath: string, apsPath: string, outputPath: string, tdBytes: seq<Byte>, apsBytes: seq<Byte>): (r: Result<seq<Event>, Failure>)
    requires apsPath != Null && ChannelRecords(apsBytes).Some? ==> ApsInRange(ChannelRecords(apsBytes).value)
  {
    var tdEnabled, apsEnabled := tdPath != Null, apsPath != Null;
    var td, aps := ChannelRecords(tdBytes), ChannelRecords(apsBytes);
    if CheckArguments(tdPath, apsPath, outputPath).Some? then Failure(CheckArguments(tdPath, apsPath, outputPath).value)
    else if tdEnabled && td.None? then Failure(TdFileEmpty)
    else if tdEnabled && !apsEnabled && td.value == [] then Failure(TdFileEmpty)
    else if apsEnabled && aps.None? then Failure(TdFileEmpty)
    else if apsEnabled && !tdEnabled && aps.value == [] then Failure(ApsFileEmpty)
    else if tdEnabled && apsEnabled && td.value == [] && aps.value == [] then Failure(BothFilesEmpty)
    else Success(Merged(tdEnabled, apsEnabled, if tdEnabled then td.value else [], if apsEnabled then aps.value else []))
  }

  /** A successful conversion passed the argument checks and read every enabled channel; the
      events it writes keep the merge's guarantees with respect to the records of the files
      (each channel's events are exactly the records its admission rule keeps), and the first
      td record is among them. */
  lemma ConvertCorrect(tdPath: string, apsPath: string, outputPath: string, tdBytes: seq<Byte>, apsBytes: seq<Byte>)
    requires apsPath != Null && ChannelRecords(apsBytes).Some? ==> ApsInRange(ChannelRecords(apsBytes).value)
    ensures var r := Convert(tdPath, apsPath, outputPath, tdBytes, apsBytes);
      r.Success? ==>
        && CheckArguments(tdPath, apsPath, outputPath).None?
        && (tdPath != Null ==> ChannelRecords(tdBytes).Some?)
        && (apsPath != Null ==> ChannelRecords(apsBytes).Some?)
        && Guarantees(if tdPath != Null then ChannelRecords(tdBytes).value else [],
                      if apsPath != Null then ChannelRecords(apsBytes).value else [], r.value)
        && (tdPath != Null && ChannelRecords(tdBytes).value != [] ==>
              TdEvent(ChannelRecords(tdBytes).value[0]) in r.value)
  {
    var r := Convert(tdPath, apsPath, outputPath, tdBytes, apsBytes);
    if r.Success? {
      var tdEnabled, apsEnabled := tdPath != Null, apsPath != Null;
      var td := if tdEnabled then ChannelRecords(tdBytes).value else [];
      var aps := if apsEnabled then ChannelRecords(apsBytes).value else [];
      MergedCorrect(tdEnabled, apsEnabled, td, aps);
      assert Channel(tdEnabled, td) == td && Channel(apsEnabled, aps) == aps;
      if td != [] {
        FirstTdWritten(td, aps);
      }
    }
  }

  /** The first td record is always written: no timestamp is older than 0, so priming
      admits it, and a pending event is always written. */
  lemma FirstTdWritten(td: seq<Record8>, aps: seq<Record8>)
    requires ApsInRange(aps) && td != []
    ensures TdEvent(td[0]) in Run(td, aps, Prime(td, aps)).out
  {
    PrimeShape(td, aps);
    PendingTdWritten(td, aps, Prime(td, aps));
  }

  /** A td event pending in a state of the loop is written later, after what is already
      written. */
  lemma {:induction false} PendingTdWritten(td: seq<Record8>, aps: seq<Record8>, e: Engine)
    requires Wf(td, aps, e) && TdPending(e)
    ensures exists k :: |e.out| <= k < |Run(td, aps, e).out| && Run(td, aps, e).out[k] == e.tdEvent
    decreases Measure(td, aps, e)
  {
    var e' := Step(td, aps, e);
    var f := Run(td, aps, e');
    assert Run(td, aps, e) == f;
    RunExtends(td, aps, e');
    if e.status == TdLate || e.status == ApsEndOfFile {
      EmitTdShape(td, aps, e);
      assert f.out[..|e'.out|][|e.out|] == e.tdEvent;
    } else {
      EmitApsShape(td, aps, e);
      PendingTdWritten(td, aps, e');
    }
  }

  /** An aps event pending in a state of the loop is written later, after what is already
      written. */
  lemma {:induction false} PendingApsWritten(td: seq<Record8>, aps: seq<Record8>, e: Engine)
    requires Wf(td, aps, e) && ApsPending(e)
    ensures exists k :: |e.out| <= k < |Run(td, aps, e).out| && Run(td, aps, e).out[k] == e.apsEvent
    decreases Measure(td, aps, e)
  {
    var e' := Step(td, aps, e);
    var f := Run(td, aps, e');
    assert Run(td, aps, e) == f;
    RunExtends(td, aps, e');
    if e.status == ApsLate || e.status == TdEndOfFile {
      EmitApsShape(td, aps, e);
      assert f.out[..|e'.out|][|e.out|] == e.apsEvent;
    } else {
      EmitTdShape(td, aps, e);
      PendingApsWritten(td, aps, e');
    }
  }

  // ---------------------------------------------------------------------------------------
  // The imperative merge

  /** The td inner reading loop (lines 200-222 and 295-314): from the record at `from`, skip
      records older than `previous`. */
  method ReadTd(td: seq<Record8>, from: nat, previous: nat) returns (j: nat)
    requires from <= |td|
    ensures j == FirstTd(td, from, previous)
  {
    j := from;
    while j < |td| && TdEvent(td[j]).t < previous
      invariant from <= j <= |td|
      invariant FirstTd(td, j, previous) == FirstTd(td, from, previous)
      decreases |td| - j
    {
      j := j + 1;
    }
  }

  /** The aps inner reading loop (lines 232-255 and 265-285): from the record at `from`, skip
      records the table does not admit, and record the admitted one's timestamp at its pixel. */
  method ReadAps(aps: seq<Record8>, from: nat, previous: nat, table: array<nat>) returns (j: nat)
    requires from <= |aps| && table.Length == TableSize && ApsInRange(aps)
    modifies table
    ensures j == FirstAps(aps, from, previous, old(table[..]))
    ensures j < |aps| ==> table[..] == old(table[..])[PixelIndex(ApsEvent(aps[j])) := ApsEvent(aps[j]).t]
    ensures j == |aps| ==> table[..] == old(table[..])
  {
    j := from;
    while j < |aps| && !(ApsEvent(aps[j]).t >= previous && ApsEvent(aps[j]).t > table[PixelIndex(ApsEvent(aps[j]))])
      invariant from <= j <= |aps|
      invariant table[..] == old(table[..])
      invariant FirstAps(aps, j, previous, table[..]) == FirstAps(aps, from, previous, table[..])
      decreases |aps| - j
    {
      j := j + 1;
    }
    if j < |aps| {
      var e := ApsEvent(aps[j]);
      table[PixelIndex(e)] := e.t;
    }
  }

  /** The td cases of the main loop (lines 194-225 and 289-317): write the buffered td event,
      then read the td channel on to its next admitted record. `e` is the state before. */
  method TdPass(td: seq<Record8>, aps: seq<Record8>, ghost e: Engine,
                status: Status, ti: nat, tdEvent: Event, apsEvent: Event, out: seq<Event>)
    returns (status': Status, ti': nat, tdEvent': Event, previous': nat, out': seq<Event>, done': bool)
    requires Wf(td, aps, e) && !e.done && (status == TdLate || status == ApsEndOfFile)
    requires e.status == status && e.ti == ti && e.tdEvent == tdEvent && e.apsEvent == apsEvent && e.out == out
    ensures var f := Step(td, aps, e);
      && f.status == status' && f.ti == ti' && f.tdEvent == tdEvent' && f.previous == previous'
      && f.out == out' && f.done == done'
      && f.ai == e.ai && f.apsEvent == e.apsEvent && f.table == e.table
  {
    status', tdEvent', done' := status, tdEvent, false;
    out' := out + [tdEvent];
    previous' := tdEvent.t;
    var j := ReadTd(td, ti, previous');
    if j == |td| {
      ti' := j;
      if status == TdLate {
        status' := TdEndOfFile;
      } else {
        done' := true;
      }
    } else {
      tdEvent' := TdEvent(td[j]);
      ti' := j + 1;
      if status == TdLate && tdEvent'.t > apsEvent.t {
        status' := ApsLate;
      }
    }
  }

  /** The aps cases of the main loop (lines 226-258 and 259-288): write the buffered aps
      event, then read the aps channel on to its next admitted record, recording it in the
      table. `e` is the state before. */
  method ApsPass(td: seq<Record8>, aps: seq<Record8>, ghost e: Engine, table: array<nat>,
                 status: Status, ai: nat, tdEvent: Event, apsEvent: Event, out: seq<Event>)
    returns (status': Status, ai': nat, apsEvent': Event, previous': nat, out': seq<Event>, done': bool)
    requires Wf(td, aps, e) && !e.done && (status == ApsLate || status == TdEndOfFile)
    requires e.status == status && e.ai == ai && e.tdEvent == tdEvent && e.apsEvent == apsEvent && e.out == out
    requires table.Length == TableSize && table[..] == e.table
    modifies table
    ensures var f := Step(td, aps, e);
      && f.status == status' && f.ai == ai' && f.apsEvent == apsEvent' && f.previous == previous'
      && f.out == out' && f.done == done' && f.table == table[..]
      && f.ti == e.ti && f.tdEvent == e.tdEvent
  {
    status', apsEvent', done' := status, apsEvent, false;
    out' := out + [apsEvent];
    previous' := apsEvent.t;
    var j := ReadAps(aps, ai, previous', table);
    if j == |aps| {
      ai' := j;
      if status == ApsLate {
        status' := ApsEndOfFile;
      } else {
        done' := true;
      }
    } else {
      apsEvent' := ApsEvent(aps[j]);
      ai' := j + 1;
      if status == ApsLate && apsEvent'.t >= tdEvent.t {
        status' := TdLate;
      }
    }
  }

  /** The priming of lines 128-190, corrected: read each channel to its first admitted
      record (recording the aps one in the table) and decide the state from which channels
      hold one. */
  method PrimeChannels(td: seq<Record8>, aps: seq<Record8>, table: array<nat>)
    returns (status: Status, ti: nat, ai: nat, tdEvent: Event, apsEvent: Event, done: bool)
    requires ApsInRange(aps) && table.Length == TableSize && table[..] == Zeros()
    modifies table
    ensures Prime(td, aps) == Engine(status, ti, ai, tdEvent, apsEvent, 0, table[..], [], done)
  {
    tdEvent, apsEvent := DefaultEvent, DefaultEvent;
    ti := ReadTd(td, 0, 0);
    var tdFound := ti < |td|;
    if tdFound {
      tdEvent := TdEvent(td[ti]);
      ti := ti + 1;
    }
    ai := ReadAps(aps, 0, 0, table);
    var apsFound := ai < |aps|;
    if apsFound {
      apsEvent := ApsEvent(aps[ai]);
      ai := ai + 1;
    }
    if tdFound && apsFound {
      status := if tdEvent.t > apsEvent.t then ApsLate else TdLate;
    } else if tdFound {
      status := ApsEndOfFile;
    } else {
      status := TdEndOfFile;
    }
    done := !tdFound && !apsFound;
  }

  /** Lines 128-319 on the records of the two channels (a disabled channel has none), with the
      corrected priming: the events written. */
  method Merge(td: seq<Record8>, aps: seq<Record8>) returns (out: seq<Event>)
    requires ApsInRange(aps)
    ensures out == Run(td, aps, Prime(td, aps)).out
    ensures Guarantees(td, aps, out)
  {
    var table := new nat[TableSize](i => 0);
    assert table[..] == Zeros();
    var status, ti, ai, tdEvent, apsEvent, done := PrimeChannels(td, aps, table);
    var previous: nat := 0;
    out := [];
    ghost var e := Prime(td, aps);

    while !done
      invariant table.Length == TableSize
      invariant e == Engine(status, ti, ai, tdEvent, apsEvent, previous, table[..], out, done)
      invariant Wf(td, aps, e) && Run(td, aps, e) == Run(td, aps, Prime(td, aps))
      decreases Measure(td, aps, e)
    {
      if status == TdLate || status == ApsEndOfFile {
        status, ti, tdEvent, previous, out, done := TdPass(td, aps, e, status, ti, tdEvent, apsEvent, out);
      } else {
        status, ai, apsEvent, previous, out, done := ApsPass(td, aps, e, table, status, ai, tdEvent, apsEvent, out);
      }
      e := Step(td, aps, e);
    }
    MergedCorrect(true, true, td, aps);
  }

  /** `main` after the output is opened: the argument checks, the comment headers of the two
      files, the empty-file errors of lines 103, 114, 120 and 124, and the merge. */
  method DatToEs(tdPath: string, apsPath: string, outputPath: string, tdBytes: seq<Byte>, apsBytes: seq<Byte>)
    returns (r: Result<seq<Event>, Failure>)
    requires apsPath != Null && ChannelRecords(apsBytes).Some? ==> ApsInRange(ChannelRecords(apsBytes).value)
    ensures r == Convert(tdPath, apsPath, outputPath, tdBytes, apsBytes)
  {
    var argumentError := CheckArguments(tdPath, apsPath, outputPath);
    if argumentError.Some? {
      return Failure(argumentError.value);
    }
    var tdEnabled, apsEnabled := tdPath != Null, apsPath != Null;
    var td: seq<Record8> := [];
    var aps: seq<Record8> := [];
    if tdEnabled {
      var header := SkipComments(tdBytes);
      if header.None? {
        return Failure(TdFileEmpty);
      }
      var start := if header.value + 2 <= |tdBytes| then header.value + 2 else |tdBytes|;
      td := Records8(tdBytes[start..]);
      assert ChannelRecords(tdBytes) == Some(td);
      if !apsEnabled && td == [] {
        return Failure(TdFileEmpty);
      }
    }
    if apsEnabled {
      var header := SkipComments(apsBytes);
      if header.None? {
        return Failure(TdFileEmpty);
      }
      var start := if header.value + 2 <= |apsBytes| then header.value + 2 else |apsBytes|;
      aps := Records8(apsBytes[start..]);
      assert ChannelRecords(apsBytes) == Some(aps);
      if !tdEnabled && aps == [] {
        return Failure(ApsFileEmpty);
      }
    }
    if tdEnabled && apsEnabled && td == [] && aps == [] {
      return Failure(BothFilesEmpty);
    }
    var out := Merge(td, aps);
    assert Channel(tdEnabled, td) == td && Channel(apsEnabled, aps) == aps;
    assert out == Merged(tdEnabled, apsEnabled, td, aps);
    assert td == (if tdEnabled then ChannelRecords(tdBytes).value else []);
    assert aps == (if apsEnabled then ChannelRecords(apsBytes).value else []);
    r := Success(out);
  }
}
