/** Runs of appends, commits, stream failures, crashes and reopens on one segment file. */
module CrashSafety {
  import opened Domain
  import opened Checksum
  import opened WalFormat
  import opened WalScan
  import opened WalReader
  import opened WalSegments
  import opened WalRecovery
  import opened WalWriter

  /** One segment's identity. */
  datatype Id = Id(stream: u64, epoch: u64, first: u64) {
    function Bytes(log: seq<Entry>): seq<byte> {
      Segment(stream, epoch, first, log)
    }

    function Record(n: nat, e: Entry): seq<byte> {
      EncodeRecord(stream, epoch, Add64(first, n), e)
    }

    /** Where the last payload of a segment ends and its padding begins. */
    function PayloadEnd(log: seq<Entry>): nat
      requires log != []
    {
      |Bytes(log[..|log| - 1])| + RECORD_HEADER_SIZE + |log[|log| - 1].payload|
    }
  }

  datatype Step = Use(op: Op) | Crash(keep: nat)

  /**
   The writer with its history: `log` are the records given to the file, the last of them possibly
   only in part, and the first `durable` of them were reported committed or found on reopening.
   */
  datatype Sys = Sys(w: Writer, log: seq<Entry>, durable: nat)

  predicate Healthy(w: Writer) {
    w.error == NoError && !w.file.bad
  }

  /** The file is the segment of the log but for some of the zero bytes behind its last payload, all of it flushed. */
  predicate Fragment(id: Id, s: Sys) {
    && s.log != []
    && id.PayloadEnd(s.log) <= |s.w.file.bytes| < |id.Bytes(s.log)|
    && s.w.file.flushed == |s.w.file.bytes|
  }

  ghost predicate Sound(id: Id, s: Sys) {
    var file := s.w.file;
    && Named(id.stream, id.epoch, id.first) && Writable(s.log) && id.first + |s.log| <= U64_LIMIT
    && s.w.stream == id.stream && s.w.epoch == id.epoch
    && SEGMENT_HEADER_SIZE <= |file.bytes| <= |id.Bytes(s.log)|
    && file.bytes == id.Bytes(s.log)[..|file.bytes|]
    && (Healthy(s.w) ==> s.w.next == Add64(id.first, |s.log|) && (file.bytes == id.Bytes(s.log) || Fragment(id, s)))
    && s.durable <= |s.log|
    && (s.durable > 0 ==> |id.Bytes(s.log[..s.durable])| <= file.flushed || Fragment(id, s))
    && file.flushed <= |file.bytes|
  }

  ghost function Start(id: Id): Sys {
    Sys(Open([], id.stream, id.epoch, id.first, false, None), [], 0)
  }

  /** How many whole records the first `keep` bytes hold. */
  function Survivors(id: Id, log: seq<Entry>, keep: nat): (m: nat)
    ensures m <= |log|
    decreases |log|
  {
    if log == [] || keep >= |id.Bytes(log)| then |log| else Survivors(id, log[..|log| - 1], keep)
  }

  /** The cut is not inside the zero bytes behind a payload. */
  predicate Clean(id: Id, log: seq<Entry>, keep: nat) {
    var m := Survivors(id, log, keep);
    m == |log| || keep == |id.Bytes(log[..m])| || keep < |id.Bytes(log[..m])| + RECORD_HEADER_SIZE + |log[m].payload|
  }

  /** How many records parsers find in the first `keep` bytes: a cut inside padding leaves its record. */
  function Found(id: Id, log: seq<Entry>, keep: nat): (m: nat)
    ensures m <= |log|
  {
    if Clean(id, log, keep) then Survivors(id, log, keep) else Survivors(id, log, keep) + 1
  }

  /**
   Which steps the theorems are about: bounded payloads and sequences, no append behind a fragment of
   padding, and crashes that keep the segment header and every flushed byte.
   */
  predicate Allowed(id: Id, s: Sys, step: Step) {
    match step
    case Use(op) =>
      op.AppendOp? ==> |op.e.payload| <= MAX_PAYLOAD && id.first + |s.log| < U64_LIMIT
                        && (Healthy(s.w) ==> !Fragment(id, s))
    case Crash(keep) => s.w.file.flushed <= keep <= |s.w.file.bytes| && SEGMENT_HEADER_SIZE <= keep
  }

  ghost function Advance(id: Id, s: Sys, step: Step): Sys {
    match step
    case Use(op) =>
      var w := Do(Session(s.w, [], 0, 0), op).w;
      var log := if op.AppendOp? && Healthy(s.w) then s.log + [op.e] else s.log;
      Sys(w, log, if op.CommitOp? && Commit(s.w, op.flushFails).1.Committed? then |log| else s.durable)
    case Crash(keep) =>
      var m := Found(id, s.log, keep);
      var kept := if keep <= |s.w.file.bytes| then s.w.file.bytes[..keep] else s.w.file.bytes;
      Sys(Open(kept, id.stream, id.epoch, id.first, false, None), s.log[..m], m)
  }

  ghost function After(id: Id, steps: seq<Step>): Sys
    decreases |steps|
  {
    if steps == [] then Start(id) else Advance(id, After(id, steps[..|steps| - 1]), steps[|steps| - 1])
  }

  ghost predicate AllAllowed(id: Id, steps: seq<Step>) {
    forall i: nat | i < |steps| :: Allowed(id, After(id, steps[..i]), steps[i])
  }

  // Sizes

  lemma {:induction false} BytesGrow(id: Id, log: seq<Entry>, m: nat)
    requires m <= |log|
    ensures SEGMENT_HEADER_SIZE <= |id.Bytes(log[..m])| <= |id.Bytes(log)|
    ensures m < |log| ==> |id.Bytes(log[..m])| + |id.Record(m, log[m])| <= |id.Bytes(log)|
    ensures id.Bytes(log[..m]) == id.Bytes(log)[..|id.Bytes(log[..m])|]
    decreases |log|
  {
    hide EncodeRecord, Add64, EncodeSegmentHeader;
    if m == |log| {
      assert log[..m] == log;
    } else {
      var n := |log| - 1;
      assert log == log[..n] + [log[n]];
      SegmentAppend(id.stream, id.epoch, id.first, log[..n], log[n]);
      BytesGrow(id, log[..n], m);
      assert log[..n][..m] == log[..m];
    }
  }

  /** Every cut keeps its survivors and a proper part of the next record. */
  lemma {:induction false} SurvivorsCut(id: Id, log: seq<Entry>, keep: nat)
    requires SEGMENT_HEADER_SIZE <= keep <= |id.Bytes(log)|
    ensures var m := Survivors(id, log, keep);
      && |id.Bytes(log[..m])| <= keep
      && (m == |log| ==> keep == |id.Bytes(log)|)
      && (m < |log| ==>
            && keep - |id.Bytes(log[..m])| < |id.Record(m, log[m])|
            && id.Bytes(log)[..keep] == id.Bytes(log[..m]) + id.Record(m, log[m])[..keep - |id.Bytes(log[..m])|])
    decreases |log|
  {
    hide EncodeRecord, Add64, EncodeSegmentHeader;
    EmptySegment(id.stream, id.epoch, id.first);
    if keep == |id.Bytes(log)| {
      assert log[..|log|] == log;
    } else {
      var n := |log| - 1;
      assert log == log[..n] + [log[n]];
      SegmentAppend(id.stream, id.epoch, id.first, log[..n], log[n]);
      var m := Survivors(id, log, keep);
      if keep < |id.Bytes(log[..n])| {
        SurvivorsCut(id, log[..n], keep);
        assert log[..n][..m] == log[..m];
        assert id.Bytes(log)[..keep] == id.Bytes(log[..n])[..keep];
      } else {
        SurvivorsAll(id, log[..n], keep);
      }
    }
  }

  /** Records that end before the cut survive it. */
  lemma AllTaken(log: seq<Entry>)
    ensures log[..|log|] == log
  {
  }

  lemma {:induction false} SurvivorsEnough(id: Id, log: seq<Entry>, keep: nat, n: nat)
    requires n <= |log| && (n > 0 ==> |id.Bytes(log[..n])| <= keep)
    ensures n <= Survivors(id, log, keep)
    decreases |log|
  {
    hide Segment;
    if log != [] && keep < |id.Bytes(log)| && n > 0 {
      if n == |log| {
        AllTaken(log);
        assert false;
      } else {
        var last := |log| - 1;
        assert log[..last][..n] == log[..n];
        SurvivorsEnough(id, log[..last], keep, n);
      }
    }
  }

  lemma SurvivorsAll(id: Id, log: seq<Entry>, keep: nat)
    requires keep >= |id.Bytes(log)|
    ensures Survivors(id, log, keep) == |log|
  {
  }

  // Reopening

  /** How a file of whole records and part of a next one scans, and what recovery leaves of it. */
  lemma WholeScan(id: Id, log: seq<Entry>)
    requires Named(id.stream, id.epoch, id.first) && Writable(log)
    ensures ScanFile(id.Bytes(log)) ==
      Scan(ScanResult(true, NoError, LastOf(id.stream, id.epoch, id.first, |log|, NOWHERE), |id.Bytes(log)|, false),
           Deliveries(id.stream, id.epoch, id.first, log))
    ensures Recovered(id.Bytes(log)) == id.Bytes(log)
  {
    hide ScanFile, ScanFrom, Segment, Deliveries, Next;
    var file := id.Bytes(log);
    ScanSegmentThen(id.stream, id.epoch, id.first, log, []);
    assert file + [] == file;
    var sequence := Add64(id.first, |log|);
    NextEnd(file, id.stream, id.epoch, sequence);
    UnfoldScan(file, |file|, id.stream, id.epoch, sequence, LastOf(id.stream, id.epoch, id.first, |log|, NOWHERE));
    assert Deliveries(id.stream, id.epoch, id.first, log) + [] == Deliveries(id.stream, id.epoch, id.first, log);
  }

  lemma OpensAs(id: Id, existing: seq<byte>, after: seq<byte>)
    requires Named(id.stream, id.epoch, id.first)
    requires existing == EncodeSegmentHeader(MakeSegmentHeader(id.stream, id.epoch, id.first)) + after
    requires ScanFile(existing).result.ok || ScanFile(existing).result.error == IncompleteTrailingRecord
    ensures var w := Open(existing, id.stream, id.epoch, id.first, false, None);
      var last := ScanFile(existing).result.lastPosition;
      && Healthy(w) && w.stream == id.stream && w.epoch == id.epoch
      && w.file.bytes == Recovered(existing) && w.file.flushed == |Recovered(existing)| && w.file.budget == None
      && w.next == ExpectedAfter(last, id.first) && w.last == last && w.pending == [] && w.committed == []
  {
    hide ScanFile, Recovered, DecodeSegmentHeader, EncodeSegmentHeader, SegmentHeaderCrc;
    SegmentHeaderFound(existing, after, id.stream, id.epoch, id.first);
  }

  /** The sequence that follows `n` records, as recovered from the last position. */
  lemma ResumesAt(id: Id, n: nat)
    requires Named(id.stream, id.epoch, id.first) && id.first + n <= U64_LIMIT
    ensures ExpectedAfter(LastOf(id.stream, id.epoch, id.first, n, NOWHERE), id.first) == Add64(id.first, n)
  {
    if n > 0 {
      Add64Add(id.first, n - 1, 1);
    }
  }

  /** Reopening after a clean crash drops the torn record and goes on behind the last whole one. */
  lemma ReopenClean(id: Id, log: seq<Entry>, keep: nat)
    requires Named(id.stream, id.epoch, id.first) && Writable(log) && id.first + |log| <= U64_LIMIT
    requires SEGMENT_HEADER_SIZE <= keep <= |id.Bytes(log)| && Clean(id, log, keep)
    ensures var m := Survivors(id, log, keep);
      var w := Open(id.Bytes(log)[..keep], id.stream, id.epoch, id.first, false, None);
      && Healthy(w) && w.stream == id.stream && w.epoch == id.epoch
      && w.file.bytes == id.Bytes(log[..m]) && w.file.flushed == |w.file.bytes|
      && w.next == Add64(id.first, m)
  {
    hide ScanFile, Recovered, EncodeRecord, EncodeSegmentHeader, MakeSegmentHeader, Deliveries, Open, Records;
    var m := Survivors(id, log, keep);
    var existing := id.Bytes(log)[..keep];
    var header := EncodeSegmentHeader(MakeSegmentHeader(id.stream, id.epoch, id.first));
    assert existing == header + existing[|header|..];
    SurvivorsCut(id, log, keep);
    if m == |log| {
      assert existing == id.Bytes(log) && log[..m] == log;
      WholeScan(id, log);
    } else {
      var k := keep - |id.Bytes(log[..m])|;
      TornTail(id.stream, id.epoch, id.first, log[..m], log[m], k);
      CutAfter(id.stream, id.epoch, id.first, log[..m], log[m], k);
    }
    OpensAs(id, existing, existing[|header|..]);
    ResumesAt(id, m);
  }

  /** A file cut inside the padding of its last record scans and reads with that record, then ends. */
  lemma CutPaddingReads(id: Id, log: seq<Entry>, e: Entry, k: nat)
    requires Named(id.stream, id.epoch, id.first) && Writable(log + [e]) && id.first + |log| < U64_LIMIT
    requires 0 < k < |id.Record(|log|, e)| && InPadding(e, k)
    ensures var file := id.Bytes(log) + id.Record(|log|, e)[..k];
      && ScanFile(file).result.ok && ScanFile(file).result.lastPosition == Position(id.stream, id.epoch, Add64(id.first, |log|))
      && ScanFile(file).accepted == Deliveries(id.stream, id.epoch, id.first, log + [e])
      && ReadFile(file).records == ScanFile(file).accepted && ReadFile(file).stop == EndOfLog
  {
    hide ScanFile, ReadFile, ReadFrom, Segment, EncodeRecord, Next, Deliveries, MakeSegmentHeader, Add64;
    assert e in log + [e];
    assert forall x | x in log :: x in log + [e];
    var sequence := Add64(id.first, |log|);
    var before, record := id.Bytes(log), id.Record(|log|, e);
    TornTail(id.stream, id.epoch, id.first, log, e, k);
    ReadSegmentThen(id.stream, id.epoch, id.first, log, record[..k]);
    NextCut(before, id.stream, id.epoch, sequence, e, k);
    HeaderFields(id.stream, id.epoch, id.first);
    ReadByNext(before + record[..k], |before|, MakeSegmentHeader(id.stream, id.epoch, id.first),
               LastOf(id.stream, id.epoch, id.first, |log|, NOWHERE));
    DeliveriesConcat(id.stream, id.epoch, id.first, log, [e]);
    OneDelivery(id.stream, id.epoch, sequence, e);
  }

  lemma HeaderFields(stream: u64, epoch: u64, first: u64)
    ensures var h := MakeSegmentHeader(stream, epoch, first);
      h.stream == stream && h.epoch == epoch && h.first == first
  {
  }

  lemma OneDelivery(stream: u64, epoch: u64, sequence: u64, e: Entry)
    ensures Deliveries(stream, epoch, sequence, [e])
      == [Delivered(Position(stream, epoch, sequence), e.recordType, e.payload)]
  {
    assert Deliveries(stream, epoch, Add64(sequence, 1), []) == [];
  }

  /** Reopening after a crash inside padding keeps the fragment and goes on behind the record it belongs to. */
  lemma ReopenUnclean(id: Id, log: seq<Entry>, keep: nat)
    requires Named(id.stream, id.epoch, id.first) && Writable(log) && id.first + |log| <= U64_LIMIT
    requires SEGMENT_HEADER_SIZE <= keep <= |id.Bytes(log)| && !Clean(id, log, keep)
    ensures var m := Survivors(id, log, keep) + 1;
      var w := Open(id.Bytes(log)[..keep], id.stream, id.epoch, id.first, false, None);
      var file := w.file.bytes;
      && m <= |log| && Healthy(w) && w.stream == id.stream && w.epoch == id.epoch
      && file == id.Bytes(log)[..keep] && w.file.flushed == |file| && w.next == Add64(id.first, m)
      && id.PayloadEnd(log[..m]) <= keep < |id.Bytes(log[..m])|
  {
    hide ScanFile, ReadFile, Recovered, EncodeRecord, EncodeSegmentHeader, MakeSegmentHeader, Deliveries, Open, Records;
    var m := Survivors(id, log, keep);
    var existing := id.Bytes(log)[..keep];
    var header := EncodeSegmentHeader(MakeSegmentHeader(id.stream, id.epoch, id.first));
    assert existing == header + existing[|header|..];
    SurvivorsCut(id, log, keep);
    var k := keep - |id.Bytes(log[..m])|;
    assert log[..m + 1] == log[..m] + [log[m]];
    SegmentAppend(id.stream, id.epoch, id.first, log[..m], log[m]);
    assert log[..m + 1][..m] == log[..m];
    CutAfter(id.stream, id.epoch, id.first, log[..m], log[m], k);
    OpensAs(id, existing, existing[|header|..]);
    ResumesAt(id, m + 1);
  }

  // Steps

  lemma StartSound(id: Id)
    requires Named(id.stream, id.epoch, id.first)
    ensures Sound(id, Start(id)) && Healthy(Start(id).w)
  {
    hide EncodeSegmentHeader, MakeSegmentHeader;
    var header := EncodeSegmentHeader(MakeSegmentHeader(id.stream, id.epoch, id.first));
    assert id.Bytes([]) == header + [] == header;
    assert [] + header == header;
    Add64Add(id.first, 0, 0);
  }

  lemma AppendSound(id: Id, s: Sys, e: Entry)
    requires Sound(id, s) && Allowed(id, s, Use(AppendOp(e)))
    ensures Sound(id, Advance(id, s, Use(AppendOp(e))))
  {
    hide EncodeRecord, Segment, Add64;
    if Healthy(s.w) {
      assert !Fragment(id, s);
      SegmentAppend(id.stream, id.epoch, id.first, s.log, e);
      Add64Add(id.first, |s.log|, 1);
      assert (s.log + [e])[..s.durable] == s.log[..s.durable];
      var record := id.Record(|s.log|, e);
      var f := Wrote(s.w.file, record);
      assert f.bytes == (id.Bytes(s.log) + record)[..|f.bytes|];
    }
  }

  lemma OtherSound(id: Id, s: Sys, op: Op)
    requires Sound(id, s) && !op.AppendOp?
    ensures Sound(id, Advance(id, s, Use(op)))
  {
    hide EncodeRecord, Segment, Add64, Append;
    assert s.log[..|s.log|] == s.log;
  }

  lemma CrashSound(id: Id, s: Sys, keep: nat)
    requires Sound(id, s) && Allowed(id, s, Crash(keep))
    ensures var t := Advance(id, s, Crash(keep));
      && Sound(id, t) && Healthy(t.w) && s.durable <= t.durable == |t.log| <= |s.log| && t.log == s.log[..t.durable]
  {
    hide EncodeRecord, Segment, Add64, Open, Wrote, Clean, Survivors, Found, Fragment;
    assert s.w.file.bytes[..keep] == id.Bytes(s.log)[..keep];
    FoundEnough(id, s, keep);
    if Clean(id, s.log, keep) {
      CleanSound(id, s, keep);
    } else {
      UncleanSound(id, s, keep);
    }
  }

  lemma CleanSound(id: Id, s: Sys, keep: nat)
    requires Sound(id, s) && Allowed(id, s, Crash(keep)) && Clean(id, s.log, keep)
    ensures Sound(id, Advance(id, s, Crash(keep))) && Healthy(Advance(id, s, Crash(keep)).w)
  {
    hide EncodeRecord, Segment, Add64, Open, Wrote, Clean, Survivors, Fragment;
    var m := Survivors(id, s.log, keep);
    assert s.w.file.bytes[..keep] == id.Bytes(s.log)[..keep];
    ReopenClean(id, s.log, keep);
    SurvivorsCut(id, s.log, keep);
    BytesGrow(id, s.log, m);
    assert s.log[..m][..m] == s.log[..m];
  }

  lemma UncleanSound(id: Id, s: Sys, keep: nat)
    requires Sound(id, s) && Allowed(id, s, Crash(keep)) && !Clean(id, s.log, keep)
    ensures Sound(id, Advance(id, s, Crash(keep))) && Healthy(Advance(id, s, Crash(keep)).w)
  {
    hide EncodeRecord, Segment, Add64, Open, Wrote, Survivors, Clean, ScanFile, ReadFile, ExpectedAfter, Deliveries;
    assert s.w.file.bytes[..keep] == id.Bytes(s.log)[..keep];
    ReopenUnclean(id, s.log, keep);
    var m := Found(id, s.log, keep);
    BytesGrow(id, s.log, m);
    var t := Advance(id, s, Crash(keep));
    assert t.log[..m - 1] == s.log[..m - 1] && t.log[..m] == t.log;
    assert t.w.file.bytes == id.Bytes(t.log)[..keep];
  }

  /** A crash leaves every durable record to be found. */
  lemma FoundEnough(id: Id, s: Sys, keep: nat)
    requires Sound(id, s) && Allowed(id, s, Crash(keep))
    ensures s.durable <= Found(id, s.log, keep)
  {
    hide Segment, EncodeRecord, Survivors, Add64;
    if Fragment(id, s) {
      SurvivorsCut(id, s.log, keep);
      var n := |s.log| - 1;
      BytesGrow(id, s.log, n);
      SurvivorsEnough(id, s.log, keep, n);
      assert s.log[..n + 1] == s.log;
    } else {
      SurvivorsEnough(id, s.log, keep, s.durable);
    }
  }

  /** No step takes a durable record away or changes it. */
  lemma AdvanceSound(id: Id, s: Sys, step: Step)
    requires Sound(id, s) && Allowed(id, s, step)
    ensures var t := Advance(id, s, step);
      && Sound(id, t) && s.durable <= t.durable
      && t.log[..s.durable] == s.log[..s.durable]
  {
    hide Segment, EncodeRecord, Add64, Open, Wrote, Survivors, Clean;
    match step
    case Use(op) =>
      if op.AppendOp? {
        AppendSound(id, s, op.e);
      } else {
        OtherSound(id, s, op);
      }
    case Crash(keep) =>
      CrashSound(id, s, keep);
      var t := Advance(id, s, step);
      assert s.log[..t.durable][..s.durable] == s.log[..s.durable];
  }

  /**
   Over every run: the file is a prefix of a well formed segment, a healthy writer's file is exactly the
   segment of its records and the writer stands behind the last of them.
   */
  lemma {:induction false} RunSound(id: Id, steps: seq<Step>)
    requires Named(id.stream, id.epoch, id.first) && AllAllowed(id, steps)
    ensures Sound(id, After(id, steps))
    decreases |steps|
  {
    hide Sound, Advance, Allowed;
    if steps == [] {
      StartSound(id);
    } else {
      var n := |steps| - 1;
      AllowedPrefix(id, steps, n);
      RunSound(id, steps[..n]);
      AdvanceSound(id, After(id, steps[..n]), steps[n]);
    }
  }

  lemma AllowedPrefix(id: Id, steps: seq<Step>, n: nat)
    requires AllAllowed(id, steps) && n <= |steps|
    ensures AllAllowed(id, steps[..n])
    ensures n < |steps| ==> Allowed(id, After(id, steps[..n]), steps[n])
  {
    hide After, Allowed;
    forall i: nat | i < n
      ensures Allowed(id, After(id, steps[..n][..i]), steps[..n][i])
    {
      assert steps[..n][..i] == steps[..i];
    }
  }

  /** Every record reported committed at some point of a run is there, unchanged, at every later point. */
  lemma {:induction false} CommittedSurvive(id: Id, steps: seq<Step>, n: nat)
    requires Named(id.stream, id.epoch, id.first) && AllAllowed(id, steps) && n <= |steps|
    ensures var s, t := After(id, steps[..n]), After(id, steps);
      && s.durable <= t.durable <= |t.log| && s.durable <= |s.log|
      && t.log[..s.durable] == s.log[..s.durable]
    decreases |steps|
  {
    hide Advance, Allowed, Segment, Sound;
    if n == |steps| {
      assert steps[..n] == steps;
      RunSound(id, steps);
      SoundDurable(id, After(id, steps));
    } else {
      var last := |steps| - 1;
      AllowedPrefix(id, steps, last);
      CommittedSurvive(id, steps[..last], n);
      assert steps[..last][..n] == steps[..n];
      RunSound(id, steps[..last]);
      var s, u, t := After(id, steps[..n]), After(id, steps[..last]), After(id, steps);
      AdvanceSound(id, u, steps[last]);
      SoundDurable(id, t);
      KeptLonger(s.durable, u.durable, u.log, t.log);
    }
  }

  lemma SoundDurable(id: Id, s: Sys)
    requires Sound(id, s)
    ensures s.durable <= |s.log|
  {
  }

  lemma KeptLonger(n: nat, m: nat, before: seq<Entry>, after: seq<Entry>)
    requires n <= m <= |before| && m <= |after| && before[..m] == after[..m]
    ensures before[..n] == after[..n]
  {
    assert before[..m][..n] == before[..n];
    assert after[..m][..n] == after[..n];
  }

  /** Wherever a run stands, a healthy writer's file scans and reads as its log, and it goes on behind the last record. */
  lemma SoundReads(id: Id, s: Sys)
    requires Sound(id, s) && Healthy(s.w)
    ensures var file := s.w.file.bytes;
      && ScanFile(file).result.ok
      && ScanFile(file).accepted == Deliveries(id.stream, id.epoch, id.first, s.log)
      && ReadFile(file).records == ScanFile(file).accepted && ReadFile(file).stop == EndOfLog
      && s.w.next == ExpectedAfter(ScanFile(file).result.lastPosition, id.first)
  {
    hide ScanFile, ReadFile, Recovered, Segment, EncodeRecord, Deliveries, Add64;
    ResumesAt(id, |s.log|);
    if s.w.file.bytes == id.Bytes(s.log) {
      WholeScan(id, s.log);
      WriteReadRoundTrip(id.stream, id.epoch, id.first, s.log);
    } else {
      var n := |s.log| - 1;
      var bytes := s.w.file.bytes;
      assert s.log == s.log[..n] + [s.log[n]];
      SegmentAppend(id.stream, id.epoch, id.first, s.log[..n], s.log[n]);
      var k := |bytes| - |id.Bytes(s.log[..n])|;
      assert bytes == id.Bytes(s.log[..n]) + id.Record(n, s.log[n])[..k];
      CutPaddingReads(id, s.log[..n], s.log[n], k);
    }
  }

  /**
   At every point of every run in which the writer is healthy, and so right after every crash and reopen:
   both parsers read the file to its end and find exactly the log, the durable records first, and the
   writer goes on at the next sequence.
   */
  lemma CrashSafe(id: Id, steps: seq<Step>) returns (s: Sys)
    requires Named(id.stream, id.epoch, id.first) && AllAllowed(id, steps)
    ensures s == After(id, steps) && s.durable <= |s.log|
    ensures steps != [] && steps[|steps| - 1].Crash? ==> Healthy(s.w) && s.durable == |s.log|
    ensures Healthy(s.w) ==>
      var file := s.w.file.bytes;
      && ScanFile(file).result.ok
      && ScanFile(file).accepted == Deliveries(id.stream, id.epoch, id.first, s.log)
      && ReadFile(file).records == ScanFile(file).accepted && ReadFile(file).stop == EndOfLog
      && s.w.next == ExpectedAfter(ScanFile(file).result.lastPosition, id.first)
  {
    hide Advance, Allowed, Sound, ScanFile, ReadFile, Deliveries, ExpectedAfter;
    s := After(id, steps);
    RunSound(id, steps);
    SoundDurable(id, s);
    if Healthy(s.w) {
      SoundReads(id, s);
    }
    if steps != [] && steps[|steps| - 1].Crash? {
      var n := |steps| - 1;
      AllowedPrefix(id, steps, n);
      RunSound(id, steps[..n]);
      CrashSound(id, After(id, steps[..n]), steps[n].keep);
    }
  }

  /** Payloads of whole units of eight bytes have no padding, so there is never a fragment to append behind. */
  lemma UnpaddedNeverFragment(id: Id, s: Sys)
    requires Writable(s.log) && forall e | e in s.log :: |e.payload| % 8 == 0
    ensures !Fragment(id, s)
  {
    hide Segment, EncodeRecord;
    if s.log != [] {
      var n := |s.log| - 1;
      assert s.log == s.log[..n] + [s.log[n]];
      SegmentAppend(id.stream, id.epoch, id.first, s.log[..n], s.log[n]);
      EncodedSize(id.stream, id.epoch, Add64(id.first, n), s.log[n]);
      NoPadding(s.log[n]);
    }
  }

  lemma NoPadding(e: Entry)
    requires |e.payload| <= MAX_PAYLOAD && |e.payload| % 8 == 0
    ensures Padding(e) == 0
  {
    hide AlignUp, PaddingFor;
    PaddingRounds(RECORD_HEADER_SIZE + |e.payload|);
  }
}
