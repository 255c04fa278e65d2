/** RUN_RAM over whole runs of the boot core: which image it starts, and where. */
module RunRamRuns {
  import opened Words
  import opened Crc
  import opened Protocol
  import opened Blocks
  import opened RamMap
  import opened CoreSpec
  import opened CoreRuns

  // ---------------------------------------------------------------- the answers along a run

  /** What the core answered to the `k`-th event of a run. */
  function Answer(ram: Ram, init: Init, run: seq<Event>, k: nat): Status
    requires k < |run|
  {
    StatusOf(After(ram, init, run[..k]), run[k])
  }

  function StatusOf(t: Tracked, ev: Event): Status {
    match ev
    case Startup(init) => Validate(t.ram, init).1
    case Restart(init) => Restore(Core(NO_LOAD, NO_SERVICE), t.ram, init).status
    case Begin(p) => LoadBegin(t.core, t.ram, p).status
    case Data(p) => LoadData(t.core, t.ram, p).status
    case End(p) => LoadEnd(t.core, t.ram, p).status
    case Check(p) => CheckCrc(t.core, t.ram, p).status
    case ServiceAttach(p, init) => Attach(t.core, t.ram, p, init).status
    case ServiceCall(_, _) => 0
  }

  /** A BEGIN that was accepted. */
  predicate Opened(ram: Ram, init: Init, run: seq<Event>, k: nat)
    requires k < |run|
  {
    run[k].Begin? && Answer(ram, init, run, k) == 0
  }

  /** A CHECK_CRC that was accepted. */
  predicate Vouched(ram: Ram, init: Init, run: seq<Event>, k: nat)
    requires k < |run|
  {
    run[k].Check? && Answer(ram, init, run, k) == 0
  }

  /** An event after which an earlier CHECK_CRC counts no more: a new load, a CHECK_CRC
      that did not match, or a restart. */
  predicate Revoked(ram: Ram, init: Init, run: seq<Event>, k: nat)
    requires k < |run|
  {
    Opened(ram, init, run, k) || run[k].Restart? || (run[k].Check? && Answer(ram, init, run, k) == 0x0602)
  }

  /** The last CHECK_CRC that says something about the loaded image accepted it. */
  ghost predicate CheckStands(ram: Ram, init: Init, run: seq<Event>) {
    exists k: nat :: k < |run| && Vouched(ram, init, run, k) && NotRevokedSince(ram, init, run, k)
  }

  predicate NotRevokedSince(ram: Ram, init: Init, run: seq<Event>, k: nat) {
    forall i :: k < i < |run| ==> !Revoked(ram, init, run, i)
  }

  lemma AnswersOfFront(ram: Ram, init: Init, run: seq<Event>, k: nat)
    requires k < |run| - 1
    ensures var front := run[..|run| - 1];
      && Answer(ram, init, front, k) == Answer(ram, init, run, k)
      && Opened(ram, init, front, k) == Opened(ram, init, run, k)
      && Vouched(ram, init, front, k) == Vouched(ram, init, run, k)
      && Revoked(ram, init, front, k) == Revoked(ram, init, run, k)
  {
    assert run[..|run| - 1][..k] == run[..k];
  }

  lemma CheckStandsStep(ram: Ram, init: Init, run: seq<Event>)
    requires run != []
    ensures var n := |run| - 1;
      CheckStands(ram, init, run) <==>
        Vouched(ram, init, run, n) || (CheckStands(ram, init, run[..n]) && !Revoked(ram, init, run, n))
  {
    hide Vouched, Revoked;
    var n := |run| - 1;
    var front := run[..n];
    forall k: nat | k < n
      ensures Vouched(ram, init, front, k) == Vouched(ram, init, run, k)
      ensures Revoked(ram, init, front, k) == Revoked(ram, init, run, k)
    {
      AnswersOfFront(ram, init, run, k);
    }
    if CheckStands(ram, init, run) {
      var k: nat :| k < |run| && Vouched(ram, init, run, k) && NotRevokedSince(ram, init, run, k);
      if k < n {
        assert Vouched(ram, init, front, k) && NotRevokedSince(ram, init, front, k);
      }
    }
    if CheckStands(ram, init, front) && !Revoked(ram, init, run, n) {
      var k: nat :| k < n && Vouched(ram, init, front, k) && NotRevokedSince(ram, init, front, k);
      assert Vouched(ram, init, run, k) && NotRevokedSince(ram, init, run, k);
    }
    if Vouched(ram, init, run, n) {
      assert NotRevokedSince(ram, init, run, n);
    }
  }

  // ---------------------------------------------------------------- what the load remembers

  /** A checked load is complete; an open one is neither. */
  predicate Phases(load: RamLoad) {
    (load.crcChecked ==> load.imageReady) && (load.active ==> !load.imageReady)
  }

  lemma StepKeepsPhases(t: Tracked, ev: Event)
    requires Phases(t.core.load)
    ensures Phases(Step(t, ev).core.load)
    ensures Step(t, ev).core.load.crcChecked <==>
              (ev.Check? && StatusOf(t, ev) == 0) ||
              (t.core.load.crcChecked && !(ev.Begin? && StatusOf(t, ev) == 0) && !ev.Restart? &&
               !(ev.Check? && StatusOf(t, ev) == 0x0602))
  {
    hide Validate, Crc32Finalize, LoadWrite, AdvanceLoad, IsInWriteRegion, OverlapsWindow, DetachIf, AttachTo, AttachStatus;
    match ev
    case Data(p) => DataPhases(t, p);
    case _ =>
  }

  lemma DataPhases(t: Tracked, p: Payload)
    requires Phases(t.core.load)
    ensures var load := Step(t, Data(p)).core.load;
      if t.core.load.active then !load.crcChecked && !load.imageReady else load == t.core.load
  {
    hide LoadWrite, IsInWriteRegion, OverlapsWindow, DetachIf;
  }

  /** The flag is the run's last word on the image. */
  lemma {:induction false} FlagIsLastCheck(ram: Ram, init: Init, run: seq<Event>)
    ensures Phases(After(ram, init, run).core.load)
    ensures After(ram, init, run).core.load.crcChecked <==> CheckStands(ram, init, run)
  {
    if run == [] {
    } else {
      hide Step, StatusOf, Phases, CheckStands;
      var n := |run| - 1;
      FlagIsLastCheck(ram, init, run[..n]);
      StepKeepsPhases(After(ram, init, run[..n]), run[n]);
      CheckStandsStep(ram, init, run);
    }
  }

  // ---------------------------------------------------------------- the loaded span

  /** The span reaches from the least address of the blocks to their greatest end. */
  ghost predicate Spans(load: RamLoad, blocks: seq<Block>) {
    && (forall b :: b in blocks ==> load.loadedStart <= b.address && b.address + |b.data| <= load.loadedEnd)
    && (if blocks == [] then load.loadedStart == 0xFFFF_FFFF && load.loadedEnd == 0
        else (exists b :: b in blocks && b.address == load.loadedStart) &&
             (exists b :: b in blocks && b.address + |b.data| == load.loadedEnd))
  }

  ghost predicate SpanInvariant(load: RamLoad, blocks: seq<Block>) {
    load.active || load.imageReady ==> Spans(load, blocks)
  }

  lemma AdvanceSpans(load: RamLoad, blocks: seq<Block>, b: Block)
    requires Spans(load, blocks) && b.address + |b.data| < 0x1_0000_0000
    ensures Spans(AdvanceLoad(load, b.address, b.data), blocks + [b])
  {
    hide Crc32Fold;
    var after := AdvanceLoad(load, b.address, b.data);
    var all := blocks + [b];
    assert b in all && forall x :: x in blocks ==> x in all;
    assert forall x :: x in all ==> x in blocks || x == b;
    if b.address < load.loadedStart || blocks == [] {
      StartsFirst(load, b);
      assert b.address == after.loadedStart;
    }
    if b.address + |b.data| > load.loadedEnd || blocks == [] {
      assert b.address + |b.data| == after.loadedEnd;
    }
  }

  lemma StartsFirst(load: RamLoad, b: Block)
    ensures load.loadedStart == 0xFFFF_FFFF ==>
              AdvanceLoad(load, b.address, b.data).loadedStart == b.address
  {
    hide Crc32Fold;
  }

  lemma DataSpans(t: Tracked, p: Payload)
    requires SpanInvariant(t.core.load, t.blocks) && Phases(t.core.load)
    ensures SpanInvariant(Step(t, Data(p)).core.load, Step(t, Data(p)).blocks)
  {
    hide LoadWrite, OverlapsWindow, DetachIf, AdvanceLoad, IsInWriteRegion, Spans;
    if StatusOf(t, Data(p)) == 0 {
      WriteRegionMeaning(Field(p, 0), |p| - 5);
      AdvanceSpans(t.core.load, t.blocks, CoreRuns.BlockOf(p));
    }
  }

  lemma StepSpans(t: Tracked, ev: Event)
    requires SpanInvariant(t.core.load, t.blocks) && Phases(t.core.load)
    ensures SpanInvariant(Step(t, ev).core.load, Step(t, ev).blocks)
  {
    hide Validate, Crc32Finalize, LoadWrite, AdvanceLoad, IsInWriteRegion, OverlapsWindow, DetachIf, AttachTo, AttachStatus;
    match ev
    case Data(p) => DataSpans(t, p);
    case _ =>
  }

  lemma {:induction false} RunsSpan(ram: Ram, init: Init, run: seq<Event>)
    ensures SpanInvariant(After(ram, init, run).core.load, After(ram, init, run).blocks)
  {
    if run == [] {
    } else {
      hide Step, SpanInvariant, Phases;
      RunsSpan(ram, init, run[..|run| - 1]);
      FlagIsLastCheck(ram, init, run[..|run| - 1]);
      StepSpans(After(ram, init, run[..|run| - 1]), run[|run| - 1]);
    }
  }

  // ---------------------------------------------------------------- the entry point

  /** The BEGIN that opened the current load. */
  predicate OpenedLast(ram: Ram, init: Init, run: seq<Event>, k: nat) {
    k < |run| && Opened(ram, init, run, k) && forall i :: k < i < |run| ==> !Opened(ram, init, run, i)
  }

  /** The entry point that BEGIN stated. */
  ghost predicate EntryStated(ram: Ram, init: Init, run: seq<Event>, entry: U32) {
    exists k: nat :: OpenedLast(ram, init, run, k) && run[k].Begin? && |run[k].p| == 9 &&
                     entry == Join(run[k].p[4], run[k].p[5])
  }

  lemma StepKeepsEntry(t: Tracked, ev: Event)
    requires Phases(t.core.load)
    ensures var load := Step(t, ev).core.load;
      load.active || load.imageReady ==>
        if ev.Begin? && StatusOf(t, ev) == 0 then |ev.p| == 9 && load.entryPoint == Join(ev.p[4], ev.p[5])
        else (t.core.load.active || t.core.load.imageReady) && load.entryPoint == t.core.load.entryPoint
  {
    hide Validate, Crc32Finalize, LoadWrite, Crc32Fold, IsInWriteRegion, OverlapsWindow, DetachIf, AttachTo, AttachStatus,
         Join;
  }

  lemma {:induction false} EntryIsStated(ram: Ram, init: Init, run: seq<Event>)
    ensures var load := After(ram, init, run).core.load;
      load.active || load.imageReady ==> EntryStated(ram, init, run, load.entryPoint)
  {
    if run == [] {
    } else {
      hide Step, StatusOf, Phases, EntryStated;
      var n := |run| - 1;
      var load := After(ram, init, run).core.load;
      EntryIsStated(ram, init, run[..n]);
      FlagIsLastCheck(ram, init, run[..n]);
      StepKeepsEntry(After(ram, init, run[..n]), run[n]);
      if load.active || load.imageReady {
        if Opened(ram, init, run, n) {
          OpenedNow(ram, init, run);
        } else {
          StillStated(ram, init, run, load.entryPoint);
        }
      }
    }
  }

  lemma OpenedNow(ram: Ram, init: Init, run: seq<Event>)
    requires run != [] && Opened(ram, init, run, |run| - 1)
    requires run[|run| - 1].Begin? && |run[|run| - 1].p| == 9
    ensures EntryStated(ram, init, run, Join(run[|run| - 1].p[4], run[|run| - 1].p[5]))
  {
    hide Opened, Join;
    assert OpenedLast(ram, init, run, |run| - 1);
  }

  lemma StillStated(ram: Ram, init: Init, run: seq<Event>, entry: U32)
    requires run != [] && EntryStated(ram, init, run[..|run| - 1], entry) && !Opened(ram, init, run, |run| - 1)
    ensures EntryStated(ram, init, run, entry)
  {
    hide Opened, Join;
    var front := run[..|run| - 1];
    var k: nat :| OpenedLast(ram, init, front, k) && front[k].Begin? && |front[k].p| == 9 &&
                  entry == Join(front[k].p[4], front[k].p[5]);
    forall i: nat | i < |front|
      ensures Opened(ram, init, front, i) == Opened(ram, init, run, i)
    {
      AnswersOfFront(ram, init, run, i);
    }
    assert OpenedLast(ram, init, run, k);
  }

  // ---------------------------------------------------------------- RUN_RAM

  /** The address lies at or behind the first and before the last loaded word. */
  ghost predicate InSpan(blocks: seq<Block>, a: int) {
    (exists b :: b in blocks && b.address <= a) && (exists b :: b in blocks && a < b.address + |b.data|)
  }

  /** RUN_RAM after every run: accepted exactly for three words without flags, when the
      last CHECK_CRC of the completed load accepted it, for an address inside what was
      loaded and inside a write region; that is the stated address, or for zero the one
      the load's BEGIN stated. */
  lemma RunRamExactly(ram: Ram, init: Init, run: seq<Event>, p: Payload)
    ensures var t := After(ram, init, run);
      var answer := RunRam(t.core, p);
      && (answer.0 == 0 <==> answer.1.Some?)
      && (|p| != 3 <==> answer.0 == 0x0106)
      && (|p| == 3 && p[2] != 0 <==> answer.0 == 0x0109)
      && (|p| == 3 && p[2] == 0 && !CheckStands(ram, init, run) <==> answer.0 == 0x0203)
      && (|p| == 3 && p[2] == 0 && CheckStands(ram, init, run) ==>
            var entry := if p[0] == 0 && p[1] == 0 then t.core.load.entryPoint else Join(p[0], p[1]);
            && EntryStated(ram, init, run, t.core.load.entryPoint)
            && answer == if InSpan(t.blocks, entry) && IsInWriteRegion(entry, 1) then (0, Some(entry)) else (0x0703, None))
  {
    hide CheckStands, EntryStated, After, IsInWriteRegion, InLoadedImage, InSpan, Spans, Join;
    var t := After(ram, init, run);
    FlagIsLastCheck(ram, init, run);
    RunsSpan(ram, init, run);
    EntryIsStated(ram, init, run);
    if |p| == 3 {
      JoinIsZero(p[0], p[1]);
    }
    if t.core.load.imageReady && |p| == 3 {
      SpanMeans(t.core.load, t.blocks, if p[0] == 0 && p[1] == 0 then t.core.load.entryPoint else Join(p[0], p[1]));
    }
  }

  lemma SpanMeans(load: RamLoad, blocks: seq<Block>, a: U32)
    requires load.imageReady && Spans(load, blocks)
    ensures IsInWriteRegion(a, 1) ==> (InLoadedImage(load, a, 1) <==> InSpan(blocks, a))
  {
    WriteRegionMeaning(a, 1);
    hide IsInWriteRegion;
    if blocks != [] {
      var first :| first in blocks && first.address == load.loadedStart;
      var last :| last in blocks && last.address + |last.data| == load.loadedEnd;
    }
  }
}
