/** Every run of the Flash Service: boots, commands, confirmation by the App, and
    power loss in the middle of any of them. */
module ServiceRuns {
  import opened Blocks
  import opened Words
  import opened Protocol
  import opened Record
  import opened Scan
  import opened Crash
  import opened Journal
  import opened Policy
  import JR = JournalRuns
  import opened FlashPort
  import opened ServiceSpec

  /** A service with what its sessions were given: the blocks of the current session,
      and those of the last VERIFY session that ended with OK. */
  datatype Tracked = Tracked(service: Service, flash: Flash, blocks: seq<Block>, verified: seq<Block>)

  datatype Event =
    | Boot(deviceId: Word, cpuId: Word, maxDataWords: Word)
    | Command(request: Request, port: Port)
    | AppConfirm(port: Port)
    | LostCommand(request: Request, port: Port)
    | LostConfirm(port: Port)

  predicate IsBegin(command: Word) {
    command == CMD_PROGRAM_BEGIN || command == CMD_VERIFY_BEGIN
  }

  predicate IsData(command: Word) {
    command == CMD_PROGRAM_DATA || command == CMD_VERIFY_DATA
  }

  predicate IsEnd(command: Word) {
    command == CMD_PROGRAM_END || command == CMD_VERIFY_END
  }

  function BlockOf(p: Payload): Block
    requires |p| >= 5
  {
    Block(Join(p[3], p[4]), Join(p[0], p[1]), p[5..])
  }

  function StepCommand(t: Tracked, r: Request, port: Port): Tracked {
    var o := HandleCommand(t.service, t.flash, r, port);
    Tracked(o.service, o.flash,
            if o.status == OK && IsBegin(r.command) then []
            else if o.status == OK && IsData(r.command) then t.blocks + [BlockOf(r.payload)]
            else t.blocks,
            if o.status == OK && r.command == CMD_VERIFY_END then t.blocks else t.verified)
  }

  function Step(t: Tracked, ev: Event): Tracked {
    match ev
    case Boot(deviceId, cpuId, maxDataWords) => t.(service := BootInit(deviceId, cpuId, maxDataWords).0)
    case Command(r, port) => StepCommand(t, r, port)
    case AppConfirm(port) =>
      var o := ConfirmJournal(t.service, t.flash, None, port);
      t.(service := o.service, flash := o.flash)
    case LostCommand(r, port) =>
      t.(service := DETACHED, flash := HandleCommand(t.service, t.flash, r, port).flash)
    case LostConfirm(port) =>
      t.(service := DETACHED, flash := ConfirmJournal(t.service, t.flash, None, port).flash)
  }

  /** The state after a run on a device whose journal was erased. */
  function After(app: AppArea, run: seq<Event>): Tracked {
    if run == [] then Tracked(DETACHED, Flash(ErasedJournal(), app), [], [])
    else Step(After(app, run[..|run| - 1]), run[|run| - 1])
  }

  // ---------------------------------------------------------------- session conservation

  /** An append leaves the session and the App area alone and can only clear the flag. */
  predicate OnlyJournal(s: Service, flash: Flash, o: Outcome) {
    && o.flash.app == flash.app
    && o.service.session == s.session
    && o.service.initialized == s.initialized
    && (o.service.verifySucceeded ==> s.verifySucceeded)
  }

  lemma CommitKeepsApp(s: Service, flash: Flash, kind: AppendKind, a: Admission, port: Port)
    ensures OnlyJournal(s, flash, Commit(s, flash, kind, a, port))
  {
  }

  lemma ConfirmKeepsApp(s: Service, flash: Flash, expected: Option<Identity>, port: Port)
    ensures OnlyJournal(s, flash, ConfirmJournal(s, flash, expected, port))
  {
    CommitKeepsApp(s, flash, ConfirmAppend, AdmitConfirm(Summarise(flash.journal), expected), port);
  }

  lemma ImageKeepsApp(s: Service, flash: Flash, p: Payload, port: Port)
    ensures OnlyJournal(s, flash, AppendImageRecord(s, flash, p, port))
  {
    if ImagePayloadStatus(s, p) == OK {
      CommitKeepsApp(s, flash, ImageAppend, AdmitImage(Summarise(flash.journal), RequestedImage(s, p)), port);
    }
  }

  lemma AppendKeepsApp(s: Service, flash: Flash, p: Payload, port: Port)
    ensures OnlyJournal(s, flash, AppendRecord(s, flash, p, port))
  {
    if |p| == 16 && p[0] == BOOT_ATTEMPT {
      CommitKeepsApp(s, flash, AttemptAppend, AdmitAttempt(Summarise(flash.journal), RequestIdentity(p)), port);
    } else if |p| == 16 && p[0] == APP_CONFIRMED {
      ConfirmKeepsApp(s, flash, Some(RequestIdentity(p)), port);
    } else {
      ImageKeepsApp(s, flash, p, port);
    }
  }

  /** The counters of an open session describe exactly the blocks it accepted. */
  predicate SessionInvariant(s: Session, blocks: seq<Block>) {
    if s.kind.NoSession? then s == IDLE
    else
      && s.expectedBlock == s.processedPackets == |blocks| <= s.expectedPackets
      && s.processedWords == |WordsOf(blocks)| <= s.expectedWords
      && s.expectedPackets < 0x1_0000
      && InOrder(blocks)
  }

  /** What a data command does to the session. */
  lemma DataSession(s: Service, flash: Flash, kind: SessionKind, p: Payload, port: Port)
    requires !kind.NoSession?
    ensures var o := Data(s, flash, kind, p, port);
      && (o.status == OK ==> DataStatus(s, kind, p) == OK && o.service.session == Advance(s.session, p[2]))
      && (o.status != OK ==> o.service.session == IDLE || o.service.session == s.session)
  {
  }

  lemma AdvanceKeepsSession(session: Session, b: Block, blocks: seq<Block>)
    requires SessionInvariant(session, blocks) && !session.kind.NoSession? && |b.data| < 0x1_0000
    requires b.index == session.expectedBlock && session.processedPackets < session.expectedPackets
    requires |b.data| <= session.expectedWords - session.processedWords
    ensures SessionInvariant(Advance(session, |b.data|), blocks + [b])
  {
    WordsOfStep(blocks, b);
    InOrderStep(blocks, b);
  }

  /** What an accepted data command says about its block. */
  lemma AcceptedBlock(s: Service, kind: SessionKind, p: Payload)
    requires DataStatus(s, kind, p) == OK && s.session.processedWords <= s.session.expectedWords
    ensures |BlockOf(p).data| == p[2] <= s.session.expectedWords - s.session.processedWords
    ensures BlockOf(p).index == s.session.expectedBlock
    ensures s.session.processedPackets < s.session.expectedPackets
  {
  }

  lemma DataKeepsSession(s: Service, flash: Flash, kind: SessionKind, p: Payload, port: Port, blocks: seq<Block>)
    requires SessionInvariant(s.session, blocks) && !kind.NoSession?
    ensures var o := Data(s, flash, kind, p, port);
      && (o.status == OK ==> |p| >= 5 && SessionInvariant(o.service.session, blocks + [BlockOf(p)]))
      && (o.status != OK ==> SessionInvariant(o.service.session, blocks))
  {
    DataSession(s, flash, kind, p, port);
    if DataStatus(s, kind, p) == OK {
      AcceptedBlock(s, kind, p);
      AdvanceKeepsSession(s.session, BlockOf(p), blocks);
    }
  }

  lemma BeginKeepsSession(s: Service, flash: Flash, kind: SessionKind, p: Payload, port: Port, blocks: seq<Block>)
    requires SessionInvariant(s.session, blocks) && !kind.NoSession?
    ensures var o := Begin(s, flash, kind, p, port);
      SessionInvariant(o.service.session, if o.status == OK then [] else blocks)
  {
  }

  lemma CommandKeepsSession(t: Tracked, r: Request, port: Port)
    requires SessionInvariant(t.service.session, t.blocks)
    ensures SessionInvariant(StepCommand(t, r, port).service.session, StepCommand(t, r, port).blocks)
  {
    var s, flash, p := t.service, t.flash, r.payload;
    var o := HandleCommand(s, flash, r, port);
    if !s.initialized {
    } else if IsBegin(r.command) {
      var kind := if r.command == CMD_PROGRAM_BEGIN then ProgramSession else VerifySession;
      assert o == Begin(s, flash, kind, p, port);
      BeginKeepsSession(s, flash, kind, p, port, t.blocks);
    } else if IsData(r.command) {
      var kind := if r.command == CMD_PROGRAM_DATA then ProgramSession else VerifySession;
      assert o == Data(s, flash, kind, p, port);
      DataKeepsSession(s, flash, kind, p, port, t.blocks);
    } else if r.command == CMD_METADATA_APPEND_RECORD {
      AppendKeepsApp(s, flash, p, port);
    } else {
      assert o.service.session == s.session || o.service.session == IDLE;
    }
  }

  lemma StepKeepsSession(t: Tracked, ev: Event)
    requires SessionInvariant(t.service.session, t.blocks)
    ensures SessionInvariant(Step(t, ev).service.session, Step(t, ev).blocks)
  {
    match ev
    case Command(r, port) => CommandKeepsSession(t, r, port);
    case AppConfirm(port) => ConfirmKeepsApp(t.service, t.flash, None, port);
    case _ =>
  }

  /** In every reachable state the block index equals the processed packets, which are
      the accepted blocks in order, and neither count exceeds what was declared. */
  lemma {:induction false} RunsKeepSession(app: AppArea, run: seq<Event>)
    ensures SessionInvariant(After(app, run).service.session, After(app, run).blocks)
  {
    if run == [] {
    } else {
      RunsKeepSession(app, run[..|run| - 1]);
      StepKeepsSession(After(app, run[..|run| - 1]), run[|run| - 1]);
    }
  }

  /** A session that ends with OK consumed exactly the declared blocks, indexed
      0 .. n-1 in order, with exactly the declared number of words; and it ends so
      only if all of that holds. */
  lemma EndAcceptsExactly(app: AppArea, run: seq<Event>, r: Request, port: Port)
    requires IsEnd(r.command) && |r.payload| == 6
    ensures var t := After(app, run);
      var kind := if r.command == CMD_PROGRAM_END then ProgramSession else VerifySession;
      var packets, words := Join(r.payload[0], r.payload[1]), Join(r.payload[2], r.payload[3]);
      HandleCommand(t.service, t.flash, r, port).status == OK <==>
        && t.service.initialized
        && t.service.session.kind == kind
        && packets == t.service.session.expectedPackets == |t.blocks|
        && words == t.service.session.expectedWords == |WordsOf(t.blocks)|
        && InOrder(t.blocks)
  {
    RunsKeepSession(app, run);
  }

  // ---------------------------------------------------------------- verified Flash

  ghost predicate Matching(bs: seq<Block>, flash: Flash) {
    forall b :: b in bs ==>
      APP_START <= b.address && b.address + |b.data| <= APP_END && AppMatches(flash, b.address, b.data)
  }

  /** While the verify flag is set, Flash equals every word of the last VERIFY session;
      an open VERIFY session has only accepted words that Flash holds. */
  ghost predicate Coherent(t: Tracked) {
    && (t.service.verifySucceeded ==> Matching(t.verified, t.flash))
    && (t.service.session.kind.VerifySession? ==> Matching(t.blocks, t.flash))
  }

  /** A call of this request that fails leaves the App area alone. */
  predicate FailsCleanly(r: Request, port: Port) {
    && (r.command == CMD_ERASE && |r.payload| == 3 && port.stop < SECTOR_COUNT ==>
          forall i :: 0 <= i < port.stop ==> !Selected(Join(r.payload[0], r.payload[1]), i))
    && (r.command == CMD_PROGRAM_DATA && !port.callOk ==> port.stored == 0)
  }

  predicate EventFailsCleanly(ev: Event) {
    ev.Command? ==> FailsCleanly(ev.request, ev.port)
  }

  lemma NothingErased(flash: Flash, mask: U32, stop: nat)
    requires forall i :: 0 <= i < stop ==> !Selected(mask, i)
    ensures EraseSectors(flash, mask, stop) == flash
  {
    var erased := EraseSectors(flash, mask, stop);
    forall k | 0 <= k < APP_WORDS
      ensures erased.app[k] == flash.app[k]
    {
      assert !ErasedAt(mask, stop, APP_START + k);
    }
    assert erased.app == flash.app;
  }

  lemma NothingStored(flash: Flash, address: int, data: seq<Word>)
    requires APP_START <= address && address + |data| <= APP_END
    ensures StoreApp(flash, address, data, 0) == flash
  {
    assert StoreApp(flash, address, data, 0).app == flash.app;
  }

  lemma EraseKeepsCoherence(t: Tracked, r: Request, port: Port)
    requires Coherent(t) && r.command == CMD_ERASE && FailsCleanly(r, port)
    ensures Coherent(StepCommand(t, r, port))
  {
    if |r.payload| == 3 && port.stop < SECTOR_COUNT {
      NothingErased(t.flash, Join(r.payload[0], r.payload[1]), port.stop);
    }
  }

  lemma ProgramKeepsCoherence(t: Tracked, r: Request, port: Port)
    requires Coherent(t) && r.command == CMD_PROGRAM_DATA && FailsCleanly(r, port)
    ensures Coherent(StepCommand(t, r, port))
  {
    var p := r.payload;
    if t.service.initialized && DataStatus(t.service, ProgramSession, p) == OK && !port.callOk {
      NothingStored(t.flash, Join(p[0], p[1]), p[5..]);
    }
  }

  lemma VerifyKeepsCoherence(t: Tracked, r: Request, port: Port)
    requires Coherent(t) && r.command == CMD_VERIFY_DATA
    ensures Coherent(StepCommand(t, r, port))
  {
    var p := r.payload;
    if t.service.initialized && DataStatus(t.service, VerifySession, p) == OK {
      var call := FlashCall(t.flash, VerifySession, Join(p[0], p[1]), p[5..], port);
      assert call.0.FlashOk? ==> AppMatches(t.flash, BlockOf(p).address, BlockOf(p).data);
    }
  }

  lemma CommandKeepsCoherence(t: Tracked, r: Request, port: Port)
    requires Coherent(t) && FailsCleanly(r, port)
    ensures Coherent(StepCommand(t, r, port))
  {
    if r.command == CMD_ERASE {
      EraseKeepsCoherence(t, r, port);
    } else if r.command == CMD_PROGRAM_DATA {
      ProgramKeepsCoherence(t, r, port);
    } else if r.command == CMD_VERIFY_DATA {
      VerifyKeepsCoherence(t, r, port);
    } else if r.command == CMD_METADATA_APPEND_RECORD {
      AppendKeepsApp(t.service, t.flash, r.payload, port);
    }
  }

  lemma StepKeepsCoherence(t: Tracked, ev: Event)
    requires Coherent(t) && EventFailsCleanly(ev)
    ensures Coherent(Step(t, ev))
  {
    match ev
    case Command(r, port) => CommandKeepsCoherence(t, r, port);
    case AppConfirm(port) => ConfirmKeepsApp(t.service, t.flash, None, port);
    case _ =>
  }

  /** In every run whose failing commands leave the App area alone; a command lost to
      a power failure may do anything, because the boot that follows clears the flag. */
  lemma {:induction false} RunsStayCoherent(app: AppArea, run: seq<Event>)
    requires forall k :: 0 <= k < |run| ==> EventFailsCleanly(run[k])
    ensures Coherent(After(app, run))
  {
    if run == [] {
    } else {
      RunsStayCoherent(app, run[..|run| - 1]);
      StepKeepsCoherence(After(app, run[..|run| - 1]), run[|run| - 1]);
    }
  }

  /** IMAGE_VALID is published only while Flash holds every verified word. */
  lemma ImagesArePublishedVerified(app: AppArea, run: seq<Event>, r: Request, port: Port)
    requires forall k :: 0 <= k < |run| ==> EventFailsCleanly(run[k])
    requires r.command == CMD_METADATA_APPEND_RECORD && |r.payload| == 16 && r.payload[0] == IMAGE_VALID
    ensures var t := After(app, run);
      var o := HandleCommand(t.service, t.flash, r, port);
      && (o.status == OK || o.flash != t.flash ==> Matching(t.verified, t.flash) && Matching(t.verified, o.flash))
      && (o.status == OK ==> !o.service.verifySucceeded)
  {
    RunsStayCoherent(app, run);
    var t := After(app, run);
    var o := HandleCommand(t.service, t.flash, r, port);
    if t.service.initialized {
      assert o == AppendImageRecord(t.service, t.flash, r.payload, port);
      ImageKeepsApp(t.service, t.flash, r.payload, port);
    }
  }
}
