/** When each service command is accepted, what it then changes, and that a refusal
    changes nothing that counts. */
module ServiceAnswers {
  import opened Words
  import opened Protocol
  import opened Record
  import opened Scan
  import opened ScanMeaning
  import opened Crash
  import opened Journal
  import opened Rescan
  import JR = JournalRuns
  import opened FlashPort
  import opened SectorMap
  import opened ServiceSpec
  import opened Blocks
  import ServiceRuns
  import ServiceJournal

  predicate Works(port: Port) {
    port.initOk && port.callOk && port.stop >= SECTOR_COUNT
  }

  // ---------------------------------------------------------------- sessions

  lemma EraseBySector(s: Service, flash: Flash, p: Payload, port: Port, a: int)
    requires Works(port) && APP_START <= a < APP_END
    ensures var o := Erase(s, flash, p, port);
      && (o.status == OK <==>
            |p| == 3 && p[2] == 0 && Join(p[0], p[1]) != 0 && MaskAllowed(Join(p[0], p[1])))
      && (o.status == OK ==>
            && o.service.session == IDLE && !o.service.verifySucceeded && o.service.flashInitialized
            && (o.flash.journal == if Selected(Join(p[0], p[1]), SectorOf(METADATA_START)) then ErasedJournal()
                                   else flash.journal)
            && AppWord(o.flash, a) == if Selected(Join(p[0], p[1]), SectorOf(a)) then ERASED_WORD else AppWord(flash, a))
      && (o.status != OK ==> o.flash == flash && o.service.session == s.session
                             && o.service.verifySucceeded == s.verifySucceeded)
  {
    hide Selected;
    assert SectorOf(METADATA_START) == 1;
    AppSector(a);
    if |p| == 3 {
      var mask := Join(p[0], p[1]);
      assert EraseSectors(flash, mask, SECTOR_COUNT).app[a - APP_START] ==
             WordAfterErase(flash, mask, SECTOR_COUNT, a - APP_START);
    }
  }

  /** The address lies in a sector whose bit is set. */
  predicate MaskReaches(mask: nat, a: int) {
    exists i :: 0 <= i < 14 && InSector(a, i) && Bit(mask, i)
  }

  lemma MaskReachesMeans(mask: nat, a: int)
    requires APP_START <= a < APP_END
    ensures Selected(mask, SectorOf(a)) <==> MaskReaches(mask, a)
  {
    hide Selected, SectorOf, Bit;
    SectorMeans(a);
    SelectedMeans(mask, SectorOf(a));
  }

  /** ERASE on a working port: accepted exactly for three words, no flags and a non-empty
      mask of the sectors B to N; then every sector whose bit is set is erased, sector B
      with the journal, nothing else is, and no session or verified image survives. */
  lemma EraseExactly(s: Service, flash: Flash, p: Payload, port: Port, a: int)
    requires Works(port) && 0x08_2400 <= a < 0x0C_0000
    ensures var o := Erase(s, flash, p, port);
      && (o.status == 0 <==>
            |p| == 3 && p[2] == 0 && 0 < Join(p[0], p[1]) < 0x4000 && p[0] % 2 == 0)
      && (o.status == 0 ==>
            && o.service.session == IDLE && !o.service.verifySucceeded && o.service.flashInitialized
            && o.flash.journal == (if p[0] / 2 % 2 == 1 then ErasedJournal() else flash.journal)
            && AppWord(o.flash, a) == if MaskReaches(p[0], a) then 0xFFFF else AppWord(flash, a))
      && (o.status != 0 ==> o.flash == flash && o.service.session == s.session
                            && o.service.verifySucceeded == s.verifySucceeded)
  {
    hide Selected, SectorOf, MaskReaches, Erase;
    EraseBySector(s, flash, p, port, a);
    if |p| == 3 && Join(p[0], p[1]) < 0x4000 {
      LowMask(p[0], p[1]);
      MaskReachesMeans(p[0], a);
      SelectedMeans(p[0], 1);
      JournalSector();
    }
    if |p| == 3 {
      MaskParity(p[0], p[1]);
    }
  }

  lemma LowMask(low: Word, high: Word)
    requires Join(low, high) < 0x4000
    ensures Join(low, high) == low
  {
  }

  lemma MaskParity(low: Word, high: Word)
    ensures MaskAllowed(Join(low, high)) <==> low % 2 == 0 && Join(low, high) < 0x4000
  {
    assert Join(low, high) == low + 2 * (0x8000 * (high as int));
  }

  lemma JournalSector()
    ensures SectorOf(METADATA_START) == 1
  {
  }

  /** The sector of an App address is one that can be erased, and spans it. */
  lemma AppSector(a: int)
    requires APP_START <= a < APP_END
    ensures 1 <= SectorOf(a) < SECTOR_COUNT
  {
  }

  /** BEGIN: accepted exactly from idle for a well-formed announcement of at least one
      packet and one word; then a fresh session has taken nothing yet. */
  lemma BeginExactly(s: Service, flash: Flash, kind: SessionKind, p: Payload, port: Port)
    requires !kind.NoSession?
    ensures var o := Begin(s, flash, kind, p, port);
      && (o.status == OK <==>
            && s.session.kind == NoSession && |p| == 9 && p[0] == TARGET_FLASH_APP
            && p[1] > 0 && (p[2] != 0 || p[3] != 0) && (s.flashInitialized || port.initOk))
      && (o.status == OK ==>
            && o.service.session.kind == kind
            && o.service.session.expectedPackets == p[1]
            && o.service.session.expectedWords == p[2] as int + 0x1_0000 * (p[3] as int)
            && o.service.session.processedPackets == o.service.session.processedWords == 0
            && o.service.verifySucceeded == s.verifySucceeded)
      && (o.status != OK ==> o.service == s)
      && o.flash == flash
  {
  }

  lemma DataChecks(s: Service, flash: Flash, kind: SessionKind, p: Payload, port: Port)
    requires s.session.kind == kind && !kind.NoSession? && |p| >= 5
    requires s.session.processedWords <= s.session.expectedWords
    ensures DataStatus(s, kind, p) == OK <==>
            && |p| == 5 + p[2] as int && p[2] > 0 && p[2] % 8 == 0 && p[2] <= s.maxDataWords
            && Join(p[3], p[4]) == s.session.expectedBlock
            && s.session.processedPackets < s.session.expectedPackets
            && s.session.processedWords + p[2] as int <= s.session.expectedWords
            && AddressAllowed(Join(p[0], p[1]), p[2], kind == ProgramSession)
    ensures DataStatus(s, kind, p) != OK ==>
            Data(s, flash, kind, p, port) == Outcome(s.(session := IDLE), flash, DataStatus(s, kind, p))
  {
    hide AddressAllowed;
    assert p[2] <= 251 ==> (5 + p[2] as int) % 0x1_0000 == 5 + p[2] as int;
    assert (s.session.expectedWords - s.session.processedWords) % 0x1_0000_0000 ==
           s.session.expectedWords - s.session.processedWords;
  }

  /** The block follows those accepted so far and fits what was declared. */
  predicate IsNext(t: ServiceRuns.Tracked, b: Block) {
    && 0 < |b.data| <= t.service.maxDataWords && |b.data| % 8 == 0
    && b.index == |t.blocks| < t.service.session.expectedPackets
    && |WordsOf(t.blocks)| + |b.data| <= t.service.session.expectedWords
  }

  /** An aligned range of the App area within one sector, which Flash holds already when
      it is to be verified. */
  predicate FlashTakes(flash: Flash, kind: SessionKind, address: U32, data: seq<Word>) {
    && 0x08_2400 <= address && address + |data| <= 0x0C_0000 && InOneSector(address, |data|)
    && address % 8 == 0 && |data| % 8 == 0
    && (kind == VerifySession ==> AppMatches(flash, address, data))
  }

  /** On a working port, after every run, PROGRAM_DATA answers OK exactly for the block
      that follows those accepted so far, within the declared counts, aligned and in one
      sector; VERIFY_DATA only if Flash also holds its words at an aligned address. What
      is refused ends the session and leaves Flash alone. */
  lemma DataExactly(app: AppArea, run: seq<ServiceRuns.Event>, kind: SessionKind, p: Payload, port: Port)
    requires Works(port) && |p| >= 5 && !kind.NoSession?
    ensures var t := ServiceRuns.After(app, run);
      t.service.session.kind == kind ==>
        && (Data(t.service, t.flash, kind, p, port).status == OK <==>
              && |p| == 5 + p[2] as int
              && IsNext(t, ServiceRuns.BlockOf(p))
              && FlashTakes(t.flash, kind, Join(p[0], p[1]), p[5..]))
        && (Data(t.service, t.flash, kind, p, port).status != OK ==>
              && Data(t.service, t.flash, kind, p, port).flash == t.flash
              && Data(t.service, t.flash, kind, p, port).service == t.service.(session := IDLE))
  {
    hide ServiceRuns.After, StoreApp, SectorOf, AppMatches, Advance, WordsOf, InOrder;
    var t := ServiceRuns.After(app, run);
    ServiceRuns.RunsKeepSession(app, run);
    if t.service.session.kind == kind {
      DataChecks(t.service, t.flash, kind, p, port);
      AllowedMeans(Join(p[0], p[1]), |p| - 5, true);
    }
    assert p[2] <= 251 ==> (5 + p[2] as int) % 0x1_0000 == 5 + p[2] as int;
  }

  // ---------------------------------------------------------------- journal appends

  /** The three appends leave Flash as it is whenever they refuse. */
  lemma RefusedAppendKeepsFlash(s: Service, flash: Flash, p: Payload, port: Port)
    ensures var o := AppendRecord(s, flash, p, port);
      o.status != OK && o.status != METADATA_WRITE_FAILED ==> o.flash == flash && o.service == s
  {
    hide Commit, Summarise;
    if |p| == 16 && p[0] == BOOT_ATTEMPT {
      RefusedCommitKeepsFlash(s, flash, AttemptAppend, AdmitAttempt(Summarise(flash.journal), RequestIdentity(p)), port);
    } else if |p| == 16 && p[0] == APP_CONFIRMED {
      var a := AdmitConfirm(Summarise(flash.journal), Some(RequestIdentity(p)));
      RefusedCommitKeepsFlash(s, flash, ConfirmAppend, a, port);
    } else if ImagePayloadStatus(s, p) == OK {
      RefusedCommitKeepsFlash(s, flash, ImageAppend, AdmitImage(Summarise(flash.journal), RequestedImage(s, p)), port);
    }
  }

  lemma RefusedCommitKeepsFlash(s: Service, flash: Flash, kind: AppendKind, a: Admission, port: Port)
    ensures var o := Commit(s, flash, kind, a, port);
      o.status != OK && o.status != METADATA_WRITE_FAILED ==> o.flash == flash && o.service == s
  {
    hide Summarise, PassesRescan, Perform;
  }

  predicate HasFreeSlot(j: Slots) {
    FirstBlank(Readings(j)).Some?
  }

  /** How a completed BOOT_ATTEMPT append changes the summary. */
  function AfterAttempt(b: BootView): BootView
    requires b.latestSequence < LAST_SEQUENCE
  {
    b.(attemptCount := b.attemptCount + 1, latestSequence := b.latestSequence + 1, latestRecordType := BOOT_ATTEMPT)
  }

  function AfterConfirm(b: BootView): BootView
    requires b.latestSequence < LAST_SEQUENCE
  {
    b.(appConfirmed := true, appConfirmedSequence := b.latestSequence + 1,
       latestSequence := b.latestSequence + 1, latestRecordType := APP_CONFIRMED)
  }

  /** A completed bound append moves exactly these fields of the summary. */
  lemma BoundAppendMoves(j: Slots, kind: Word, attemptCount: Word)
    requires kind == BOOT_ATTEMPT || kind == APP_CONFIRMED
    requires Summarise(j).boot.metadataValid && HasFreeSlot(j) && Summarise(j).boot.latestSequence < LAST_SEQUENCE
    ensures var b := Summarise(j).boot;
      var e := BoundEntry(kind, b.latestSequence + 1, b);
      Summarise(Perform(j, Write(e, attemptCount, FirstBlank(Readings(j)).value), RECORD_WORDS)).boot ==
        if kind == BOOT_ATTEMPT then AfterAttempt(b) else AfterConfirm(b)
  {
    var image, e := BoundRescan(j, kind);
    CompletedAppend(j, e, attemptCount, FirstBlank(Readings(j)).value);
    var image' := ViewImage(Entries(Readings(j)));
  }

  /** What the summary of a reachable journal offers to an append. */
  lemma SummaryOffers(j: Slots)
    requires JR.Invariant(Readings(j))
    ensures var s := Summarise(j);
      && !s.state.DuplicateSequence? && s.boot.latestSequence < LAST_SEQUENCE
      && (s.boot.metadataValid ==> s.boot.hasImageValid)
      && (s.slots.nextIndex != INVALID_INDEX <==> HasFreeSlot(j))
      && (HasFreeSlot(j) ==> s.slots.nextIndex < RECORD_COUNT)
  {
    JR.SummaryOfInvariant(j);
    PlaceAccepts(j, ImageEntry(0, ImageRequest(Identity(0, 0, 0), 0, 0, 0, 0, 0, 0, 0)), 0);
  }

  lemma PlaceWrites(entry: Entry, attemptCount: Word, nextIndex: Word)
    requires nextIndex == INVALID_INDEX || nextIndex < RECORD_COUNT
    ensures Place(entry, attemptCount, nextIndex).Write? <==> nextIndex != INVALID_INDEX
    ensures !Place(entry, attemptCount, nextIndex).AlreadyDone?
  {
  }

  /** BOOT_ATTEMPT, in any state a device can reach, on a working port: accepted exactly
      for the trusted image that is confirmed already, or has attempts left and a free
      slot; then exactly one attempt is counted. */
  lemma AttemptExactly(j: Slots, id: Identity)
    requires JR.Invariant(Readings(j))
    ensures var b, a := Summarise(j).boot, AdmitAttempt(Summarise(j), id);
      && (!a.Refused? <==>
            b.metadataValid &&
            (b.appConfirmed || (b.attemptCount < b.attemptLimit && id == IdentityOf(b) && HasFreeSlot(j))))
      && (a.AlreadyDone? ==> b.appConfirmed)
      && (a.Write? ==> b.latestSequence < LAST_SEQUENCE &&
                       Summarise(Perform(j, a, RECORD_WORDS)).boot == AfterAttempt(b))
  {
    hide Summarise, Perform, JR.Invariant, HasFreeSlot, Place;
    SummaryOffers(j);
    var s, a := Summarise(j), AdmitAttempt(Summarise(j), id);
    PlaceWrites(BoundEntry(BOOT_ATTEMPT, Increment(s.boot.latestSequence), s.boot),
                (s.boot.attemptCount + 1) % 0x1_0000, s.slots.nextIndex);
    if a.Write? {
      AttemptMoves(j, id);
    }
  }

  lemma AttemptMoves(j: Slots, id: Identity)
    requires AdmitAttempt(Summarise(j), id).Write? && Summarise(j).boot.latestSequence < LAST_SEQUENCE
    ensures Summarise(Perform(j, AdmitAttempt(Summarise(j), id), RECORD_WORDS)).boot == AfterAttempt(Summarise(j).boot)
  {
    hide Summarise, Perform, AfterAttempt;
    AdmittedAttempt(j, id);
    BoundAppendMoves(j, BOOT_ATTEMPT, Summarise(j).boot.attemptCount + 1);
  }

  /** APP_CONFIRMED, stated identity or not: accepted exactly for the trusted image after
      an attempt; then exactly the confirmation is recorded. */
  lemma ConfirmExactly(j: Slots, expected: Option<Identity>)
    requires JR.Invariant(Readings(j))
    ensures var b, a := Summarise(j).boot, AdmitConfirm(Summarise(j), expected);
      && (!a.Refused? <==>
            && b.metadataValid && b.attemptCount > 0
            && (expected.Some? ==> expected.value == IdentityOf(b))
            && (b.appConfirmed || HasFreeSlot(j)))
      && (a.AlreadyDone? ==> b.appConfirmed)
      && (a.Write? ==> b.latestSequence < LAST_SEQUENCE &&
                       Summarise(Perform(j, a, RECORD_WORDS)).boot == AfterConfirm(b))
  {
    hide Summarise, Perform, JR.Invariant, HasFreeSlot, Place;
    SummaryOffers(j);
    var s, a := Summarise(j), AdmitConfirm(Summarise(j), expected);
    PlaceWrites(BoundEntry(APP_CONFIRMED, Increment(s.boot.latestSequence), s.boot),
                s.boot.attemptCount % 0x1_0000, s.slots.nextIndex);
    if a.Write? {
      ConfirmMoves(j, expected);
    }
  }

  lemma ConfirmMoves(j: Slots, expected: Option<Identity>)
    requires AdmitConfirm(Summarise(j), expected).Write? && Summarise(j).boot.latestSequence < LAST_SEQUENCE
    ensures Summarise(Perform(j, AdmitConfirm(Summarise(j), expected), RECORD_WORDS)).boot == AfterConfirm(Summarise(j).boot)
  {
    hide Summarise, Perform, AfterConfirm;
    AdmittedConfirm(j, expected);
    BoundAppendMoves(j, APP_CONFIRMED, Summarise(j).boot.attemptCount);
  }

  /** The image has words, an aligned entry point in the App area, and ends there. */
  predicate Plausible(r: ImageRequest) {
    && r.id.imageSizeWords > 0
    && APP_START <= r.id.entryPoint < APP_END && r.id.entryPoint % 8 == 0
    && APP_START < r.appEnd <= APP_END
  }

  /** IMAGE_VALID: accepted exactly for a plausible image when a slot is free. */
  lemma ImageExactly(j: Slots, r: ImageRequest)
    requires JR.Invariant(Readings(j))
    ensures var a := AdmitImage(Summarise(j), r);
      && (a.Write? <==> Plausible(r) && HasFreeSlot(j))
      && !a.AlreadyDone?
  {
    hide Summarise, Perform, JR.Invariant, HasFreeSlot, Place;
    SummaryOffers(j);
    var s := Summarise(j);
    PlaceWrites(ImageEntry(if s.slots.validCount == 0 then 1 else Increment(s.boot.latestSequence), r), 0,
                s.slots.nextIndex);
  }

  /** On the device the App's own confirmation after an attempt always lands: from then
      on the image boots by itself. */
  lemma ConfirmationMakesBootable(app: AppArea, run: seq<ServiceRuns.Event>, port: Port)
    requires port.initOk && port.callOk
    ensures var t := ServiceRuns.After(app, run);
      var b := Summarise(t.flash.journal).boot;
      var o := ConfirmJournal(t.service, t.flash, None, port);
      && (o.status == OK <==>
            t.service.initialized && b.metadataValid && b.attemptCount > 0 &&
            (b.appConfirmed || HasFreeSlot(t.flash.journal)))
      && (o.status == OK ==>
            Summarise(o.flash.journal).boot.metadataValid && Summarise(o.flash.journal).boot.appConfirmed)
  {
    var t := ServiceRuns.After(app, run);
    var j := t.flash.journal;
    ReachableInvariant(app, run);
    ConfirmExactly(j, None);
    ServiceJournal.ConfirmPassesRescan(app, run, None, port);
    ConfirmOutcome(t.service, t.flash, port);
  }

  lemma ConfirmOutcome(s: Service, flash: Flash, port: Port)
    requires port.initOk && port.callOk
    ensures var a := AdmitConfirm(Summarise(flash.journal), None);
      var o := ConfirmJournal(s, flash, None, port);
      && (!s.initialized ==> o.status == INVALID_STATE)
      && (s.initialized && a.Refused? ==> o.status == a.status && a.status != OK)
      && (s.initialized && a.AlreadyDone? ==> o.status == OK && o.flash == flash)
      && (s.initialized && a.Write? ==>
            && (o.status == OK || o.status == METADATA_WRITE_FAILED)
            && o.flash.journal == Perform(flash.journal, a, RECORD_WORDS))
  {
    hide Summarise, Perform, PassesRescan;
  }

  // ---------------------------------------------------------------- the append command as a whole

  /** The words a bound append must leave zero. */
  predicate NoExtraWords(p: Payload) {
    |p| == 16 && forall k :: 8 <= k <= 14 ==> p[k] == 0
  }

  predicate AttemptAllowed(j: Slots, id: Identity) {
    var b := Summarise(j).boot;
    b.metadataValid && (b.appConfirmed || (b.attemptCount < b.attemptLimit && id == IdentityOf(b) && HasFreeSlot(j)))
  }

  predicate ConfirmAllowed(j: Slots, id: Identity) {
    var b := Summarise(j).boot;
    b.metadataValid && b.attemptCount > 0 && id == IdentityOf(b) && (b.appConfirmed || HasFreeSlot(j))
  }

  /** What the journal and the verify flag must be for each kind of record. */
  predicate AppendAllowed(s: Service, j: Slots, p: Payload) {
    && |p| == 16 && p[1] == SLOT_A && p[15] == 0
    && ((p[0] == BOOT_ATTEMPT && NoExtraWords(p) && AttemptAllowed(j, RequestIdentity(p))) ||
        (p[0] == APP_CONFIRMED && NoExtraWords(p) && s.initialized && ConfirmAllowed(j, RequestIdentity(p))) ||
        (p[0] == IMAGE_VALID && Plausible(RequestedImage(s, p)) && s.verifySucceeded && HasFreeSlot(j)))
  }

  lemma BoundPayloadExactly(p: Payload)
    requires |p| == 16
    ensures BoundPayloadStatus(p) == OK <==> p[1] == SLOT_A && p[15] == 0 && NoExtraWords(p)
  {
  }

  lemma ImagePayloadExactly(s: Service, p: Payload)
    requires |p| == 16
    ensures ImagePayloadStatus(s, p) == OK <==>
            p[0] == IMAGE_VALID && p[1] == SLOT_A && p[15] == 0 && Plausible(RequestedImage(s, p)) && s.verifySucceeded
  {
  }

  lemma RefusalsAreErrors(s: Summary, r: ImageRequest, id: Identity, expected: Option<Identity>)
    ensures AdmitImage(s, r) != Refused(OK)
    ensures AdmitAttempt(s, id) != Refused(OK)
    ensures AdmitConfirm(s, expected) != Refused(OK)
  {
  }

  lemma CommitExactly(s: Service, flash: Flash, kind: AppendKind, a: Admission, port: Port)
    requires port.initOk && port.callOk && a != Refused(OK)
    requires Commit(s, flash, kind, a, port).status != METADATA_WRITE_FAILED
    ensures Commit(s, flash, kind, a, port).status == OK <==> !a.Refused?
  {
    hide Summarise, PassesRescan, Perform;
  }

  lemma AttemptCommandExactly(app: AppArea, run: seq<ServiceRuns.Event>, p: Payload, port: Port)
    requires port.initOk && port.callOk && |p| == 16 && p[0] == BOOT_ATTEMPT
    ensures var t := ServiceRuns.After(app, run);
      AppendRecord(t.service, t.flash, p, port).status == OK <==> AppendAllowed(t.service, t.flash.journal, p)
  {
    hide ServiceRuns.After, Summarise, Commit, AdmitAttempt, AdmitConfirm, HasFreeSlot, Plausible, JR.Invariant;
    var t, id := ServiceRuns.After(app, run), RequestIdentity(p);
    BoundPayloadExactly(p);
    ReachableInvariant(app, run);
    AttemptExactly(t.flash.journal, id);
    ServiceJournal.AttemptPassesRescan(app, run, id, port);
    RefusalsAreErrors(Summarise(t.flash.journal), RequestedImage(t.service, p), id, None);
    CommitExactly(t.service, t.flash, AttemptAppend, AdmitAttempt(Summarise(t.flash.journal), id), port);
  }

  lemma ConfirmCommandExactly(app: AppArea, run: seq<ServiceRuns.Event>, p: Payload, port: Port)
    requires port.initOk && port.callOk && |p| == 16 && p[0] == APP_CONFIRMED
    ensures var t := ServiceRuns.After(app, run);
      AppendRecord(t.service, t.flash, p, port).status == OK <==> AppendAllowed(t.service, t.flash.journal, p)
  {
    hide ServiceRuns.After, Summarise, Commit, AdmitAttempt, AdmitConfirm, HasFreeSlot, Plausible, JR.Invariant;
    var t, id := ServiceRuns.After(app, run), RequestIdentity(p);
    BoundPayloadExactly(p);
    ReachableInvariant(app, run);
    ConfirmExactly(t.flash.journal, Some(id));
    ServiceJournal.ConfirmPassesRescan(app, run, Some(id), port);
    RefusalsAreErrors(Summarise(t.flash.journal), RequestedImage(t.service, p), id, Some(id));
    if t.service.initialized {
      CommitExactly(t.service, t.flash, ConfirmAppend, AdmitConfirm(Summarise(t.flash.journal), Some(id)), port);
    }
  }

  lemma ImageCommandExactly(app: AppArea, run: seq<ServiceRuns.Event>, p: Payload, port: Port)
    requires port.initOk && port.callOk && |p| == 16 && p[0] != BOOT_ATTEMPT && p[0] != APP_CONFIRMED
    ensures var t := ServiceRuns.After(app, run);
      AppendRecord(t.service, t.flash, p, port).status == OK <==> AppendAllowed(t.service, t.flash.journal, p)
  {
    hide ServiceRuns.After, Summarise, Commit, AdmitImage, HasFreeSlot, Plausible, JR.Invariant;
    var t := ServiceRuns.After(app, run);
    var r := RequestedImage(t.service, p);
    ImagePayloadExactly(t.service, p);
    ReachableInvariant(app, run);
    ImageExactly(t.flash.journal, r);
    ServiceJournal.ImagePassesRescan(app, run, r, port);
    RefusalsAreErrors(Summarise(t.flash.journal), r, r.id, None);
    CommitExactly(t.service, t.flash, ImageAppend, AdmitImage(Summarise(t.flash.journal), r), port);
  }

  lemma ReachableInvariant(app: AppArea, run: seq<ServiceRuns.Event>)
    ensures JR.Invariant(Readings(ServiceRuns.After(app, run).flash.journal))
  {
    ServiceJournal.ServiceRunIsJournalRun(app, run);
    JR.RunKeepsInvariant(ServiceJournal.JournalRun(app, run));
  }

  /** METADATA_APPEND_RECORD on the device, on a working port, answers OK exactly when the
      payload is well formed and the journal allows that kind of record. */
  lemma AppendCommandExactly(app: AppArea, run: seq<ServiceRuns.Event>, p: Payload, port: Port)
    requires port.initOk && port.callOk
    ensures var t := ServiceRuns.After(app, run);
      AppendRecord(t.service, t.flash, p, port).status == OK <==> AppendAllowed(t.service, t.flash.journal, p)
  {
    hide ServiceRuns.After, Summarise, Commit, AttemptAllowed, ConfirmAllowed, HasFreeSlot, Plausible;
    if |p| == 16 && p[0] == BOOT_ATTEMPT {
      AttemptCommandExactly(app, run, p, port);
    } else if |p| == 16 && p[0] == APP_CONFIRMED {
      ConfirmCommandExactly(app, run, p, port);
    } else if |p| == 16 {
      ImageCommandExactly(app, run, p, port);
    }
  }
}
