/** The service commands in numbers: which answer belongs to which request and state. */
module ServiceTable {
  import opened Words
  import opened Protocol
  import opened Blocks
  import opened Record
  import opened Scan
  import opened Crash
  import opened Journal
  import opened Rescan
  import JR = JournalRuns
  import opened FlashPort
  import opened SectorMap
  import opened ServiceSpec
  import ServiceRuns
  import ServiceAnswers

  /** Nothing is in progress. */
  predicate NoSessionOpen(s: Session) {
    && s.kind.NoSession? && s.target == 0 && s.entryPoint == 0
    && s.expectedPackets == 0 && s.processedPackets == 0 && s.expectedWords == 0 && s.processedWords == 0
    && s.expectedBlock == 0
  }

  /** Initialisation: exactly for this device and CPU with a packet size; anything else
      leaves a service that is not initialised. Sessions and flags start over. */
  lemma InitAnswers(deviceId: Word, cpuId: Word, maxDataWords: Word)
    ensures var (s, status) := BootInit(deviceId, cpuId, maxDataWords);
      && (status == 0x0803 <==> deviceId != 0x377D || cpuId != 1)
      && (status == 0x0304 <==> deviceId == 0x377D && cpuId == 1 && maxDataWords == 0)
      && (status == 0 <==> deviceId == 0x377D && cpuId == 1 && maxDataWords != 0)
      && NoSessionOpen(s.session) && !s.flashInitialized && !s.verifySucceeded
      && (s.initialized <==> status == 0)
      && s.deviceId == (if status == 0 then 0x377D else 0) && s.cpuId == (if status == 0 then 1 else 0)
      && s.maxDataWords == if status == 0 then maxDataWords else 0
  {
  }

  // ---------------------------------------------------------------- dispatch

  /** Each command code goes to its handler, once the service is initialised. */
  lemma Dispatch(s: Service, flash: Flash, r: Request, port: Port)
    ensures var o, p := HandleCommand(s, flash, r, port), r.payload;
      && (!s.initialized ==> o == Outcome(s, flash, 0x0203))
      && (s.initialized ==>
            && (r.command == 0x0201 ==> o == Erase(s, flash, p, port))
            && (r.command == 0x0210 ==> o == Begin(s, flash, ProgramSession, p, port))
            && (r.command == 0x0211 ==> o == Data(s, flash, ProgramSession, p, port))
            && (r.command == 0x0212 ==> o == End(s, flash, ProgramSession, p))
            && (r.command == 0x0220 ==> o == Begin(s, flash, VerifySession, p, port))
            && (r.command == 0x0221 ==> o == Data(s, flash, VerifySession, p, port))
            && (r.command == 0x0222 ==> o == End(s, flash, VerifySession, p))
            && (r.command == 0x0402 ==> o == AppendRecord(s, flash, p, port))
            && (r.command !in {0x0201, 0x0210, 0x0211, 0x0212, 0x0220, 0x0221, 0x0222, 0x0402} ==>
                  o == Outcome(s, flash, 0x0202)))
  {
    hide Erase, Begin, Data, End, AppendRecord;
  }

  // ---------------------------------------------------------------- erase

  /** ERASE: the answers; Flash is initialised before the mask is looked at, and a call
      that fails keeps session and verify flag. */
  lemma EraseAnswers(s: Service, flash: Flash, p: Payload, port: Port)
    ensures var o := Erase(s, flash, p, port);
      var asked := |p| == 3 && p[2] == 0 && (p[0] != 0 || p[1] != 0);
      var ready := s.flashInitialized || port.initOk;
      var legal := |p| == 3 && p[0] % 2 == 0 && Join(p[0], p[1]) < 0x4000;
      && (o.status == 0x0106 <==> |p| != 3)
      && (o.status == 0x0109 <==> |p| == 3 && p[2] != 0)
      && (o.status == 0x0301 <==>
            (|p| == 3 && p[2] == 0 && p[0] == 0 && p[1] == 0) || (asked && ready && !legal))
      && (o.status == 0x0401 <==> asked && (!ready || (legal && port.stop < 14)))
      && (o.status == 0 <==> asked && ready && legal && port.stop >= 14)
      && (o.status == 0 ==> NoSessionOpen(o.service.session) && !o.service.verifySucceeded)
      && (o.status != 0 ==> o.service.session == s.session && o.service.verifySucceeded == s.verifySucceeded)
      && o.service.flashInitialized == (s.flashInitialized || (asked && port.initOk))
      && o.service.initialized == s.initialized && o.service.maxDataWords == s.maxDataWords
      && o.service.deviceId == s.deviceId && o.service.cpuId == s.cpuId
  {
    hide EraseSectors, MaskAllowed, Join;
    if |p| == 3 {
      ServiceAnswers.MaskParity(p[0], p[1]);
      JoinIsZero(p[0], p[1]);
    }
  }

  /** What an erase that stops behind `stop` sectors leaves: the selected sectors before
      it are erased, the others are as they were. */
  lemma PartialErase(flash: Flash, mask: U32, stop: nat, a: int)
    requires 0x08_2400 <= a < 0x0C_0000
    ensures var after := EraseSectors(flash, mask, stop);
      && after.journal == (if mask / 2 % 2 == 1 && stop > 1 then ErasedJournal() else flash.journal)
      && AppWord(after, a) ==
           if exists i :: 0 <= i < 14 && i < stop && InSector(a, i) && Bit(mask, i) then 0xFFFF else AppWord(flash, a)
  {
    hide Selected, SectorOf, Bit;
    SectorMeans(a);
    SelectedMeans(mask, SectorOf(a));
    SelectedMeans(mask, 1);
    SectorBBit(mask);
    assert EraseSectors(flash, mask, stop).app[a - APP_START] == WordAfterErase(flash, mask, stop, a - APP_START);
  }

  lemma SectorBBit(mask: nat)
    ensures Bit(mask, 1) <==> mask / 2 % 2 == 1
  {
  }

  // ---------------------------------------------------------------- sessions

  /** PROGRAM_BEGIN and VERIFY_BEGIN: the answers, and the session that is opened. */
  lemma BeginAnswers(s: Service, flash: Flash, kind: SessionKind, p: Payload, port: Port)
    requires !kind.NoSession?
    ensures var o := Begin(s, flash, kind, p, port);
      var idle, nine := s.session.kind.NoSession?, |p| == 9;
      var counts := nine && p[1] != 0 && (p[2] != 0 || p[3] != 0);
      var ready := s.flashInitialized || port.initOk;
      && (o.status == 0x0204 <==> !idle)
      && (o.status == 0x0106 <==> idle && !nine)
      && (o.status == 0x0803 <==> idle && nine && p[0] != 1)
      && (o.status == 0x0304 <==> idle && nine && p[0] == 1 && !counts)
      && (o.status == (if kind.ProgramSession? then 0x0501 else 0x0601) <==>
            idle && nine && p[0] == 1 && counts && !ready)
      && (o.status == 0 <==> idle && nine && p[0] == 1 && counts && ready)
      && (o.status == 0 ==>
            && o.service.session.kind == kind && o.service.session.target == 1
            && o.service.session.expectedPackets == p[1] && o.service.session.expectedWords == Join(p[2], p[3])
            && o.service.session.entryPoint == Join(p[4], p[5])
            && o.service.session.processedPackets == 0 && o.service.session.processedWords == 0
            && o.service.session.expectedBlock == 0
            && o.service == s.(flashInitialized := true, session := o.service.session))
      && (o.status != 0 ==> o.service == s)
      && o.flash == flash
  {
  }

  /** An aligned range of the App area within one sector. */
  predicate Reachable(address: int, count: nat) {
    address % 8 == 0 && 0x08_2400 <= address && address + count <= 0x0C_0000 && InOneSector(address, count)
  }

  /** One more block of so many words stays within what was declared. */
  predicate Declared(session: Session, blocks: seq<Block>, count: nat) {
    |blocks| < session.expectedPackets && |WordsOf(blocks)| + count <= session.expectedWords
  }

  /** Which answer belongs to a data command that does not reach Flash, or reaches it. */
  predicate DataAnswer(t: ServiceRuns.Tracked, kind: SessionKind, p: Payload, status: Status)
    requires |p| >= 5
  {
    var session := t.service.session;
    var mine := session.kind == kind;
    var long := |p| == 5 + p[2] as int;
    var counted := p[2] != 0 && p[2] % 8 == 0 && p[2] <= t.service.maxDataWords;
    var next := Join(p[3], p[4]) == |t.blocks|;
    var declared := Declared(session, t.blocks, |p| - 5);
    && (status == 0x0205 <==> session.kind.NoSession?)
    && (status == 0x0203 <==> !session.kind.NoSession? && !mine)
    && (status == 0x0106 <==> mine && !long)
    && (status == 0x0304 <==> mine && long && !counted)
    && (status == 0x0207 <==> mine && long && counted && !next)
    && (status == 0x0208 <==> mine && long && counted && next && !declared)
    && (status == 0x0302 <==>
          mine && long && counted && next && declared && !Reachable(Join(p[0], p[1]), |p| - 5))
  }

  /** A refused data command: one without its session changes nothing, any other ends the
      session. */
  predicate DataRefusal(before: Service, after: Service, status: Status) {
    if status == 0x0205 || status == 0x0203 then after == before
    else after == before.(session := after.session) && NoSessionOpen(after.session)
  }

  /** PROGRAM_DATA and VERIFY_DATA after every run: the answers and what a refusal leaves. */
  lemma DataAnswers(app: AppArea, run: seq<ServiceRuns.Event>, kind: SessionKind, p: Payload, port: Port)
    requires |p| >= 5 && !kind.NoSession?
    ensures var t := ServiceRuns.After(app, run);
      var o := Data(t.service, t.flash, kind, p, port);
      DataAnswer(t, kind, p, o.status) && (o.status != 0 ==> DataRefusal(t.service, o.service, o.status))
  {
    hide ServiceRuns.After, FlashCall, AddressAllowed, InOneSector, Advance, WordsOf, InOrder, Join;
    var t := ServiceRuns.After(app, run);
    ServiceRuns.RunsKeepSession(app, run);
    if t.service.session.kind == kind {
      ServiceAnswers.DataChecks(t.service, t.flash, kind, p, port);
      AllowedMeans(Join(p[0], p[1]), |p| - 5, kind.ProgramSession?);
      if DataStatus(t.service, kind, p) == OK {
        FlashCallAnswers(t.flash, kind, Join(p[0], p[1]), p[5..], port);
      }
    }
    assert p[2] <= 251 ==> (5 + p[2] as int) % 0x1_0000 == 5 + p[2] as int;
  }

  lemma FlashCallAnswers(flash: Flash, kind: SessionKind, address: int, data: seq<Word>, port: Port)
    requires !kind.NoSession? && APP_START <= address && address + |data| <= APP_END
    ensures FlashCall(flash, kind, address, data, port).0.BadFlashAddress? <==>
            kind.VerifySession? && (address % 8 != 0 || |data| % 8 != 0)
  {
    hide AppMatches, StoreApp;
  }

  /** What a data command that reaches Flash leaves there, on any port: a program call that
      succeeds stores its words, one that fails a prefix; a verify call stores nothing. */
  lemma DataWrites(s: Service, flash: Flash, kind: SessionKind, p: Payload, port: Port, a: int)
    requires DataStatus(s, kind, p) == 0 && 0x08_2400 <= a < 0x0C_0000
    ensures var o, address := Data(s, flash, kind, p, port), Join(p[0], p[1]);
      var stored := if port.callOk || port.stored > |p| - 5 then |p| - 5 else port.stored;
      && o.flash.journal == flash.journal
      && AppWord(o.flash, a) ==
           (if kind.ProgramSession? && address <= a < address + stored then p[5 + (a - address)] else AppWord(flash, a))
      && (kind.ProgramSession? ==> (o.status == 0 <==> port.callOk) && (o.status == 0 || o.status == 0x0501))
      && (kind.VerifySession? ==>
            && (o.status == 0x0302 <==> p[0] % 8 != 0)
            && (o.status == 0 <==> p[0] % 8 == 0 && port.callOk && FlashHolds(flash, address, p[5..]))
            && (o.status == 0 || o.status == 0x0302 || o.status == 0x0601))
      && (o.status == 0 ==>
            && o.service.verifySucceeded == (s.verifySucceeded && kind.VerifySession?)
            && o.service.initialized == s.initialized && o.service.flashInitialized == s.flashInitialized
            && o.service.maxDataWords == s.maxDataWords)
  {
    hide SectorOf, AppMatches, Join, FlashHolds;
    AlignmentIsLow(p[0], p[1]);
    MatchMeans(flash, Join(p[0], p[1]), p[5..]);
  }

  predicate FlashHolds(flash: Flash, address: int, words: seq<Word>)
    requires 0x08_2400 <= address && address + |words| <= 0x0C_0000
  {
    forall k :: 0 <= k < |words| ==> AppWord(flash, address + k) == words[k]
  }

  lemma MatchMeans(flash: Flash, address: int, words: seq<Word>)
    requires 0x08_2400 <= address && address + |words| <= 0x0C_0000
    ensures AppMatches(flash, address, words) <==> FlashHolds(flash, address, words)
  {
    if FlashHolds(flash, address, words) {
      forall k | 0 <= k < |words|
        ensures flash.app[address - APP_START..address - APP_START + |words|][k] == words[k]
      {
        assert AppWord(flash, address + k) == words[k];
      }
    }
    if AppMatches(flash, address, words) {
      forall k | 0 <= k < |words|
        ensures AppWord(flash, address + k) == words[k]
      {
        assert flash.app[address - APP_START..address - APP_START + |words|][k] == words[k];
      }
    }
  }

  /** A data command without its five leading words ends its session. */
  lemma ShortDataAnswers(s: Service, flash: Flash, kind: SessionKind, p: Payload, port: Port)
    requires |p| < 5 && !kind.NoSession?
    ensures var o := Data(s, flash, kind, p, port);
      && o.status == (if s.session.kind.NoSession? then 0x0205 else if s.session.kind != kind then 0x0203 else 0x0106)
      && DataRefusal(s, o.service, o.status) && o.flash == flash
  {
  }

  /** PROGRAM_END and VERIFY_END: the answers; only a VERIFY_END that is accepted sets the
      flag, and every END that meets its session closes it. */
  lemma EndAnswers(s: Service, flash: Flash, kind: SessionKind, p: Payload)
    requires !kind.NoSession?
    ensures var o := End(s, flash, kind, p);
      && (o.status == 0x0205 <==> s.session.kind.NoSession?)
      && (o.status == 0x0206 <==> !s.session.kind.NoSession? && s.session.kind != kind)
      && (o.status == 0x0106 <==> s.session.kind == kind && |p| != 6)
      && (o.status == 0 || o.status == 0x0205 || o.status == 0x0206 || o.status == 0x0106 || o.status == 0x0208)
      && (o.status == 0x0205 || o.status == 0x0206 ==> o.service == s)
      && (s.session.kind == kind ==> NoSessionOpen(o.service.session))
      && o.service == s.(session := o.service.session,
                         verifySucceeded := s.verifySucceeded || (o.status == 0 && kind.VerifySession?))
      && o.flash == flash
  {
  }

  // ---------------------------------------------------------------- appends

  /** The answers of METADATA_APPEND_RECORD to the payload, before the journal is read. */
  lemma PayloadAnswers(s: Service, flash: Flash, p: Payload, port: Port)
    ensures var o := AppendRecord(s, flash, p, port);
      && (|p| != 16 ==> o == Outcome(s, flash, 0x0106))
      && (|p| == 16 && (!(1 <= p[0] <= 3) || p[1] != 1) ==> o == Outcome(s, flash, 0x0801))
      && (|p| == 16 && 1 <= p[0] <= 3 && p[1] == 1 && p[15] != 0 ==> o == Outcome(s, flash, 0x0109))
      && (|p| == 16 && 2 <= p[0] <= 3 && p[1] == 1 && p[15] == 0 &&
          (p[8] != 0 || p[9] != 0 || p[10] != 0 || p[11] != 0 || p[12] != 0 || p[13] != 0 || p[14] != 0) ==>
            o == Outcome(s, flash, 0x0106))
      && (|p| == 16 && p[0] == 1 && p[1] == 1 && p[15] == 0 && p[4] == 0 && p[5] == 0 ==>
            o == Outcome(s, flash, 0x0304))
      && (|p| == 16 && p[0] == 1 && p[1] == 1 && p[15] == 0 && (p[4] != 0 || p[5] != 0) &&
          !(0x08_2400 <= Join(p[2], p[3]) < 0x0C_0000 && p[2] % 8 == 0 &&
            0x08_2400 < Join(p[13], p[14]) <= 0x0C_0000) ==>
            o == Outcome(s, flash, 0x0301))
      && (|p| == 16 && p[0] == 1 && p[1] == 1 && p[15] == 0 && ImageStated(p) && !s.verifySucceeded ==>
            o == Outcome(s, flash, 0x0203))
  {
    hide Commit, Summarise, AdmitAttempt, AdmitConfirm, AdmitImage;
    if |p| == 16 {
      AlignmentIsLow(p[2], p[3]);
      JoinIsZero(p[4], p[5]);
    }
  }

  /** The image of the payload has words, an aligned App entry point, and ends in the App
      area. */
  predicate ImageStated(p: Payload) {
    && |p| == 16 && (p[4] != 0 || p[5] != 0)
    && 0x08_2400 <= Join(p[2], p[3]) < 0x0C_0000 && p[2] % 8 == 0
    && 0x08_2400 < Join(p[13], p[14]) <= 0x0C_0000
  }

  /** The refusals of the journal, after every run: without a trusted image nothing can be
      bound to one, the limit and the stated identity are checked, and a full journal
      takes nothing. */
  lemma JournalAnswers(j: Slots, r: ImageRequest, id: Identity, expected: Option<Identity>)
    requires JR.Invariant(Readings(j))
    ensures var b := Summarise(j).boot;
      var same := id.entryPoint == b.entryPoint && id.imageSizeWords == b.imageSizeWords &&
                  id.imageCrc32 == b.imageCrc32;
      var full := FirstBlank(Readings(j)).None?;
      && (AdmitAttempt(Summarise(j), id) == Refused(0x0804) <==>
            !b.metadataValid || (!b.appConfirmed && b.attemptCount < b.attemptLimit && !same))
      && (AdmitAttempt(Summarise(j), id) == Refused(0x0807) <==>
            b.metadataValid && !b.appConfirmed && b.attemptCount >= b.attemptLimit)
      && (AdmitAttempt(Summarise(j), id) == Refused(0x0805) <==>
            b.metadataValid && !b.appConfirmed && b.attemptCount < b.attemptLimit && same && full)
      && (AdmitAttempt(Summarise(j), id) == AlreadyDone <==> b.metadataValid && b.appConfirmed)
      && (AdmitConfirm(Summarise(j), Some(id)) == Refused(0x0804) <==>
            !b.metadataValid || !same || b.attemptCount == 0)
      && (AdmitConfirm(Summarise(j), None) == Refused(0x0804) <==> !b.metadataValid || b.attemptCount == 0)
      && (AdmitConfirm(Summarise(j), None) == Refused(0x0805) <==>
            b.metadataValid && b.attemptCount > 0 && !b.appConfirmed && full)
      && (AdmitConfirm(Summarise(j), None) == AlreadyDone <==>
            b.metadataValid && b.attemptCount > 0 && b.appConfirmed)
      && (ImageRequestStatus(r) == 0 ==> (AdmitImage(Summarise(j), r) == Refused(0x0805) <==> full))
  {
    hide Summarise, JR.Invariant, Place, FirstBlank;
    ServiceAnswers.SummaryOffers(j);
    var s := Summarise(j);
    PlaceAnswers(BoundEntry(BOOT_ATTEMPT, Increment(s.boot.latestSequence), s.boot),
                 (s.boot.attemptCount + 1) % 0x1_0000, s.slots.nextIndex);
    PlaceAnswers(BoundEntry(APP_CONFIRMED, Increment(s.boot.latestSequence), s.boot),
                 s.boot.attemptCount % 0x1_0000, s.slots.nextIndex);
    PlaceAnswers(ImageEntry(if s.slots.validCount == 0 then 1 else Increment(s.boot.latestSequence), r), 0,
                 s.slots.nextIndex);
  }

  /** Over any Flash: a journal in which two valid records share a number takes nothing. */
  lemma DuplicatesAreRefused(j: Slots, r: ImageRequest, id: Identity, expected: Option<Identity>)
    requires Summarise(j).state.DuplicateSequence?
    ensures AdmitAttempt(Summarise(j), id) == Refused(0x0804) && AdmitConfirm(Summarise(j), expected) == Refused(0x0804)
    ensures ImageRequestStatus(r) == 0 ==> AdmitImage(Summarise(j), r) == Refused(0x0804)
  {
    hide Summarise;
  }

  lemma PlaceAnswers(entry: Entry, attemptCount: Word, nextIndex: Word)
    requires nextIndex == INVALID_INDEX || nextIndex < RECORD_COUNT
    ensures Place(entry, attemptCount, nextIndex) ==
            if nextIndex == INVALID_INDEX then Refused(0x0805) else Write(entry, attemptCount, nextIndex)
  {
  }

  /** The scan behind a write shows what was written: the image itself, the new count, or
      the confirmation of the image that was there before. */
  predicate RescanShows(kind: AppendKind, entry: Entry, before: BootView, after: BootView) {
    && after.metadataValid
    && (kind.ImageAppend? ==>
          && after.imageValidSequence == entry.sequence && after.entryPoint == entry.entryPoint
          && after.imageCrc32 == entry.imageCrc32)
    && (kind.AttemptAppend? ==> after.attemptCount == (before.attemptCount + 1) % 0x1_0000)
    && (kind.ConfirmAppend? ==>
          && after.appConfirmed && after.imageValidSequence == before.imageValidSequence
          && after.entryPoint == before.entryPoint && after.imageSizeWords == before.imageSizeWords
          && after.imageCrc32 == before.imageCrc32)
  }

  lemma RescanMeans(kind: AppendKind, entry: Entry, before: Slots, after: Slots)
    ensures PassesRescan(kind, entry, Summarise(before), Summarise(after)) <==>
      RescanShows(kind, entry, Summarise(before).boot, Summarise(after).boot)
  {
    TrustedIsUnique(after);
    TrustedIsUnique(before);
    hide Summarise;
  }

  lemma TrustedIsUnique(j: Slots)
    ensures var s := Summarise(j);
      s.boot.metadataValid ==> !s.state.DuplicateSequence? && s.boot.hasImageValid
  {
  }

  /** What a commit does on any port: a refusal or an earlier success writes nothing; a
      write stores all 64 words or, when the call fails, a prefix, and answers OK exactly
      when the call succeeds and the scan behind it shows the record. */
  lemma CommitAnswers(s: Service, flash: Flash, kind: AppendKind, a: Admission, port: Port)
    ensures var o := Commit(s, flash, kind, a, port);
      var cut := if port.callOk || port.stored > 64 then 64 else port.stored;
      && (a.Refused? ==> o == Outcome(s, flash, a.status))
      && (a.AlreadyDone? ==> o == Outcome(s, flash, 0))
      && (a.Write? && !s.flashInitialized && !port.initOk ==> o == Outcome(s, flash, 0x0806))
      && (a.Write? && (s.flashInitialized || port.initOk) ==>
            && o.flash.app == flash.app && o.flash.journal == Perform(flash.journal, a, cut)
            && o.service == s.(flashInitialized := true, verifySucceeded := o.service.verifySucceeded)
            && o.service.verifySucceeded == (s.verifySucceeded && !(kind.ImageAppend? && o.status == 0))
            && (o.status == 0 || o.status == 0x0806)
            && (o.status == 0 <==>
                  port.callOk &&
                  RescanShows(kind, a.entry, Summarise(flash.journal).boot, Summarise(o.flash.journal).boot)))
  {
    hide Summarise, Perform, PassesRescan, RescanShows;
    if a.Write? {
      RescanMeans(kind, a.entry, flash.journal, Perform(flash.journal, a, Cut(port)));
    }
  }

  /** Sixteen slots of 64 words from 0x082000 on. */
  lemma RecordAddresses(nextIndex: Word)
    ensures MetadataRecordAddress(nextIndex) ==
            if nextIndex < 16 then Some(0x08_2000 + 64 * nextIndex as int) else None
  {
  }

  /** A record of which the first `cut` words were stored. */
  lemma PerformWrites(j: Slots, entry: Entry, attemptCount: Word, slot: nat, cut: nat, i: nat, k: nat)
    requires slot < 16 && cut <= 64 && i < 16 && k < 64
    ensures Perform(j, Write(entry, attemptCount, slot), cut)[i][k] ==
            if i != slot then j[i][k] else if k < cut then Encode(entry, attemptCount)[k] else 0xFFFF
  {
    hide Encode;
  }
}
