/** Runs of the device that end with the verify flag set over Flash that no longer holds
    what was verified, and an image that is published from there. */
module StaleFlag {
  import opened Words
  import opened Protocol
  import opened Record
  import opened Scan
  import opened Journal
  import opened Blocks
  import opened FlashPort
  import opened ServiceSpec
  import opened ServiceRuns
  import ServiceAnswers

  // ---------------------------------------------------------------- when a failed call leaves the flag true

  /** An ERASE that reaches the port and fails there. */
  predicate EraseFails(s: Service, r: Request, port: Port) {
    && s.initialized && s.verifySucceeded && FlashReady(s, port)
    && r.command == CMD_ERASE && |r.payload| == 3 && r.payload[2] == 0
    && Join(r.payload[0], r.payload[1]) != 0 && MaskAllowed(Join(r.payload[0], r.payload[1]))
    && port.stop < SECTOR_COUNT
  }

  /** A PROGRAM_DATA whose port call fails. */
  predicate ProgramFails(s: Service, r: Request, port: Port) {
    && s.initialized && s.verifySucceeded && r.command == CMD_PROGRAM_DATA
    && DataStatus(s, ProgramSession, r.payload) == OK && !port.callOk
  }

  /** The words of a block, one by one. */
  lemma MatchesMeans(flash: Flash, address: int, data: seq<Word>)
    requires APP_START <= address && address + |data| <= APP_END
    ensures AppMatches(flash, address, data) <==>
            forall k :: 0 <= k < |data| ==> AppWord(flash, address + k) == data[k]
  {
    var at := address - APP_START;
    var slice := flash.app[at..at + |data|];
    assert forall k :: 0 <= k < |data| ==> slice[k] == AppWord(flash, address + k);
    if forall k :: 0 <= k < |data| ==> AppWord(flash, address + k) == data[k] {
      assert slice == data;
    }
  }

  /** Every word that the partial erase reached was verified as erased. */
  ghost predicate Spared(bs: seq<Block>, mask: U32, stop: nat) {
    forall b, k :: b in bs && 0 <= k < |b.data| ==>
      (ErasedAt(mask, stop, b.address + k) ==> b.data[k] == ERASED_WORD)
  }

  lemma ErasedWord(flash: Flash, mask: U32, stop: nat, a: int)
    requires APP_START <= a < APP_END
    ensures AppWord(EraseSectors(flash, mask, stop), a) ==
            if ErasedAt(mask, stop, a) then ERASED_WORD else AppWord(flash, a)
  {
    assert EraseSectors(flash, mask, stop).app[a - APP_START] == WordAfterErase(flash, mask, stop, a - APP_START);
  }

  lemma BlockSpared(flash: Flash, b: Block, mask: U32, stop: nat)
    requires APP_START <= b.address && b.address + |b.data| <= APP_END && AppMatches(flash, b.address, b.data)
    ensures AppMatches(EraseSectors(flash, mask, stop), b.address, b.data) <==> Spared([b], mask, stop)
  {
    hide ErasedAt, AppWord, EraseSectors, AppMatches;
    var erased := EraseSectors(flash, mask, stop);
    MatchesMeans(flash, b.address, b.data);
    MatchesMeans(erased, b.address, b.data);
    forall k | 0 <= k < |b.data|
      ensures AppWord(erased, b.address + k) ==
              if ErasedAt(mask, stop, b.address + k) then ERASED_WORD else b.data[k]
    {
      ErasedWord(flash, mask, stop, b.address + k);
    }
    assert b in [b];
  }

  lemma MatchingSpared(flash: Flash, bs: seq<Block>, mask: U32, stop: nat)
    requires Matching(bs, flash)
    ensures Matching(bs, EraseSectors(flash, mask, stop)) <==> Spared(bs, mask, stop)
  {
    hide ErasedAt, EraseSectors, AppMatches;
    forall b | b in bs
      ensures AppMatches(EraseSectors(flash, mask, stop), b.address, b.data) <==> Spared([b], mask, stop)
    {
      BlockSpared(flash, b, mask, stop);
    }
    assert Spared(bs, mask, stop) <==> forall b :: b in bs ==> Spared([b], mask, stop);
  }

  /** A failing ERASE keeps the flag set; in any state it stays true exactly when every
      verified word that was erased on the way had been verified as erased. */
  lemma FailedEraseExactly(t: Tracked, r: Request, port: Port)
    requires Coherent(t) && EraseFails(t.service, r, port)
    ensures var mask := Join(r.payload[0], r.payload[1]);
      Coherent(StepCommand(t, r, port)) <==>
        && Spared(t.verified, mask, port.stop)
        && (t.service.session.kind.VerifySession? ==> Spared(t.blocks, mask, port.stop))
  {
    hide EraseSectors, Matching, Spared;
    var mask := Join(r.payload[0], r.payload[1]);
    MatchingSpared(t.flash, t.verified, mask, port.stop);
    if t.service.session.kind.VerifySession? {
      MatchingSpared(t.flash, t.blocks, mask, port.stop);
    }
  }

  /** Every word that the interrupted call stored is the one that was verified there. */
  ghost predicate Repeats(bs: seq<Block>, address: int, stored: seq<Word>) {
    forall b, k :: b in bs && 0 <= k < |b.data| ==>
      (address <= b.address + k < address + |stored| ==> b.data[k] == stored[b.address + k - address])
  }

  lemma BlockRepeats(flash: Flash, b: Block, address: int, data: seq<Word>, stored: nat)
    requires APP_START <= b.address && b.address + |b.data| <= APP_END && AppMatches(flash, b.address, b.data)
    requires APP_START <= address && address + |data| <= APP_END && stored <= |data|
    ensures AppMatches(StoreApp(flash, address, data, stored), b.address, b.data) <==>
            Repeats([b], address, data[..stored])
  {
    hide AppMatches;
    var after := StoreApp(flash, address, data, stored);
    MatchesMeans(flash, b.address, b.data);
    MatchesMeans(after, b.address, b.data);
    forall k | 0 <= k < |b.data|
      ensures AppWord(after, b.address + k) ==
              if address <= b.address + k < address + stored then data[..stored][b.address + k - address] else b.data[k]
    {
    }
    assert b in [b];
  }

  lemma MatchingRepeats(flash: Flash, bs: seq<Block>, address: int, data: seq<Word>, stored: nat)
    requires Matching(bs, flash) && APP_START <= address && address + |data| <= APP_END && stored <= |data|
    ensures Matching(bs, StoreApp(flash, address, data, stored)) <==> Repeats(bs, address, data[..stored])
  {
    hide StoreApp, AppMatches;
    forall b | b in bs
      ensures AppMatches(StoreApp(flash, address, data, stored), b.address, b.data) <==>
              Repeats([b], address, data[..stored])
    {
      BlockRepeats(flash, b, address, data, stored);
    }
    assert Repeats(bs, address, data[..stored]) <==> forall b :: b in bs ==> Repeats([b], address, data[..stored]);
  }

  /** How many words a failing program call of this data command stores. */
  function StoredWords(p: Payload, port: Port): nat
    requires |p| >= 5
  {
    if port.stored < |p| - 5 then port.stored else |p| - 5
  }

  /** The same for PROGRAM_DATA: exactly when what it stored is what was verified. */
  lemma FailedProgramExactly(t: Tracked, r: Request, port: Port)
    requires Coherent(t) && ProgramFails(t.service, r, port)
    ensures var p := r.payload;
      Coherent(StepCommand(t, r, port)) <==>
        Repeats(t.verified, Join(p[0], p[1]), p[5..][..StoredWords(p, port)])
  {
    hide StoreApp, Matching, Repeats;
    var p := r.payload;
    MatchingRepeats(t.flash, t.verified, Join(p[0], p[1]), p[5..], StoredWords(p, port));
  }

  // ---------------------------------------------------------------- runs that reach a stale flag

  const WORKING := Port(true, true, 0, SECTOR_COUNT)

  /** The erase stops between sectors B and C. */
  const ERASE_STOPS := Port(true, false, 0, 2)

  /** The program call stops behind its first word. */
  const PROGRAM_STOPS := Port(true, false, 1, SECTOR_COUNT)

  function BeginOne(): Payload {
    [TARGET_FLASH_APP, 1, 8, 0, 0x2400, 8, 0, 0, 0]
  }

  /** Eight words for the start of the App area. */
  function DataOf(word: Word): Payload {
    [0x2400, 8, 8, 0, 0] + seq(8, _ => word)
  }

  function EndOne(): Payload {
    [1, 0, 8, 0, 0, 0]
  }

  function SectorsBC(): Payload {
    [6, 0, 0]
  }

  /** An image of eight words at the start of the App area. */
  function ImageRecord(): Payload {
    [IMAGE_VALID, SLOT_A, 0x2400, 8, 8, 0, 0, 0, 0, 0, 0, 0, 0, 0x2408, 8, 0]
  }

  function Send(command: Word, payload: Payload): Event {
    Command(Request(command, payload), WORKING)
  }

  function StartVerify(): seq<Event> {
    [Boot(DEVICE_F28377D, CPU1, 248)] + [Send(CMD_VERIFY_BEGIN, BeginOne())]
  }

  function VerifyZeros(): seq<Event> {
    StartVerify() + [Send(CMD_VERIFY_DATA, DataOf(0))]
  }

  function Verify(): seq<Event> {
    VerifyZeros() + [Send(CMD_VERIFY_END, EndOne())]
  }

  function VerifyThenErase(): seq<Event> {
    Verify() + [Command(Request(CMD_ERASE, SectorsBC()), ERASE_STOPS)]
  }

  function StartProgram(): seq<Event> {
    Verify() + [Send(CMD_PROGRAM_BEGIN, BeginOne())]
  }

  function VerifyThenProgram(): seq<Event> {
    StartProgram() + [Command(Request(CMD_PROGRAM_DATA, DataOf(1)), PROGRAM_STOPS)]
  }

  function Zeros(n: nat): seq<Word> {
    seq(n, _ => 0)
  }

  function ZeroApp(): AppArea {
    Zeros(APP_WORDS)
  }

  function ZeroFlash(): Flash {
    Flash(ErasedJournal(), ZeroApp())
  }

  function VerifiedBlock(): Block {
    Block(0, APP_START, Zeros(8))
  }

  function Ready(): Service {
    Service(IDLE, true, true, false, DEVICE_F28377D, CPU1, 248)
  }

  function InSession(kind: SessionKind, processed: U32, words: U32): Session {
    Session(kind, TARGET_FLASH_APP, 1, processed, 8, words, processed, APP_START)
  }

  lemma AfterOne(app: AppArea, run: seq<Event>, ev: Event)
    ensures After(app, run + [ev]) == Step(After(app, run), ev)
  {
    assert (run + [ev])[..|run|] == run;
  }

  // ---------------------------------------------------------------- the verified device

  /** A session opens on a device that has initialised Flash, or can. */
  lemma Begins(s: Service, flash: Flash, kind: SessionKind)
    requires s.session == IDLE && !kind.NoSession?
    ensures Begin(s, flash, kind, BeginOne(), WORKING) ==
            Outcome(s.(flashInitialized := true, session := InSession(kind, 0, 0)), flash, OK)
  {
  }

  lemma BootStep(t: Tracked, maxDataWords: Word)
    requires maxDataWords > 0
    ensures Step(t, Boot(DEVICE_F28377D, CPU1, maxDataWords)) ==
            t.(service := DETACHED.(deviceId := DEVICE_F28377D, cpuId := CPU1, maxDataWords := maxDataWords,
                                    initialized := true))
  {
  }

  lemma VerifyBegins()
    ensures After(ZeroApp(), StartVerify()) ==
            Tracked(Ready().(session := InSession(VerifySession, 0, 0)), ZeroFlash(), [], [])
  {
    hide After, Step, ZeroApp, ErasedJournal, Begin, BeginOne, InSession;
    StartsEmpty(ZeroApp());
    AfterOne(ZeroApp(), [], Boot(DEVICE_F28377D, CPU1, 248));
    assert [] + [Boot(DEVICE_F28377D, CPU1, 248)] == [Boot(DEVICE_F28377D, CPU1, 248)];
    AfterOne(ZeroApp(), [Boot(DEVICE_F28377D, CPU1, 248)], Send(CMD_VERIFY_BEGIN, BeginOne()));
    var t := After(ZeroApp(), [Boot(DEVICE_F28377D, CPU1, 248)]);
    BootStep(After(ZeroApp(), []), 248);
    Begins(t.service, t.flash, VerifySession);
    BeginStep(t, VerifySession, BeginOne(), WORKING);
  }

  lemma StartsEmpty(app: AppArea)
    ensures After(app, []) == Tracked(DETACHED, Flash(ErasedJournal(), app), [], [])
  {
  }

  lemma FirstIndex(zero: Word)
    requires zero == 0
    ensures Join(zero, zero) == 0
  {
  }

  function DataCommand(kind: SessionKind): Word {
    if kind.ProgramSession? then CMD_PROGRAM_DATA else CMD_VERIFY_DATA
  }

  /** A data command of an initialised service, as a step. */
  lemma DataStep(t: Tracked, kind: SessionKind, p: Payload, port: Port)
    requires t.service.initialized && !kind.NoSession? && |p| >= 5
    ensures var o := Data(t.service, t.flash, kind, p, port);
      Step(t, Command(Request(DataCommand(kind), p), port)) ==
        Tracked(o.service, o.flash, if o.status == OK then t.blocks + [ServiceRuns.BlockOf(p)] else t.blocks, t.verified)
  {
    hide Data;
  }

  function BeginCommand(kind: SessionKind): Word {
    if kind.ProgramSession? then CMD_PROGRAM_BEGIN else CMD_VERIFY_BEGIN
  }

  /** A BEGIN that is accepted, as a step. */
  lemma BeginStep(t: Tracked, kind: SessionKind, p: Payload, port: Port)
    requires t.service.initialized && !kind.NoSession? && Begin(t.service, t.flash, kind, p, port).status == OK
    ensures var o := Begin(t.service, t.flash, kind, p, port);
      Step(t, Command(Request(BeginCommand(kind), p), port)) == Tracked(o.service, o.flash, [], t.verified)
  {
    hide Begin;
  }

  /** A VERIFY_END that is accepted, as a step. */
  lemma EndStep(t: Tracked, p: Payload, port: Port)
    requires t.service.initialized && End(t.service, t.flash, VerifySession, p).status == OK
    ensures var o := End(t.service, t.flash, VerifySession, p);
      Step(t, Command(Request(CMD_VERIFY_END, p), port)) == Tracked(o.service, o.flash, t.blocks, t.blocks)
  {
    hide End;
  }

  /** An ERASE, as a step. */
  lemma EraseStep(t: Tracked, p: Payload, port: Port)
    requires t.service.initialized
    ensures var o := Erase(t.service, t.flash, p, port);
      Step(t, Command(Request(CMD_ERASE, p), port)) == Tracked(o.service, o.flash, t.blocks, t.verified)
  {
    hide Erase;
  }

  lemma DataReads(word: Word)
    ensures var p := DataOf(word);
      && |p| == 13 && p[0] == 0x2400 && p[1] == 8 && p[2] == 8 && p[3] == 0 && p[4] == 0
      && p[5..] == seq(8, _ => word)
  {
    var head: seq<Word> := [0x2400, 8, 8, 0, 0];
    assert DataOf(word) == head + seq(8, _ => word);
    assert DataOf(word)[..5] == head;
  }

  lemma ZerosMatch()
    ensures AppMatches(ZeroFlash(), APP_START, Zeros(8))
  {
    assert ZeroApp()[0..8] == Zeros(8);
  }

  lemma VerifyData(s: Service)
    requires s.session == InSession(VerifySession, 0, 0) && s.maxDataWords == 248
    ensures Data(s, ZeroFlash(), VerifySession, DataOf(0), WORKING) ==
            Outcome(s.(session := InSession(VerifySession, 1, 8)), ZeroFlash(), OK)
    ensures ServiceRuns.BlockOf(DataOf(0)) == VerifiedBlock()
  {
    hide DataOf, AppMatches, ZeroFlash, AddressAllowed, Join;
    DataReads(0);
    ZerosMatch();
    assert DataOf(0)[5..] == Zeros(8);
    StartOfApp(0x2400, 8);
    FirstIndex(0);
  }

  lemma VerifyTakes()
    ensures After(ZeroApp(), VerifyZeros()) ==
            Tracked(Ready().(session := InSession(VerifySession, 1, 8)), ZeroFlash(), [VerifiedBlock()], [])
  {
    hide After, Step, ZeroApp, ZeroFlash, Data, DataOf, StartVerify, VerifiedBlock, InSession, ServiceRuns.BlockOf;
    VerifyBegins();
    AfterOne(ZeroApp(), StartVerify(), Send(CMD_VERIFY_DATA, DataOf(0)));
    var t := After(ZeroApp(), StartVerify());
    VerifyData(t.service);
    LongEnough(0);
    DataStep(t, VerifySession, DataOf(0), WORKING);
  }

  lemma LongEnough(word: Word)
    ensures |DataOf(word)| == 13
  {
  }

  lemma EndReads()
    ensures var p := EndOne();
      |p| == 6 && Join(p[0], p[1]) == 1 && Join(p[2], p[3]) == 8
  {
  }

  lemma Ends(s: Service, flash: Flash)
    requires s.session == InSession(VerifySession, 1, 8)
    ensures End(s, flash, VerifySession, EndOne()) == Outcome(s.(session := IDLE, verifySucceeded := true), flash, OK)
  {
    hide EndOne, Join;
    EndReads();
  }

  /** After the VERIFY session the flag is set, rightly. */
  lemma VerifySucceeds()
    ensures After(ZeroApp(), Verify()) ==
            Tracked(Ready().(verifySucceeded := true), ZeroFlash(), [VerifiedBlock()], [VerifiedBlock()])
  {
    hide After, Step, ZeroApp, ZeroFlash, End, EndOne, VerifyZeros, VerifiedBlock, InSession;
    VerifyTakes();
    AfterOne(ZeroApp(), VerifyZeros(), Send(CMD_VERIFY_END, EndOne()));
    var t := After(ZeroApp(), VerifyZeros());
    Ends(t.service, t.flash);
    EndStep(t, EndOne(), WORKING);
  }

  /** A first App word that is not zero contradicts the verified block. */
  lemma NotMatching(flash: Flash)
    requires AppWord(flash, APP_START) != 0
    ensures !Matching([VerifiedBlock()], flash)
  {
    var b := VerifiedBlock();
    assert flash.app[0..8][0] != b.data[0];
    assert b in [VerifiedBlock()];
  }

  // ---------------------------------------------------------------- a failing erase

  lemma SelectedSector()
    ensures Selected(6, 1) && Selected(6, 2) && SectorOf(APP_START) == 1
  {
  }

  lemma SectorsRead(mask: U32)
    requires mask == 6
    ensures var p := SectorsBC();
      |p| == 3 && p[2] == 0 && Join(p[0], p[1]) == mask && MaskAllowed(mask)
  {
  }

  lemma OnlySectorB(flash: Flash, mask: U32)
    requires mask == 6
    ensures EraseSectors(flash, mask, 2).journal == ErasedJournal()
    ensures AppWord(EraseSectors(flash, mask, 2), APP_START) == ERASED_WORD
  {
    hide Selected;
    SelectedSector();
    ErasedWord(flash, mask, 2, APP_START);
  }

  lemma EraseStops(s: Service, flash: Flash, mask: U32)
    requires s.flashInitialized && mask == 6
    ensures Erase(s, flash, SectorsBC(), ERASE_STOPS) == Outcome(s, EraseSectors(flash, mask, 2), ERASE_FAILED)
  {
    hide SectorsBC, EraseSectors, Join;
    SectorsRead(mask);
  }

  /** The flag survives an ERASE that stops behind the verified sector. */
  lemma EraseReachesStaleFlag()
    ensures var t := After(ZeroApp(), VerifyThenErase());
      && t.service == Ready().(verifySucceeded := true) && t.flash.journal == ErasedJournal()
      && t.verified == [VerifiedBlock()] && !Matching(t.verified, t.flash)
  {
    hide After, Step, ZeroApp, ZeroFlash, Erase, EraseSectors, SectorsBC, Verify, VerifiedBlock, Matching;
    VerifySucceeds();
    AfterOne(ZeroApp(), Verify(), Command(Request(CMD_ERASE, SectorsBC()), ERASE_STOPS));
    var t := After(ZeroApp(), Verify());
    EraseStops(t.service, t.flash, 6);
    OnlySectorB(t.flash, 6);
    EraseStep(t, SectorsBC(), ERASE_STOPS);
    NotMatching(EraseSectors(ZeroFlash(), 6, 2));
  }

  // ---------------------------------------------------------------- a failing program call

  lemma ProgramBegins()
    ensures After(ZeroApp(), StartProgram()) ==
            Tracked(Ready().(session := InSession(ProgramSession, 0, 0), verifySucceeded := true), ZeroFlash(),
                    [], [VerifiedBlock()])
  {
    hide After, Step, ZeroApp, ZeroFlash, Begin, BeginOne, Verify, VerifiedBlock, InSession;
    VerifySucceeds();
    AfterOne(ZeroApp(), Verify(), Send(CMD_PROGRAM_BEGIN, BeginOne()));
    var t := After(ZeroApp(), Verify());
    Begins(t.service, t.flash, ProgramSession);
    BeginStep(t, ProgramSession, BeginOne(), WORKING);
  }

  lemma ProgramStops(s: Service, flash: Flash)
    requires s.session == InSession(ProgramSession, 0, 0) && s.maxDataWords == 248
    ensures var o := Data(s, flash, ProgramSession, DataOf(1), PROGRAM_STOPS);
      && o.status == PROGRAM_FAILED && o.service == s.(session := IDLE)
      && o.flash.journal == flash.journal && AppWord(o.flash, APP_START) == 1
  {
    hide DataOf, AddressAllowed, Join;
    DataReads(1);
    StartOfApp(0x2400, 8);
    FirstIndex(0);
  }

  /** The flag survives a PROGRAM_DATA that stops behind its first word. */
  lemma ProgramReachesStaleFlag()
    ensures var t := After(ZeroApp(), VerifyThenProgram());
      && t.service == Ready().(verifySucceeded := true) && t.flash.journal == ErasedJournal()
      && t.verified == [VerifiedBlock()] && !Matching(t.verified, t.flash)
  {
    hide After, Step, ZeroApp, Data, DataOf, StartProgram, VerifiedBlock, InSession, Matching, ServiceRuns.BlockOf;
    ProgramBegins();
    AfterOne(ZeroApp(), StartProgram(), Command(Request(CMD_PROGRAM_DATA, DataOf(1)), PROGRAM_STOPS));
    var t := After(ZeroApp(), StartProgram());
    ProgramStops(t.service, t.flash);
    LongEnough(1);
    DataStep(t, ProgramSession, DataOf(1), PROGRAM_STOPS);
    NotMatching(Data(t.service, t.flash, ProgramSession, DataOf(1), PROGRAM_STOPS).flash);
  }

  // ---------------------------------------------------------------- publishing over stale Flash

  lemma ImageIsAllowed(s: Service)
    requires s.verifySucceeded
    ensures ServiceAnswers.AppendAllowed(s, ErasedJournal(), ImageRecord())
  {
    var rs := Readings(ErasedJournal());
    assert rs[0].Blank?;
  }

  /** From both runs IMAGE_VALID is accepted, although Flash no longer holds what was
      verified. */
  lemma StaleImagesArePublished(run: seq<Event>)
    requires run == VerifyThenErase() || run == VerifyThenProgram()
    ensures var t := After(ZeroApp(), run);
      !Matching(t.verified, t.flash) && AppendRecord(t.service, t.flash, ImageRecord(), WORKING).status == OK
  {
    hide After, Matching, AppendRecord, ServiceAnswers.AppendAllowed, ZeroApp, ImageRecord, VerifyThenErase,
         VerifyThenProgram;
    if run == VerifyThenErase() {
      EraseReachesStaleFlag();
    } else {
      ProgramReachesStaleFlag();
    }
    ImageIsAllowed(After(ZeroApp(), run).service);
    ServiceAnswers.AppendCommandExactly(ZeroApp(), run, ImageRecord(), WORKING);
  }
}
