/** A service that ends past the window, and a run in which it is attached, overwritten
    while published, and left active but unpublished by a refused attach. */
module PastWindow {
  import opened Words
  import opened Crc
  import opened Protocol
  import opened Firmware
  import opened ServiceImage
  import opened ServicePatch
  import opened Packets
  import opened RamMap
  import opened CoreSpec
  import CoreAnswers
  import opened CoreRuns
  import opened RamLoading
  import opened ImageLoading
  import opened ServiceAttach

  // ---------------------------------------------------------------- the service

  /** The smallest service, linked with an immutable range that ends past the window. */
  const LONG_SYMBOLS: ServiceSymbols := Symbols(HEADER_ADDRESS, PUBLISH_ADDRESS, RUNTIME_ADDRESS, EXPORT_ADDRESS,
    EXPORT_ADDRESS, 0x01_6008, 0x01_3084, 0x01_3086, 0x01_3088)

  function LongImage(): FirmwareImage {
    var block: FirmwareBlock := BlockData(HEADER_ADDRESS, SmallWords());
    ImageData(0x01_3084, [block])
  }

  lemma LongExport()
    ensures |SmallWords()| == 0x90 && ExportsConfirm(LongImage(), LONG_SYMBOLS)
  {
    var block := LongImage().blocks[0];
    LookupOne(block, EXPORT_ADDRESS);
    LookupOne(block, EXPORT_ADDRESS + 1);
  }

  lemma LongCanPatch()
    ensures CanPatch(LongImage(), LONG_SYMBOLS) && AtLayout(LONG_SYMBOLS)
  {
    hide SmallWords;
    LongExport();
    var block := LongImage().blocks[0];
    assert block in LongImage().blocks;
    assert InOneBlock(LongImage().blocks, LONG_SYMBOLS.headerAddress, HEADER_WORDS);
  }

  lemma LongImageIsValid()
    ensures ValidRamImage(LongImage()) && EntryInSpan(LongImage())
  {
    hide SmallWords;
    LongExport();
    var block := LongImage().blocks[0];
    assert block in LongImage().blocks;
    assert Inside(REGIONS[3], block.address, Firmware.End(block));
    assert Inside(REGIONS[3], LongImage().entryPoint, LongImage().entryPoint + 1);
  }

  lemma LongServiceIsServiceable()
    ensures Serviceable(LongImage(), LONG_SYMBOLS, 0xF)
  {
    hide CanPatch, ValidRamImage, EntryInSpan, LongImage, PatchedService, ExportsConfirm;
    LongExport();
    LongCanPatch();
    LongImageIsValid();
    PatchingKeepsPremises(LongImage(), LONG_SYMBOLS, 0xF);
  }

  /** RAM that holds an image and zeros elsewhere. */
  function RamWith(image: FirmwareImage): Ram {
    seq<Word>(RAM_SIZE, a requires 0 <= a < RAM_SIZE => WordOr(Lookup(image.blocks, a), 0))
  }

  function WordOr(o: Option<Word>, word: Word): Word {
    if o.Some? then o.value else word
  }

  lemma RamHolds(image: FirmwareImage)
    requires ValidRamImage(image)
    ensures HoldsImage(RamWith(image), image)
  {
    hide ValidRamImage, Lookup;
    forall a | Lookup(image.blocks, a).Some? && !IsPublishWord(a)
      ensures 0 <= a < RAM_SIZE && RamWith(image)[a] == Lookup(image.blocks, a).value
    {
      CoveredIsRam(image, a);
    }
  }

  ghost function LongRam(): Ram
    requires true {
    RamWith(PatchedService(LongImage(), LONG_SYMBOLS, 0xF))
  }

  lemma LongRamIsValid()
    ensures ServiceValid(LongRam()) && ImmutableEnd(LongRam()) == 0x01_6008
  {
    hide PatchedService, ServiceHeader, RamWith, ServiceValid, Header, ValidRamImage, CanPatch, EntryInSpan, HoldsImage,
         LongImage, Crc32Of, DenseOf;
    LongServiceIsServiceable();
    RamHolds(PatchedService(LongImage(), LONG_SYMBOLS, 0xF));
    PatchedImageValidates(LongImage(), LONG_SYMBOLS, 0xF, LongRam());
    LongHeaderEnd();
  }

  lemma LongHeaderEnd()
    ensures Field(ServiceHeader(LongImage(), LONG_SYMBOLS, 0xF), 8) == 0x01_6008
  {
    hide DenseOf, Crc32Of, HeaderOf;
    HeaderFields(LONG_SYMBOLS, 0xF, Crc32Of(DenseOf(LongImage(), LONG_SYMBOLS)));
  }

  // ---------------------------------------------------------------- single commands

  lemma AfterOne(ram: Ram, init: Init, run: seq<Event>, ev: Event)
    ensures After(ram, init, run + [ev]) == Step(After(ram, init, run), ev)
  {
    assert (run + [ev])[..|run|] == run;
  }

  /** A load of two single words, from just below the window. */
  const BELOW: U32 := 0x01_2FF8

  function OpenLoad(): RamLoad {
    RamLoad(true, TARGET_RAM_APP, 2, 0, 2, 0, 0, BELOW, 0xFFFF_FFFF, 0, CRC32_INIT, false, false)
  }

  lemma BeginReads(packets: Word, words: U32, entry: U32, crc: U32)
    ensures var p := BeginRequest(packets, words, entry, crc);
      |p| == 9 && p[0] == TARGET_RAM_APP && p[1] == packets && Field(p, 2) == words && Field(p, 4) == entry
  {
    JoinSplit(words);
    JoinSplit(entry);
  }

  lemma EndReads(packets: U32, words: U32, crc: U32)
    ensures var p := EndRequest(packets, words, crc);
      |p| == 6 && Field(p, 0) == packets && Field(p, 2) == words
  {
    JoinSplit(packets);
    JoinSplit(words);
  }

  lemma CheckReads(crc: U32, words: U32)
    ensures var p := CheckRequest(crc, words);
      |p| == 5 && Field(p, 0) == crc && Field(p, 2) == words && p[4] == 0
  {
    JoinSplit(crc);
    JoinSplit(words);
  }

  lemma AttachReads(header: U32, crc: U32, words: U32)
    ensures var p := AttachRequest(header, crc, words);
      |p| == 7 && Field(p, 0) == header && Field(p, 2) == crc && Field(p, 4) == words && p[6] == 0
  {
    JoinSplit(header);
    JoinSplit(crc);
    JoinSplit(words);
  }

  lemma BeginsTwo(c: Core, ram: Ram)
    requires !c.load.active
    ensures LoadBegin(c, ram, BeginRequest(2, 2, BELOW, 0)) == Outcome(c.(load := OpenLoad()), ram, OK)
  {
    hide BeginRequest, Field;
    BeginReads(2, 2, BELOW, 0);
    WritableBelow(BELOW);
  }

  function OneWord(index: U32, address: U32, word: Word): Payload
    requires index < 0x1_0000
  {
    DataRequest(Packet(index, address, [word]))
  }

  lemma StoresOne(c: Core, ram: Ram, index: U32, address: U32, word: Word)
    requires index < 0x1_0000 && c.load.active && c.load.expectedBlock == index
    requires c.load.processedPackets < c.load.expectedPackets && c.load.processedWords < c.load.expectedWords
    requires IsInWriteRegion(address, 1) && !OverlapsWindow(address, 1)
    ensures LoadData(c, ram, OneWord(index, address, word)) ==
            Outcome(c.(load := AdvanceLoad(c.load, address, [word])), LoadWrite(ram, address, [word]), OK)
    ensures |OneWord(index, address, word)| == 6
  {
    hide DataRequest, IsInWriteRegion, OverlapsWindow, AdvanceLoad, LoadWrite, Join;
    var p := Packet(index, address, [word]);
    DataRequestReads(p);
    assert (c.load.expectedWords - c.load.processedWords) % 0x1_0000_0000 ==
           c.load.expectedWords - c.load.processedWords;
  }

  // ---------------------------------------------------------------- the run

  /** Initialisation succeeds and leaves zeros. */
  function Initialises(): Init {
    InitCall(OK, seq<Word>(RUNTIME_WORDS, _ => 0))
  }

  /** Attached and published, with no load in progress. */
  predicate InService(t: Tracked) {
    && t.core.load == NO_LOAD && t.core.service.active && Published(t.ram)
    && ServiceValid(t.ram) && ImmutableEnd(t.ram) == 0x01_6008
  }

  /** After a restart the service is attached and published. */
  lemma RestartAttaches()
    ensures InService(After(LongRam(), Initialises(), [Restart(Initialises())]))
  {
    hide LongRam, Validate, ServiceValid, Header, Published, Initialises;
    LongRamIsValid();
    var init, run := Initialises(), [Restart(Initialises())];
    InitialisesOk();
    ValidatePublishes(LongRam(), init);
    ValidateKeepsHeader(LongRam(), init);
    var first := Validate(LongRam(), init).0;
    ValidatePublishes(first, init);
    ValidateKeepsHeader(first, init);
    StartsValidated(LongRam(), init);
    AfterOne(LongRam(), init, [], Restart(init));
    assert [] + [Restart(init)] == run;
  }

  lemma InitialisesOk()
    ensures Initialises().status == OK
  {
  }

  lemma StartsValidated(ram: Ram, init: Init)
    ensures After(ram, init, []) == Tracked(Core(NO_LOAD, NO_SERVICE), Validate(ram, init).0, [])
  {
  }

  /** The load so far: the word below the window is stored. */
  predicate HalfLoaded(t: Tracked) {
    && t.core.service.active && Published(t.ram) && ServiceValid(t.ram) && ImmutableEnd(t.ram) == 0x01_6008
    && t.core.load == AdvanceLoad(OpenLoad(), BELOW, [0])
  }

  lemma FirstHalf(t: Tracked)
    requires InService(t)
    ensures HalfLoaded(Step(Step(t, Begin(BeginRequest(2, 2, BELOW, 0))), Data(OneWord(0, BELOW, 0))))
  {
    hide ServiceValid, ImmutableEnd, BeginRequest, OneWord, AdvanceLoad;
    BeginsTwo(t.core, t.ram);
    var begun := Step(t, Begin(BeginRequest(2, 2, BELOW, 0)));
    WritableBelow(BELOW);
    StoresOne(begun.core, begun.ram, 0, BELOW, 0);
    assert LoadWrite(t.ram, BELOW, [0]) == Store(t.ram, BELOW, [0]);
    ImmutableRange(t.ram);
    OutsideWriteKeepsValidity(t.ram, BELOW, [0], RAM_SIZE);
  }

  lemma WritableBelow(address: U32)
    requires address == BELOW || address == WINDOW_END
    ensures IsInWriteRegion(address, 1) && !OverlapsWindow(address, 1)
  {
  }

  /** Published over an immutable range that no longer passes its checks. */
  predicate Overwritten(t: Tracked, word: Word) {
    && t.core.service.active && Published(t.ram) && !ServiceValid(t.ram)
    && t.core.load == AdvanceLoad(AdvanceLoad(OpenLoad(), BELOW, [0]), WINDOW_END, [word])
  }

  lemma HalfCounts()
    ensures var load := AdvanceLoad(OpenLoad(), BELOW, [0]);
      && load.active && load.expectedBlock == 1
      && load.processedPackets < load.expectedPackets && load.processedWords < load.expectedWords
  {
    hide Crc32Fold;
  }

  lemma SecondHalf(t: Tracked, word: Word)
    requires HalfLoaded(t) && word == Different(t.ram[WINDOW_END])
    ensures Overwritten(Step(t, Data(OneWord(1, WINDOW_END, word))), word)
  {
    hide ServiceValid, ImmutableEnd, OneWord, LoadWrite, Published, AdvanceLoad;
    HalfCounts();
    WritableBelow(WINDOW_END);
    StoresOne(t.core, t.ram, 1, WINDOW_END, word);
    WritePastWindow(t.ram);
  }

  /** The CRC of the loaded words. */
  function LoadCrc(word: Word): U32 {
    Crc32Finalize(AdvanceLoad(AdvanceLoad(OpenLoad(), BELOW, [0]), WINDOW_END, [word]).crc32)
  }

  lemma LoadFinishes(c: Core, ram: Ram, word: Word)
    requires c.load == AdvanceLoad(AdvanceLoad(OpenLoad(), BELOW, [0]), WINDOW_END, [word])
    ensures var o := LoadEnd(c, ram, EndRequest(2, 2, 0));
      && o.status == OK && o.ram == ram && o.core.service == c.service
      && o.core.load.imageReady && !o.core.load.crcChecked
      && o.core.load.crc32 == LoadCrc(word) && o.core.load.expectedWords == 2
      && o.core.load.loadedStart == BELOW && o.core.load.loadedEnd == WINDOW_END + 1
  {
    hide Crc32Fold, Crc32Finalize, EndRequest, Field;
    EndReads(2, 2, 0);
  }

  lemma CheckPasses(c: Core, ram: Ram, word: Word)
    requires c.load.imageReady && c.load.crc32 == LoadCrc(word) && c.load.expectedWords == 2
    ensures CheckCrc(c, ram, CheckRequest(LoadCrc(word), 2)) ==
            Outcome(c.(load := c.load.(crcChecked := true)), ram, OK)
  {
    hide LoadCrc, CheckRequest, Field;
    CheckReads(LoadCrc(word), 2);
  }

  /** The finished load, before and after its CRC is checked. */
  predicate Finished(t: Tracked, word: Word, checked: bool) {
    && t.core.service.active && Published(t.ram) && !ServiceValid(t.ram)
    && t.core.load.imageReady && t.core.load.crcChecked == checked && t.core.load.expectedWords == 2
    && t.core.load.crc32 == LoadCrc(word)
    && t.core.load.loadedStart <= HEADER_ADDRESS && HEADER_ADDRESS + HEADER_RESERVED_WORDS <= t.core.load.loadedEnd
  }

  lemma LoadIsFinished(t: Tracked, word: Word)
    requires Overwritten(t, word)
    ensures Finished(Step(t, End(EndRequest(2, 2, 0))), word, false)
  {
    hide ServiceValid, Published, EndRequest, LoadCrc, LoadEnd, AdvanceLoad;
    LoadFinishes(t.core, t.ram, word);
  }

  lemma LoadIsChecked(t: Tracked, word: Word)
    requires Finished(t, word, false)
    ensures Finished(Step(t, Check(CheckRequest(LoadCrc(word), 2))), word, true)
  {
    hide ServiceValid, Published, CheckRequest, LoadCrc, CheckCrc;
    CheckPasses(t.core, t.ram, word);
  }

  lemma AttachIsAsked(load: RamLoad, word: Word)
    requires load.imageReady && load.crcChecked && load.expectedWords == 2 && load.crc32 == LoadCrc(word)
    requires load.loadedStart <= HEADER_ADDRESS && HEADER_ADDRESS + HEADER_RESERVED_WORDS <= load.loadedEnd
    ensures AttachStatus(load, AttachRequest(HEADER_ADDRESS, LoadCrc(word), 2)) == OK
  {
    hide LoadCrc, AttachRequest, Field;
    AttachReads(HEADER_ADDRESS, LoadCrc(word), 2);
  }

  lemma AttachIsRefused(t: Tracked, word: Word)
    requires Finished(t, word, true)
    ensures var last := Step(t, ServiceAttach(AttachRequest(HEADER_ADDRESS, LoadCrc(word), 2), Initialises()));
      last.core.service.active && !Published(last.ram)
  {
    hide ServiceValid, Published, LoadCrc, Attach, AttachRequest, AttachStatus;
    var p := AttachRequest(HEADER_ADDRESS, LoadCrc(word), 2);
    AttachIsAsked(t.core.load, word);
    CoreAnswers.AttachExactly(t.core, t.ram, p, Initialises());
    CoreAnswers.RefusedAttachUnpublishes(t.core, t.ram, p, Initialises());
  }

  /** From RAM that holds a long service: restart, load one word below and one word
      behind the window, check and re-attach. `word` differs from what was behind it. */
  function LongRun(word: Word): seq<Event> {
    [Restart(Initialises()), Begin(BeginRequest(2, 2, BELOW, 0)), Data(OneWord(0, BELOW, 0)),
     Data(OneWord(1, WINDOW_END, word)), End(EndRequest(2, 2, 0)), Check(CheckRequest(LoadCrc(word), 2)),
     ServiceAttach(AttachRequest(HEADER_ADDRESS, LoadCrc(word), 2), Initialises())]
  }

  /** The long service is valid and published, then published but invalid, and in the end
      active but unpublished: both exceptions are reached by commands alone. */
  lemma LongServiceGoesStale() returns (word: Word)
    ensures var attached := After(LongRam(), Initialises(), LongRun(word)[..3]);
      && attached.core.service.active && Published(attached.ram) && ServiceValid(attached.ram)
      && ImmutableEnd(attached.ram) > WINDOW_END
    ensures var stale := After(LongRam(), Initialises(), LongRun(word)[..4]);
      stale.core.service.active && Published(stale.ram) && !ServiceValid(stale.ram)
    ensures var refused := After(LongRam(), Initialises(), LongRun(word));
      refused.core.service.active && !Published(refused.ram)
  {
    hide LongRam, Initialises, ServiceValid, Published, ImmutableEnd, After, Step, BeginRequest, OneWord, EndRequest,
         CheckRequest, AttachRequest, LoadCrc;
    var ram, init := LongRam(), Initialises();
    RestartAttaches();
    var start := After(ram, init, [Restart(init)]);
    FirstHalf(start);
    var half := Step(Step(start, Begin(BeginRequest(2, 2, BELOW, 0))), Data(OneWord(0, BELOW, 0)));
    word := Different(half.ram[WINDOW_END]);
    SecondHalf(half, word);
    var stale := Step(half, Data(OneWord(1, WINDOW_END, word)));
    LoadIsFinished(stale, word);
    var finished := Step(stale, End(EndRequest(2, 2, 0)));
    LoadIsChecked(finished, word);
    var checked := Step(finished, Check(CheckRequest(LoadCrc(word), 2)));
    AttachIsRefused(checked, word);
    StepByStep(ram, init, word);
  }

  /** The states along the run. */
  lemma StepByStep(ram: Ram, init: Init, word: Word)
    requires init == Initialises()
    ensures var start := After(ram, init, [Restart(init)]);
      var half := Step(Step(start, Begin(BeginRequest(2, 2, BELOW, 0))), Data(OneWord(0, BELOW, 0)));
      var stale := Step(half, Data(OneWord(1, WINDOW_END, word)));
      var checked := Step(Step(stale, End(EndRequest(2, 2, 0))), Check(CheckRequest(LoadCrc(word), 2)));
      && After(ram, init, LongRun(word)[..3]) == half
      && After(ram, init, LongRun(word)[..4]) == stale
      && After(ram, init, LongRun(word)) ==
           Step(checked, ServiceAttach(AttachRequest(HEADER_ADDRESS, LoadCrc(word), 2), init))
  {
    hide After, Step, BeginRequest, OneWord, EndRequest, CheckRequest, AttachRequest, LoadCrc, Initialises;
    var run := LongRun(word);
    assert run[..1] == [Restart(init)];
    OneMore(ram, init, run, 1);
    OneMore(ram, init, run, 2);
    OneMore(ram, init, run, 3);
    OneMore(ram, init, run, 4);
    OneMore(ram, init, run, 5);
    OneMore(ram, init, run, 6);
    assert run[..7] == run;
  }

  lemma OneMore(ram: Ram, init: Init, run: seq<Event>, k: nat)
    requires k < |run|
    ensures After(ram, init, run[..k + 1]) == Step(After(ram, init, run[..k]), run[k])
  {
    hide Step;
    AfterOne(ram, init, run[..k], run[k]);
    assert run[..k] + [run[k]] == run[..k + 1];
  }
}
