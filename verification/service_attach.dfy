/** The builder on the PC and the validator on the target agree: a patched service image
    loads, attaches and is published. */
module ServiceAttach {
  import opened Words
  import opened Crc
  import opened Protocol
  import opened Firmware
  import opened ServiceImage
  import opened ServicePatch
  import opened Packets
  import opened RamMap
  import opened CoreSpec
  import CoreRuns
  import ServiceSpec
  import opened RamLoading
  import opened ImageLoading

  // ---------------------------------------------------------------- premises

  /** The linker placed the service where the layout says. */
  predicate AtLayout(s: ServiceSymbols) {
    && s.headerAddress == HEADER_ADDRESS
    && s.publishStateAddress == PUBLISH_ADDRESS
    && s.runtimeStateAddress == RUNTIME_ADDRESS
    && s.appExportAddress == EXPORT_ADDRESS
    && s.immutableStart == EXPORT_ADDRESS
  }

  /** The export table holds the confirm function's address. */
  predicate ExportsConfirm(image: FirmwareImage, s: ServiceSymbols) {
    && Lookup(image.blocks, EXPORT_ADDRESS) == Some(Low(s.confirmCurrentImageAddress))
    && Lookup(image.blocks, EXPORT_ADDRESS + 1) == Some(High(s.confirmCurrentImageAddress))
  }

  /** A service image and its symbols that the PC patches and the target can hold. */
  ghost predicate Serviceable(image: FirmwareImage, s: ServiceSymbols, capabilities: U32) {
    && CanPatch(image, s) && AtLayout(s) && ExportsConfirm(image, s)
    && capabilities % CAPABILITIES == CAPABILITIES - 1
    && ValidRamImage(PatchedService(image, s, capabilities))
    && EntryInSpan(PatchedService(image, s, capabilities))
  }

  // ---------------------------------------------------------------- RAM after the load

  /** RAM holds the image, the publish words apart. */
  ghost predicate HoldsImage(ram: Ram, image: FirmwareImage) {
    forall a :: Lookup(image.blocks, a).Some? && !IsPublishWord(a) ==>
      0 <= a < RAM_SIZE && ram[a] == Lookup(image.blocks, a).value
  }

  lemma HeaderIsLoaded(image: FirmwareImage, s: ServiceSymbols, capabilities: U32, ram: Ram)
    requires CanPatch(image, s) && AtLayout(s) && HoldsImage(ram, PatchedService(image, s, capabilities))
    ensures Header(ram) == ServiceHeader(image, s, capabilities)
  {
    hide PatchedService, ServiceHeader, CanPatch;
    var header := ServiceHeader(image, s, capabilities);
    forall k | 0 <= k < HEADER_WORDS
      ensures Header(ram)[k] == header[k]
    {
      PatchedServiceMemory(image, s, capabilities, HEADER_ADDRESS + k);
    }
  }

  lemma ImmutableIsLoaded(image: FirmwareImage, s: ServiceSymbols, capabilities: U32, ram: Ram)
    requires CanPatch(image, s) && AtLayout(s) && HoldsImage(ram, PatchedService(image, s, capabilities))
    requires s.immutableEnd <= RAM_SIZE
    ensures ram[EXPORT_ADDRESS..s.immutableEnd] == DenseOf(image, s)
  {
    hide PatchedService, ServiceHeader;
    var dense := DenseOf(image, s);
    forall k | 0 <= k < |dense|
      ensures ram[EXPORT_ADDRESS..s.immutableEnd][k] == dense[k]
    {
      PatchedServiceMemory(image, s, capabilities, EXPORT_ADDRESS + k);
      DenseAt(image.blocks, s.immutableStart, s.immutableEnd, EXPORT_ADDRESS + k);
    }
  }

  lemma ExportIsLoaded(image: FirmwareImage, s: ServiceSymbols, capabilities: U32, ram: Ram)
    requires CanPatch(image, s) && AtLayout(s) && HoldsImage(ram, PatchedService(image, s, capabilities))
    requires ExportsConfirm(image, s)
    ensures Join(ram[EXPORT_ADDRESS], ram[EXPORT_ADDRESS + 1]) == s.confirmCurrentImageAddress
  {
    ExportWord(image, s, capabilities, ram, EXPORT_ADDRESS);
    ExportWord(image, s, capabilities, ram, EXPORT_ADDRESS + 1);
    JoinSplit(s.confirmCurrentImageAddress);
  }

  lemma ExportWord(image: FirmwareImage, s: ServiceSymbols, capabilities: U32, ram: Ram, a: U32)
    requires CanPatch(image, s) && AtLayout(s) && HoldsImage(ram, PatchedService(image, s, capabilities))
    requires EXPORT_ADDRESS <= a < EXPORT_ADDRESS + 2 && Lookup(image.blocks, a).Some?
    ensures a < RAM_SIZE && ram[a] == Lookup(image.blocks, a).value
  {
    hide PatchedService, ServiceHeader, CanPatch;
    PatchedServiceMemory(image, s, capabilities, a);
  }

  // ---------------------------------------------------------------- the validator's checks

  /** The immutable range stays one block, so it lies in one write region. */
  lemma ImmutableIsWritable(image: FirmwareImage, s: ServiceSymbols, capabilities: U32)
    requires CanPatch(image, s) && ValidRamImage(PatchedService(image, s, capabilities))
    ensures WritableRange(s.immutableStart, s.immutableEnd - s.immutableStart)
    ensures s.immutableEnd <= RAM_SIZE
    ensures exists b :: b in PatchedService(image, s, capabilities).blocks && Contains(b, DenseBlock(image, s))
  {
    hide Replaced, ValidRamImage, WritableRange, SortByAddress;
    var count := s.immutableEnd - s.immutableStart;
    ImmutableInOneBlock(image, s, capabilities);
    var b :| b in PatchedService(image, s, capabilities).blocks &&
             b.address <= s.immutableStart && s.immutableStart + count <= End(b);
    ValidIsWritable(PatchedService(image, s, capabilities));
    assert Writable(b);
    PartIsWritable(b.address, |b.words|, s.immutableStart - b.address, count);
    WritableInRam(s.immutableStart, count);
    assert Contains(b, DenseBlock(image, s));
  }

  lemma WritableInRam(start: int, count: int)
    requires WritableRange(start, count)
    ensures start + count <= RAM_SIZE
  {
    WriteRegionMeaning(start, count);
  }

  function DenseBlock(image: FirmwareImage, s: ServiceSymbols): FirmwareBlock {
    BlockData(s.immutableStart, DenseOf(image, s))
  }

  lemma ImmutableInOneBlock(image: FirmwareImage, s: ServiceSymbols, capabilities: U32)
    requires CanPatch(image, s)
    ensures InOneBlock(PatchedService(image, s, capabilities).blocks, s.immutableStart, s.immutableEnd - s.immutableStart)
  {
    hide Replaced, SortByAddress;
    var count := s.immutableEnd - s.immutableStart;
    TailsFitAfterReplace(image, s.immutableStart, DenseOf(image, s), s.publishStateAddress + 2);
    HeaderStaysPatchable(image, s);
    PatchIsOneBlock(image, s.immutableStart, DenseOf(image, s));
    ReplaceKeepsOneBlock(WithImmutable(image, s), s.publishStateAddress, PUBLISH_WORDS, s.immutableStart, count);
    ReplaceKeepsOneBlock(WithPublish(image, s), s.headerAddress, ServiceHeader(image, s, capabilities),
                         s.immutableStart, count);
  }

  lemma PatchIsOneBlock(image: FirmwareImage, address: U32, words: seq<Word>)
    requires CanReplace(image, address, words)
    ensures InOneBlock(Replaced(image, address, words).blocks, address, |words|)
  {
    var patched := Patched(image, address, words);
    var b: FirmwareBlock := BlockData(address, words);
    assert b == patched[|patched| - 1] && b in patched;
    SortMembers(patched, b);
  }

  /** RAM that holds the patched image passes every check of the boot core. */
  lemma PatchedImageValidates(image: FirmwareImage, s: ServiceSymbols, capabilities: U32, ram: Ram)
    requires Serviceable(image, s, capabilities) && HoldsImage(ram, PatchedService(image, s, capabilities))
    ensures ServiceValid(ram) && Header(ram) == ServiceHeader(image, s, capabilities)
  {
    hide PatchedService, HoldsImage, InOneBlock, TailsFit, DenseOf, HeaderOf, Crc32Of, HeaderIntact, HeaderSupported,
         ServiceValid, Join, LayoutMatches, RangesValid, ConfirmPointerValid, CapabilitiesComplete, WritableRange;
    HeaderIsLoaded(image, s, capabilities, ram);
    ImmutableIsWritable(image, s, capabilities);
    ImmutableIsLoaded(image, s, capabilities, ram);
    ExportIsLoaded(image, s, capabilities, ram);
    HeaderFields(s, capabilities, Crc32Of(DenseOf(image, s)));
    var h := Header(ram);
    ChecksOfSymbols(h, s, ram, capabilities);
    AllChecksPass(ram);
  }

  /** What the PC checked of the symbols is what the core checks of the header. */
  lemma ChecksOfSymbols(h: seq<Word>, s: ServiceSymbols, ram: Ram, capabilities: U32)
    requires |h| == HEADER_WORDS && AtLayout(s) && EntryPointsInside(s)
    requires Field(h, 6) == s.immutableStart && Field(h, 8) == s.immutableEnd
    requires Field(h, 10) == s.publishStateAddress && Field(h, 12) == s.runtimeStateAddress
    requires Field(h, 14) == s.appExportAddress
    requires Field(h, 16) == s.bootInitAddress && Field(h, 18) == s.bootHandleCommandAddress
    requires Field(h, 20) == capabilities && capabilities % CAPABILITIES == CAPABILITIES - 1
    requires WritableRange(s.immutableStart, s.immutableEnd - s.immutableStart) && s.immutableEnd <= RAM_SIZE
    requires Join(ram[EXPORT_ADDRESS], ram[EXPORT_ADDRESS + 1]) == s.confirmCurrentImageAddress
    ensures LayoutMatches(h) && RangesValid(h) && CapabilitiesComplete(h)
    ensures ConfirmPointerValid(ram, Field(h, 6), Field(h, 8))
  {
    hide Join, IsInWriteRegion;
  }

  lemma AllChecksPass(ram: Ram)
    requires var h := Header(ram);
      HeaderIntact(h) && HeaderSupported(h) && LayoutMatches(h) && RangesValid(h) && CapabilitiesComplete(h) &&
      ConfirmPointerValid(ram, Field(h, 6), Field(h, 8)) && Field(h, 8) <= RAM_SIZE &&
      Crc32Of(ram[Field(h, 6)..Field(h, 8)]) == Field(h, 24)
    ensures ServiceValid(ram)
  {
    hide HeaderIntact, HeaderSupported, LayoutMatches, ConfirmPointerValid, CapabilitiesComplete, Crc32Of, Join;
  }

  // ---------------------------------------------------------------- the whole exchange

  /** RAM_LOAD, CHECK_CRC and SERVICE_ATTACH; stops at the first refusal. */
  function LoadAndAttach(c: Core, ram: Ram, ps: seq<Packet>, entry: U32, header: U32, init: Init): Outcome
    requires AllFit(ps) && |ps| < 0x1_0000 && |Carried(ps)| < 0x1_0000_0000
  {
    var crc, words := Crc32Of(Carried(ps)), |Carried(ps)|;
    var loaded := RamLoadAll(c, ram, ps, entry);
    if loaded.status != OK then loaded
    else
      var checked := CheckCrc(loaded.core, loaded.ram, CheckRequest(crc, words));
      if checked.status != OK then checked
      else Attach(checked.core, checked.ram, AttachRequest(header, crc, words), init)
  }

  /** The core reports the service of this image as attached. */
  predicate AttachedTo(service: Service, s: ServiceSymbols, capabilities: U32, ps: seq<Packet>) {
    && service.state == Attached && service.active && service.lastAttachStatus == OK
    && service.handler == Some(s.bootHandleCommandAddress)
    && service.capabilities == capabilities
    && service.loadedCrc32 == Crc32Of(Carried(ps)) && service.loadedWords == |Carried(ps)|
  }

  lemma AttachIsAdmitted(load: RamLoad, ps: seq<Packet>, entry: U32)
    requires Loaded(load, ps, entry) && load.crcChecked && |Carried(ps)| < 0x1_0000_0000
    requires load.loadedStart <= HEADER_ADDRESS && HEADER_ADDRESS + HEADER_RESERVED_WORDS <= load.loadedEnd
    ensures AttachStatus(load, AttachRequest(HEADER_ADDRESS, Crc32Of(Carried(ps)), |Carried(ps)|)) == OK
  {
    hide Carried, Crc32Of, Join, Low, High, SpanCoversPackets;
    JoinSplit(HEADER_ADDRESS);
    JoinSplit(Crc32Of(Carried(ps)));
    JoinSplit(|Carried(ps)|);
  }

  lemma AttachSucceeds(c: Core, ram: Ram, ps: seq<Packet>, entry: U32, s: ServiceSymbols, capabilities: U32, init: Init)
    requires Loaded(c.load, ps, entry) && c.load.crcChecked && |Carried(ps)| < 0x1_0000_0000
    requires c.load.loadedStart <= HEADER_ADDRESS && HEADER_ADDRESS + HEADER_RESERVED_WORDS <= c.load.loadedEnd
    requires ServiceValid(ram) && init.status == OK
    requires Field(Header(ram), 18) == s.bootHandleCommandAddress && Field(Header(ram), 20) == capabilities
    ensures var o := Attach(c, ram, AttachRequest(HEADER_ADDRESS, Crc32Of(Carried(ps)), |Carried(ps)|), init);
      && o.status == OK && AttachedTo(o.core.service, s, capabilities, ps)
      && Published(o.ram) && ServiceValid(o.ram)
  {
    hide Carried, Crc32Of, Validate, ServiceValid, Header, Published, AttachStatus, AttachRequest;
    AttachIsAdmitted(c.load, ps, entry);
    CoreRuns.ValidatePublishes(ram, init);
    CoreRuns.ValidateKeepsHeader(ram, init);
  }

  /** Sorted blocks of a valid image are writable and span the entry point. */
  lemma SortedIsReady(image: FirmwareImage)
    requires ValidRamImage(image) && EntryInSpan(image)
    ensures var sorted := SortByAddress(image.blocks);
      && AllWritable(sorted) && sorted != [] && WritableRange(image.entryPoint, 1)
      && (exists b :: b in sorted && b.address <= image.entryPoint)
      && (exists b :: b in sorted && image.entryPoint < End(b))
  {
    var sorted := SortByAddress(image.blocks);
    ValidIsWritable(image);
    var b :| b in image.blocks && b.address <= image.entryPoint;
    SortMembers(image.blocks, b);
    var e :| e in image.blocks && image.entryPoint < End(e);
    SortMembers(image.blocks, e);
  }

  /** The loaded span reaches from the header past the export table. */
  lemma SpanHoldsHeader(image: FirmwareImage, s: ServiceSymbols, capabilities: U32, size: nat, load: RamLoad)
    requires CanPatch(image, s) && AtLayout(s) && size > 0
    requires ValidRamImage(PatchedService(image, s, capabilities))
    requires SpanCoversPackets(load, PacketsOf(SortByAddress(PatchedService(image, s, capabilities).blocks), size))
    ensures load.loadedStart <= HEADER_ADDRESS && HEADER_ADDRESS + HEADER_RESERVED_WORDS <= load.loadedEnd
  {
    hide PacketsOf, SortByAddress, ValidRamImage, SpanCoversPackets, WritableRange;
    var blocks := PatchedService(image, s, capabilities).blocks;
    HeaderInOneBlock(image, s, capabilities);
    var h :| h in blocks && h.address <= HEADER_ADDRESS && HEADER_ADDRESS + HEADER_WORDS <= End(h);
    SortMembers(blocks, h);
    SpanOfPackets(load, SortByAddress(blocks), size, h);
    ImmutableIsWritable(image, s, capabilities);
    var d :| d in blocks && Contains(d, DenseBlock(image, s));
    SortMembers(blocks, d);
    SpanOfPackets(load, SortByAddress(blocks), size, d);
  }

  lemma HeaderInOneBlock(image: FirmwareImage, s: ServiceSymbols, capabilities: U32)
    requires CanPatch(image, s)
    ensures InOneBlock(PatchedService(image, s, capabilities).blocks, s.headerAddress, HEADER_WORDS)
  {
    hide Replaced, SortByAddress;
    HeaderStaysPatchable(image, s);
    PatchIsOneBlock(WithPublish(image, s), s.headerAddress, ServiceHeader(image, s, capabilities));
  }

  /** After the load RAM holds the image. */
  lemma LoadHoldsImage(image: FirmwareImage, size: nat, ram: Ram, after: Ram)
    requires ValidRamImage(image) && size > 0
    requires forall a :: 0 <= a < RAM_SIZE && !IsPublishWord(a) ==>
               after[a] == WordAfter(ram, PacketsOf(SortByAddress(image.blocks), size), a)
    ensures HoldsImage(after, image)
  {
    hide WordAfter, ValidRamImage, SortByAddress, PacketsOf;
    forall a | Lookup(image.blocks, a).Some? && !IsPublishWord(a)
      ensures 0 <= a < RAM_SIZE && after[a] == Lookup(image.blocks, a).value
    {
      CoveredIsRam(image, a);
      SortKeepsMemory(image.blocks, a);
      BlocksReachRam(ram, SortByAddress(image.blocks), size, a);
    }
  }

  /** Builder and validator agree end to end: whatever the image, the symbols and the
      packet size, a patched service image at the layout addresses is accepted at every
      step, ends attached with the PC's CRC and word count, and is published. The service
      initialises as the Flash Service does for this device and its packet size. */
  lemma PatchedServiceAttaches(image: FirmwareImage, s: ServiceSymbols, capabilities: U32, size: nat,
                               c: Core, ram: Ram, init: Init)
    requires Serviceable(image, s, capabilities) && 0 < size <= MAX_DATA
    requires |PacketsOf(SortByAddress(PatchedService(image, s, capabilities).blocks), size)| <= MAX_PACKETS
    requires !c.load.active && init.status == ServiceSpec.BootInit(DEVICE_F28377D, CPU1, size).1
    ensures var final := PatchedService(image, s, capabilities);
      var ps := PacketsOf(SortByAddress(final.blocks), size);
      && AllFit(ps) && |ps| < 0x1_0000 && |Carried(ps)| < 0x1_0000_0000
      && var o := LoadAndAttach(c, ram, ps, final.entryPoint, s.headerAddress, init);
      && o.status == OK
      && AttachedTo(o.core.service, s, capabilities, ps)
      && Published(o.ram) && ServiceValid(o.ram)
  {
    hide PatchedService, PacketsOf, SortByAddress, Carried, RamLoadAll, CheckCrc, CheckRequest, Attach, AttachRequest,
         CanPatch, ValidRamImage, EntryInSpan, ServiceValid, Published, WordAfter, Header, ServiceHeader, WritableRange,
         HoldsImage;
    var final := PatchedService(image, s, capabilities);
    var ps := PacketsOf(SortByAddress(final.blocks), size);
    SortedIsReady(final);
    BlocksGivePackets(SortByAddress(final.blocks), size, final.entryPoint);
    LoadSucceeds(c, ram, ps, final.entryPoint);
    var loaded := RamLoadAll(c, ram, ps, final.entryPoint);
    LoadHoldsImage(final, size, ram, loaded.ram);
    PatchedImageValidates(image, s, capabilities, loaded.ram);
    CheckSucceeds(loaded.core, loaded.ram, ps, final.entryPoint);
    var checked := CheckCrc(loaded.core, loaded.ram, CheckRequest(Crc32Of(Carried(ps)), |Carried(ps)|));
    SpanHoldsHeader(image, s, capabilities, size, checked.core.load);
    HeaderNames(image, s, capabilities);
    AttachSucceeds(checked.core, checked.ram, ps, final.entryPoint, s, capabilities, init);
  }

  lemma HeaderNames(image: FirmwareImage, s: ServiceSymbols, capabilities: U32)
    ensures Field(ServiceHeader(image, s, capabilities), 18) == s.bootHandleCommandAddress
    ensures Field(ServiceHeader(image, s, capabilities), 20) == capabilities
  {
    HeaderFields(s, capabilities, Crc32Of(DenseOf(image, s)));
  }

  // ---------------------------------------------------------------- premises on the unpatched image

  lemma PartInRam(start: int, end: int, from: int, to: int)
    requires InRamRange(start, end) && start <= from && to <= end
    ensures InRamRange(from, to)
  {
    var i :| 0 <= i < |REGIONS| && Inside(REGIONS[i], start, end);
    assert Inside(REGIONS[i], from, to);
  }

  /** Replacing words inside RAM keeps the PC's RAM check. */
  lemma ReplaceKeepsRam(image: FirmwareImage, address: U32, words: seq<Word>)
    requires CanReplace(image, address, words) && ValidRamImage(image)
    requires InRamRange(address, address + |words|) && address + |words| <= 0xFFFF_FFFF
    ensures ValidRamImage(Replaced(image, address, words))
  {
    hide Remainders, SortByAddress, Disjoint, InRamRange;
    var end := address + |words|;
    var patched := Patched(image, address, words);
    forall r | r in Replaced(image, address, words).blocks
      ensures End(r) <= 0xFFFF_FFFF && InRamRange(r.address, End(r))
    {
      SortMembers(patched, r);
      if r in Remainders(image.blocks, address, end) {
        RemaindersPieces(image.blocks, address, end, r);
        var b :| b in image.blocks && PieceOf(r, b, address, end);
        PartInRam(b.address, End(b), r.address, End(r));
      }
    }
  }

  /** Some block starts at or before the address, some block ends behind it. */
  ghost predicate Spans(bs: seq<FirmwareBlock>, a: int) {
    && (exists b :: b in bs && b.address <= a)
    && (exists b :: b in bs && a < End(b))
  }

  /** Replacing words never shrinks the span of an image. */
  lemma ReplaceKeepsSpan(image: FirmwareImage, address: U32, words: seq<Word>, a: int)
    requires CanReplace(image, address, words) && Spans(image.blocks, a)
    ensures Spans(Replaced(image, address, words).blocks, a)
  {
    hide Remainders, SortByAddress, Disjoint;
    var end := address + |words|;
    var b :| b in image.blocks && b.address <= a;
    var e :| e in image.blocks && a < End(e);
    var first := FirstPiece(image, address, words, b);
    var last := LastPiece(image, address, words, e);
  }

  lemma FirstPiece(image: FirmwareImage, address: U32, words: seq<Word>, b: FirmwareBlock) returns (r: FirmwareBlock)
    requires CanReplace(image, address, words) && b in image.blocks
    ensures r in Replaced(image, address, words).blocks && r.address <= b.address
  {
    hide Remainders, SortByAddress, Disjoint;
    var end := address + |words|;
    var patch: FirmwareBlock := BlockData(address, words);
    r := if End(b) <= address || b.address >= end then b
         else if b.address < address then BlockData(b.address, b.words[..address - b.address])
         else patch;
    InPatched(image, address, words, b, r);
  }

  lemma LastPiece(image: FirmwareImage, address: U32, words: seq<Word>, b: FirmwareBlock) returns (r: FirmwareBlock)
    requires CanReplace(image, address, words) && b in image.blocks
    ensures r in Replaced(image, address, words).blocks && End(b) <= End(r)
  {
    hide Remainders, SortByAddress, Disjoint;
    var end := address + |words|;
    var patch: FirmwareBlock := BlockData(address, words);
    r := if End(b) <= address || b.address >= end then b
         else if End(b) > end then BlockData(end, b.words[end - b.address..])
         else patch;
    InPatched(image, address, words, b, r);
  }

  lemma InPatched(image: FirmwareImage, address: U32, words: seq<Word>, b: FirmwareBlock, r: FirmwareBlock)
    requires CanReplace(image, address, words) && b in image.blocks
    requires r == BlockData(address, words) || r in Remainder(b, address, address + |words|)
    ensures r in Replaced(image, address, words).blocks
  {
    hide Remainders, SortByAddress, Disjoint;
    var patched := Patched(image, address, words);
    if r == BlockData(address, words) {
      assert r == patched[|patched| - 1];
    } else {
      RemaindersMember(image.blocks, address, address + |words|, b, r);
    }
    SortMembers(patched, r);
  }

  /** The checks on the patched image follow from the same checks on the image the
      linker produced, when the immutable range lies in RAM. */
  lemma PatchingKeepsPremises(image: FirmwareImage, s: ServiceSymbols, capabilities: U32)
    requires CanPatch(image, s) && AtLayout(s) && s.immutableEnd <= 0x01_BFF8
    requires ValidRamImage(image) && EntryInSpan(image)
    ensures ValidRamImage(PatchedService(image, s, capabilities)) && EntryInSpan(PatchedService(image, s, capabilities))
  {
    hide Replaced, SortByAddress, ValidRamImage;
    var entry := image.entryPoint;
    assert Spans(image.blocks, entry);
    assert Inside(REGIONS[3], s.immutableStart, s.immutableEnd);
    assert Inside(REGIONS[3], PUBLISH_ADDRESS, PUBLISH_ADDRESS + 2);
    assert Inside(REGIONS[3], HEADER_ADDRESS, HEADER_ADDRESS + HEADER_WORDS);
    TailsFitAfterReplace(image, s.immutableStart, DenseOf(image, s), s.publishStateAddress + 2);
    HeaderStaysPatchable(image, s);
    ReplaceKeepsRam(image, s.immutableStart, DenseOf(image, s));
    ReplaceKeepsSpan(image, s.immutableStart, DenseOf(image, s), entry);
    ReplaceKeepsRam(WithImmutable(image, s), s.publishStateAddress, PUBLISH_WORDS);
    ReplaceKeepsSpan(WithImmutable(image, s), s.publishStateAddress, PUBLISH_WORDS, entry);
    ReplaceKeepsRam(WithPublish(image, s), s.headerAddress, ServiceHeader(image, s, capabilities));
    ReplaceKeepsSpan(WithPublish(image, s), s.headerAddress, ServiceHeader(image, s, capabilities), entry);
    SameEntry(image, s, capabilities);
  }

  lemma SameEntry(image: FirmwareImage, s: ServiceSymbols, capabilities: U32)
    requires CanPatch(image, s)
    ensures PatchedService(image, s, capabilities).entryPoint == image.entryPoint
  {
  }

  /** A smallest service: header, publish words, runtime state, export table and code in
      one block. */
  function SmallWords(): seq<Word> {
    seq(0x80, _ => 0) + [Low(0x01_3088), High(0x01_3088)] + seq(0x0E, _ => 0)
  }

  const SMALL_SYMBOLS: ServiceSymbols := Symbols(HEADER_ADDRESS, PUBLISH_ADDRESS, RUNTIME_ADDRESS, EXPORT_ADDRESS,
    EXPORT_ADDRESS, 0x01_3090, 0x01_3084, 0x01_3086, 0x01_3088)

  /** The premises can be met. */
  lemma SmallServiceIsServiceable()
    ensures |SmallWords()| == 0x90
    ensures var block: FirmwareBlock := BlockData(HEADER_ADDRESS, SmallWords());
      Serviceable(ImageData(0x01_3084, [block]), SMALL_SYMBOLS, 0xF)
  {
    var block: FirmwareBlock := BlockData(HEADER_ADDRESS, SmallWords());
    var image: FirmwareImage := ImageData(0x01_3084, [block]);
    var s := SMALL_SYMBOLS;
    assert block in image.blocks;
    LookupOne(block, EXPORT_ADDRESS);
    LookupOne(block, EXPORT_ADDRESS + 1);
    assert InOneBlock(image.blocks, s.headerAddress, HEADER_WORDS);
    assert Inside(REGIONS[3], block.address, End(block));
    assert Inside(REGIONS[3], image.entryPoint, image.entryPoint + 1);
    assert CanPatch(image, s);
    PatchingKeepsPremises(image, s, 0xF);
  }
}
