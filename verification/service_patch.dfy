/** Patching the Flash Service image: the checks, the header, and what the patched
    image holds at every address. */
module ServicePatch {
  import opened Words
  import opened Crc
  import opened Firmware
  import opened ServiceImage
  import opened Builders
  import opened RamMap
  import opened CoreSpec

  datatype Symbols = Symbols(
    headerAddress: U32,
    publishStateAddress: U32,
    runtimeStateAddress: U32,
    appExportAddress: U32,
    immutableStart: U32,
    immutableEnd: U32,
    bootInitAddress: U32,
    bootHandleCommandAddress: U32,
    confirmCurrentImageAddress: U32)

  type ServiceSymbols = s: Symbols | s.immutableStart < s.immutableEnd
    witness Symbols(0, 0, 0, 0, 0, 1, 0, 0, 0)

  const PUBLISH_WORDS: seq<Word> := [PUBLISH_INVALID, PUBLISH_INVALID]

  // ---------------------------------------------------------------- the checks

  predicate InImmutable(s: ServiceSymbols, a: U32) {
    s.immutableStart <= a < s.immutableEnd
  }

  predicate EntryPointsInside(s: ServiceSymbols) {
    && InImmutable(s, s.bootInitAddress)
    && InImmutable(s, s.bootHandleCommandAddress)
    && InImmutable(s, s.confirmCurrentImageAddress)
  }

  datatype Range = Range(start: int, end: int)

  predicate Separate(a: Range, b: Range) {
    a.end <= b.start || b.end <= a.start
  }

  function HeaderRange(s: ServiceSymbols): Range {
    Range(s.headerAddress, s.headerAddress + HEADER_WORDS)
  }

  function PublishRange(s: ServiceSymbols): Range {
    Range(s.publishStateAddress, s.publishStateAddress + 2)
  }

  function RuntimeRange(s: ServiceSymbols): Range {
    Range(s.runtimeStateAddress, s.runtimeStateAddress + 1)
  }

  function ImmutableSpan(s: ServiceSymbols): Range {
    Range(s.immutableStart, s.immutableEnd)
  }

  /** Header, publish words, runtime state and immutable data are pairwise disjoint. */
  predicate RangesSeparate(s: ServiceSymbols) {
    && Separate(HeaderRange(s), PublishRange(s))
    && Separate(HeaderRange(s), RuntimeRange(s))
    && Separate(PublishRange(s), RuntimeRange(s))
    && Separate(HeaderRange(s), ImmutableSpan(s))
    && Separate(PublishRange(s), ImmutableSpan(s))
    && Separate(RuntimeRange(s), ImmutableSpan(s))
  }

  /** The code sorts the mutable ranges and compares neighbours. */
  method CheckRanges(s: ServiceSymbols) returns (ok: bool)
    ensures ok <==> RangesSeparate(s)
  {
    var a, b, c := HeaderRange(s), PublishRange(s), RuntimeRange(s);
    if a.start > b.start {
      a, b := b, a;
    }
    if b.start > c.start {
      b, c := c, b;
    }
    if a.start > b.start {
      a, b := b, a;
    }
    ok := a.end <= b.start && b.end <= c.start &&
          Separate(a, ImmutableSpan(s)) && Separate(b, ImmutableSpan(s)) && Separate(c, ImmutableSpan(s));
  }

  /** Patching succeeds. The last two conditions only concern images that reach past
      the 32-bit address space. */
  ghost predicate CanPatch(image: FirmwareImage, s: ServiceSymbols) {
    && InOneBlock(image.blocks, s.headerAddress, HEADER_WORDS)
    && EntryPointsInside(s)
    && RangesSeparate(s)
    && TailsFit(image.blocks, s.publishStateAddress + 2)
    && TailsFit(image.blocks, s.headerAddress + HEADER_WORDS)
  }

  // ---------------------------------------------------------------- the header

  function Split(value: U32): seq<Word> {
    [Low(value), High(value)]
  }

  /** Words 0 to 5. */
  function HeaderPrefix(): seq<Word> {
    [Low(HEADER_MAGIC), High(HEADER_MAGIC), HEADER_VERSION, HEADER_WORDS, ABI_MAJOR, ABI_MINOR]
  }

  /** Words 6 to 15. */
  function HeaderAddresses(s: ServiceSymbols): seq<Word> {
    [Low(s.immutableStart), High(s.immutableStart), Low(s.immutableEnd), High(s.immutableEnd),
     Low(s.publishStateAddress), High(s.publishStateAddress), Low(s.runtimeStateAddress),
     High(s.runtimeStateAddress), Low(s.appExportAddress), High(s.appExportAddress)]
  }

  /** Words 16 to 19. */
  function HeaderEntryPoints(s: ServiceSymbols): seq<Word> {
    [Low(s.bootInitAddress), High(s.bootInitAddress),
     Low(s.bootHandleCommandAddress), High(s.bootHandleCommandAddress)]
  }

  /** Words 20 to 25. */
  function HeaderTrailer(capabilities: U32, crc: U32): seq<Word> {
    [Low(capabilities), High(capabilities), CRC32_IEEE, 0, Low(crc), High(crc)]
  }

  function HeaderBody(s: ServiceSymbols, capabilities: U32, crc: U32): (h: seq<Word>)
    ensures |h| == HEADER_WORDS - 2
  {
    HeaderPrefix() + HeaderAddresses(s) + HeaderEntryPoints(s) + HeaderTrailer(capabilities, crc)
  }

  /** The 28 header words; the last two are the CRC-32 of the others. */
  function HeaderOf(s: ServiceSymbols, capabilities: U32, crc: U32): (h: seq<Word>)
    ensures |h| == HEADER_WORDS
  {
    HeaderBody(s, capabilities, crc) + Split(Crc32Of(HeaderBody(s, capabilities, crc)))
  }

  method FillHeader(s: ServiceSymbols, capabilities: U32, crc: U32) returns (header: array<Word>)
    ensures fresh(header) && header[..] == HeaderOf(s, capabilities, crc)
  {
    header := new Word[HEADER_WORDS](_ => 0);
    WriteSection(header, 0, HeaderPrefix());
    WriteSection(header, 6, HeaderAddresses(s));
    WriteSection(header, 16, HeaderEntryPoints(s));
    WriteSection(header, 20, HeaderTrailer(capabilities, crc));
    assert header[..26] == HeaderBody(s, capabilities, crc);
    var headerCrc := CalcWords32(header, HEADER_WORDS - 2);
    WriteSection(header, 26, Split(headerCrc));
  }

  // ---------------------------------------------------------------- the patched image

  function DenseOf(image: FirmwareImage, s: ServiceSymbols): (d: seq<Word>)
    ensures |d| == s.immutableEnd - s.immutableStart
  {
    Dense(image.blocks, s.immutableStart, s.immutableEnd)
  }

  function WithImmutable(image: FirmwareImage, s: ServiceSymbols): FirmwareImage {
    Replaced(image, s.immutableStart, DenseOf(image, s))
  }

  function WithPublish(image: FirmwareImage, s: ServiceSymbols): FirmwareImage
    requires TailsFit(image.blocks, s.publishStateAddress + 2)
  {
    TailsFitAfterReplace(image, s.immutableStart, DenseOf(image, s), s.publishStateAddress + 2);
    Replaced(WithImmutable(image, s), s.publishStateAddress, PUBLISH_WORDS)
  }

  function ServiceHeader(image: FirmwareImage, s: ServiceSymbols, capabilities: U32): (h: seq<Word>)
    ensures |h| == HEADER_WORDS
  {
    HeaderOf(s, capabilities, Crc32Of(DenseOf(image, s)))
  }

  ghost function PatchedService(image: FirmwareImage, s: ServiceSymbols, capabilities: U32): FirmwareImage
    requires CanPatch(image, s)
  {
    HeaderStaysPatchable(image, s);
    Replaced(WithPublish(image, s), s.headerAddress, ServiceHeader(image, s, capabilities))
  }

  lemma TailOfPiece(image: FirmwareImage, address: U32, words: seq<Word>, e: int, r: FirmwareBlock)
    requires words != [] && address + |words| <= 0xFFFF_FFFF && e > 0xFFFF_FFFF
    requires TailsFit(image.blocks, e) && r in Patched(image, address, words)
    ensures TailFits(r, e)
  {
    if r in Remainders(image.blocks, address, address + |words|) {
      RemaindersPieces(image.blocks, address, address + |words|, r);
      var b :| b in image.blocks && PieceOf(r, b, address, address + |words|);
      assert TailFits(b, e);
    }
  }

  lemma PieceOfTail(image: FirmwareImage, address: U32, words: seq<Word>, e: int) returns (r: FirmwareBlock)
    requires words != [] && address + |words| <= 0xFFFF_FFFF && e > 0xFFFF_FFFF
    requires !TailsFit(image.blocks, e)
    ensures r in Patched(image, address, words) && !TailFits(r, e)
  {
    hide Disjoint, Remainders;
    var end := address + |words|;
    var b :| b in image.blocks && !TailFits(b, e);
    if End(b) <= address || b.address >= end {
      r := b;
    } else {
      r := Right(b, end)[0];
      assert r in Right(b, end);
    }
    assert r in Remainder(b, address, end);
    RemaindersMember(image.blocks, address, end, b, r);
  }

  /** Replacing words below 2^32 - 1 changes nothing about blocks that reach past it. */
  lemma TailsFitAfterReplace(image: FirmwareImage, address: U32, words: seq<Word>, e: int)
    requires words != [] && address + |words| <= 0xFFFF_FFFF
    ensures TailsFit(Replaced(image, address, words).blocks, e) <==> TailsFit(image.blocks, e)
  {
    hide Disjoint, Remainders, SortByAddress;
    var patched, after := Patched(image, address, words), Replaced(image, address, words).blocks;
    if e > 0xFFFF_FFFF && TailsFit(image.blocks, e) {
      forall r | r in after
        ensures TailFits(r, e)
      {
        SortMembers(patched, r);
        TailOfPiece(image, address, words, e, r);
      }
    } else if e > 0xFFFF_FFFF {
      var r := PieceOfTail(image, address, words, e);
      SortMembers(patched, r);
    }
  }

  /** Once the checks pass, the header still lies in one block, and the header patch can
      raise only where it would for the original image: for a block that runs past the
      header and past the 32-bit addresses. */
  lemma HeaderStaysPatchable(image: FirmwareImage, s: ServiceSymbols)
    requires InOneBlock(image.blocks, s.headerAddress, HEADER_WORDS) && RangesSeparate(s)
    requires TailsFit(image.blocks, s.publishStateAddress + 2)
    ensures InOneBlock(WithPublish(image, s).blocks, s.headerAddress, HEADER_WORDS)
    ensures TailsFit(WithPublish(image, s).blocks, s.headerAddress + HEADER_WORDS) <==>
            TailsFit(image.blocks, s.headerAddress + HEADER_WORDS)
  {
    TailsFitAfterReplace(image, s.immutableStart, DenseOf(image, s), s.publishStateAddress + 2);
    ReplaceKeepsOneBlock(image, s.immutableStart, DenseOf(image, s), s.headerAddress, HEADER_WORDS);
    ReplaceKeepsOneBlock(WithImmutable(image, s), s.publishStateAddress, PUBLISH_WORDS, s.headerAddress, HEADER_WORDS);
    TailsFitAfterReplace(image, s.immutableStart, DenseOf(image, s), s.headerAddress + HEADER_WORDS);
    if s.headerAddress + HEADER_WORDS > 0xFFFF_FFFF {
      TailsFitAfterReplace(WithImmutable(image, s), s.publishStateAddress, PUBLISH_WORDS,
                           s.headerAddress + HEADER_WORDS);
    }
  }

  /** A header that ends at the last 32-bit address, in a block that runs on. */
  const LAST_HEADER: ServiceSymbols :=
    Symbols(0xFFFF_FFE4, 0x1000, 0x1002, 0x2000, 0x2000, 0x2010, 0x2004, 0x2006, 0x2008)

  /** Such an image passes every check and its header patch still raises. */
  lemma HeaderPatchCanRaise() returns (image: FirmwareImage)
    ensures var s := LAST_HEADER;
      && InOneBlock(image.blocks, s.headerAddress, HEADER_WORDS) && EntryPointsInside(s) && RangesSeparate(s)
      && TailsFit(image.blocks, s.publishStateAddress + 2)
      && InOneBlock(WithPublish(image, s).blocks, s.headerAddress, HEADER_WORDS)
      && !TailsFit(WithPublish(image, s).blocks, s.headerAddress + HEADER_WORDS)
  {
    hide WithPublish;
    var block: FirmwareBlock := BlockData(LAST_HEADER.headerAddress, seq(HEADER_WORDS + 1, _ => 0));
    image := ImageData(0, [block]);
    assert image.blocks[0] == block && block in image.blocks;
    HeaderStaysPatchable(image, LAST_HEADER);
  }

  /** The address lies in at most one of the header, the publish words, the runtime state
      and the immutable range. */
  predicate InOneArea(s: ServiceSymbols, a: int) {
    var header := s.headerAddress <= a < s.headerAddress + 28;
    var publish := s.publishStateAddress <= a < s.publishStateAddress + 2;
    var runtime := a == s.runtimeStateAddress;
    var immutable := s.immutableStart <= a < s.immutableEnd;
    && !(header && publish) && !(header && runtime) && !(header && immutable)
    && !(publish && runtime) && !(publish && immutable) && !(runtime && immutable)
  }

  predicate HoldsHeader(b: FirmwareBlock, s: ServiceSymbols) {
    b.address <= s.headerAddress && s.headerAddress + 28 <= b.address + |b.words|
  }

  /** The checks in numbers: the header in one block, three entry points in the immutable
      range, no address in two of the areas, and no block cut beyond the 32-bit addresses. */
  lemma CanPatchMeans(image: FirmwareImage, s: ServiceSymbols)
    ensures CanPatch(image, s) <==>
      && (exists b :: b in image.blocks && HoldsHeader(b, s))
      && s.immutableStart <= s.bootInitAddress < s.immutableEnd
      && s.immutableStart <= s.bootHandleCommandAddress < s.immutableEnd
      && s.immutableStart <= s.confirmCurrentImageAddress < s.immutableEnd
      && (forall a: int :: InOneArea(s, a))
      && RestsFit(image.blocks, s.publishStateAddress + 2) && RestsFit(image.blocks, s.headerAddress + 28)
  {
    hide TailsFit, RestsFit;
    TailsMean(image.blocks, s.publishStateAddress + 2);
    TailsMean(image.blocks, s.headerAddress + 28);
    AreasApart(s);
    assert InOneBlock(image.blocks, s.headerAddress, HEADER_WORDS) <==>
      exists b :: b in image.blocks && HoldsHeader(b, s);
  }

  lemma AreasApart(s: ServiceSymbols)
    ensures RangesSeparate(s) <==> forall a: int :: InOneArea(s, a)
  {
    if forall a: int :: InOneArea(s, a) {
      assert InOneArea(s, s.headerAddress) && InOneArea(s, s.headerAddress + 27);
      assert InOneArea(s, s.publishStateAddress) && InOneArea(s, s.publishStateAddress + 1);
      assert InOneArea(s, s.runtimeStateAddress);
      assert InOneArea(s, s.immutableStart) && InOneArea(s, s.immutableEnd - 1);
    }
  }

  /** Succeeds exactly when `CanPatch` holds. */
  method PatchFlashServiceImage(image: FirmwareImage, s: ServiceSymbols, capabilities: U32)
    returns (r: Option<FirmwareImage>)
    ensures r.Some? <==> CanPatch(image, s)
    ensures r.Some? ==> r.value == PatchedService(image, s, capabilities)
  {
    var inside := IsInOneBlock(image.blocks, s.headerAddress, HEADER_WORDS);
    if !inside {
      return None;
    }
    if !EntryPointsInside(s) {
      return None;
    }
    var separate := CheckRanges(s);
    if !separate {
      return None;
    }
    var immutable := DenseImmutable(image, s.immutableStart, s.immutableEnd);
    if immutable.None? {
      return None;
    }
    var patched := ReplaceWords(image, immutable.value.address, immutable.value.words);
    if patched.None? {
      return None;
    }
    TailsFitAfterReplace(image, s.immutableStart, DenseOf(image, s), s.publishStateAddress + 2);
    patched := ReplaceWords(patched.value, s.publishStateAddress, PUBLISH_WORDS);
    if patched.None? {
      return None;
    }
    HeaderStaysPatchable(image, s);
    var header := FillHeader(s, capabilities, Crc32Of(immutable.value.words));
    r := PatchWords(patched.value, s.headerAddress, header[..]);
  }

  // ---------------------------------------------------------------- what the patched image holds

  predicate In(r: Range, a: int) {
    r.start <= a < r.end
  }

  lemma WithPublishMemory(image: FirmwareImage, s: ServiceSymbols, a: int)
    requires TailsFit(image.blocks, s.publishStateAddress + 2)
    ensures Lookup(WithPublish(image, s).blocks, a) ==
            if In(PublishRange(s), a) then Some(PUBLISH_INVALID)
            else if In(ImmutableSpan(s), a) then Some(DenseOf(image, s)[a - s.immutableStart])
            else Lookup(image.blocks, a)
  {
    hide Replaced, Disjoint;
    TailsFitAfterReplace(image, s.immutableStart, DenseOf(image, s), s.publishStateAddress + 2);
    ReplaceOverridesMemory(image, s.immutableStart, DenseOf(image, s), a);
    ReplaceOverridesMemory(WithImmutable(image, s), s.publishStateAddress, PUBLISH_WORDS, a);
  }

  /** Memory of the patched image, address by address: the header, two cleared publish
      words, the immutable range with 0xFFFF where the image holds nothing, and the image
      everywhere else. */
  lemma PatchedServiceMemory(image: FirmwareImage, s: ServiceSymbols, capabilities: U32, a: int)
    requires CanPatch(image, s)
    ensures var was := Lookup(image.blocks, a);
      Lookup(PatchedService(image, s, capabilities).blocks, a) ==
      if s.headerAddress <= a < s.headerAddress + 28 then
        Some(ServiceHeader(image, s, capabilities)[a - s.headerAddress])
      else if s.publishStateAddress <= a < s.publishStateAddress + 2 then Some(0)
      else if s.immutableStart <= a < s.immutableEnd then Some(if was.Some? then was.value else 0xFFFF)
      else was
  {
    hide Replaced, Disjoint, TailsFit;
    HeaderStaysPatchable(image, s);
    WithPublishMemory(image, s, a);
    ReplaceOverridesMemory(WithPublish(image, s), s.headerAddress, ServiceHeader(image, s, capabilities), a);
    if s.immutableStart <= a < s.immutableEnd {
      DenseAt(image.blocks, s.immutableStart, s.immutableEnd, a);
    }
  }

  /** Patching header and publish words leaves the dense range as it was computed. */
  lemma FinalDense(image: FirmwareImage, s: ServiceSymbols, capabilities: U32)
    requires CanPatch(image, s)
    ensures Dense(PatchedService(image, s, capabilities).blocks, s.immutableStart, s.immutableEnd) == DenseOf(image, s)
  {
    hide Replaced, Disjoint, TailsFit;
    var final, dense := PatchedService(image, s, capabilities).blocks, DenseOf(image, s);
    forall k | 0 <= k < |dense|
      ensures Lookup(final, s.immutableStart + k) == Some(dense[k])
    {
      PatchedServiceMemory(image, s, capabilities, s.immutableStart + k);
      DenseAt(image.blocks, s.immutableStart, s.immutableEnd, s.immutableStart + k);
    }
    DenseIsMemory(final, dense, s.immutableStart);
  }

  /** The CRC stored in the header is that of the final image's immutable range. */
  lemma StoredCrcMatchesFinalImage(image: FirmwareImage, s: ServiceSymbols, capabilities: U32)
    requires CanPatch(image, s)
    ensures Field(ServiceHeader(image, s, capabilities), 24) ==
            Crc32Of(Dense(PatchedService(image, s, capabilities).blocks, s.immutableStart, s.immutableEnd))
  {
    FinalDense(image, s, capabilities);
    HeaderFields(s, capabilities, Crc32Of(DenseOf(image, s)));
  }

  lemma HeaderSections(s: ServiceSymbols, capabilities: U32, crc: U32)
    ensures var h := HeaderOf(s, capabilities, crc);
      && h[..6] == HeaderPrefix() && h[6..16] == HeaderAddresses(s)
      && h[16..20] == HeaderEntryPoints(s) && h[20..26] == HeaderTrailer(capabilities, crc)
      && h[..26] == HeaderBody(s, capabilities, crc)
      && Field(h, 26) == Crc32Of(h[..26])
  {
    var h, body := HeaderOf(s, capabilities, crc), HeaderBody(s, capabilities, crc);
    assert h[..26] == body;
    JoinSplit(Crc32Of(body));
  }

  lemma PrefixFields(h: seq<Word>)
    requires |h| == HEADER_WORDS && h[..6] == HeaderPrefix() && Field(h, 26) == Crc32Of(h[..26])
    ensures HeaderIntact(h) && h[4] == ABI_MAJOR && h[5] == ABI_MINOR
  {
    assert forall k :: 0 <= k < 6 ==> h[k] == h[..6][k];
    JoinSplit(HEADER_MAGIC);
  }

  lemma AddressFields(s: ServiceSymbols, h: seq<Word>)
    requires |h| == HEADER_WORDS && h[6..16] == HeaderAddresses(s)
    ensures Field(h, 6) == s.immutableStart && Field(h, 8) == s.immutableEnd
    ensures Field(h, 10) == s.publishStateAddress && Field(h, 12) == s.runtimeStateAddress
    ensures Field(h, 14) == s.appExportAddress
  {
    assert forall k :: 0 <= k < 10 ==> h[6 + k] == h[6..16][k];
    assert h[6] == h[6..16][0] && h[7] == h[6..16][1] && h[8] == h[6..16][2] && h[9] == h[6..16][3];
    assert h[10] == h[6..16][4] && h[11] == h[6..16][5] && h[12] == h[6..16][6] && h[13] == h[6..16][7];
    assert h[14] == h[6..16][8] && h[15] == h[6..16][9];
    JoinSplit(s.immutableStart);
    JoinSplit(s.immutableEnd);
    JoinSplit(s.publishStateAddress);
    JoinSplit(s.runtimeStateAddress);
    JoinSplit(s.appExportAddress);
  }

  lemma EntryFields(s: ServiceSymbols, h: seq<Word>, capabilities: U32, crc: U32)
    requires |h| == HEADER_WORDS && h[16..20] == HeaderEntryPoints(s) && h[20..26] == HeaderTrailer(capabilities, crc)
    ensures Field(h, 16) == s.bootInitAddress && Field(h, 18) == s.bootHandleCommandAddress
    ensures Field(h, 20) == capabilities && h[22] == CRC32_IEEE && Field(h, 24) == crc
  {
    assert h[16] == h[16..20][0] && h[17] == h[16..20][1] && h[18] == h[16..20][2] && h[19] == h[16..20][3];
    assert h[20] == h[20..26][0] && h[21] == h[20..26][1] && h[22] == h[20..26][2];
    assert h[24] == h[20..26][4] && h[25] == h[20..26][5];
    JoinSplit(s.bootInitAddress);
    JoinSplit(s.bootHandleCommandAddress);
    JoinSplit(capabilities);
    JoinSplit(crc);
  }

  /** The header by word. */
  lemma HeaderInNumbers(s: ServiceSymbols, capabilities: U32, crc: U32)
    ensures var h := HeaderOf(s, capabilities, crc);
      && h[0] == 0x4832 && h[1] == 0x4653 && h[2] == 1 && h[3] == 28 && h[4] == 2 && h[5] == 0
      && Join(h[6], h[7]) == s.immutableStart && Join(h[8], h[9]) == s.immutableEnd
      && Join(h[10], h[11]) == s.publishStateAddress && Join(h[12], h[13]) == s.runtimeStateAddress
      && Join(h[14], h[15]) == s.appExportAddress && Join(h[16], h[17]) == s.bootInitAddress
      && Join(h[18], h[19]) == s.bootHandleCommandAddress && Join(h[20], h[21]) == capabilities
      && h[22] == 1 && h[23] == 0 && Join(h[24], h[25]) == crc && Join(h[26], h[27]) == Crc32Of(h[..26])
  {
    hide Crc32Of, HeaderOf, HeaderIntact, HeaderSupported, Join;
    var h := HeaderOf(s, capabilities, crc);
    HeaderFields(s, capabilities, crc);
    HeaderSections(s, capabilities, crc);
    assert forall k :: 0 <= k < 6 ==> h[k] == h[..6][k];
    assert h[22] == h[20..26][2] && h[23] == h[20..26][3];
  }

  /** The header reads back what it was built from, and passes its own CRC. */
  lemma HeaderFields(s: ServiceSymbols, capabilities: U32, crc: U32)
    ensures var h := HeaderOf(s, capabilities, crc);
      && HeaderIntact(h) && HeaderSupported(h)
      && Field(h, 6) == s.immutableStart && Field(h, 8) == s.immutableEnd
      && Field(h, 10) == s.publishStateAddress && Field(h, 12) == s.runtimeStateAddress
      && Field(h, 14) == s.appExportAddress
      && Field(h, 16) == s.bootInitAddress && Field(h, 18) == s.bootHandleCommandAddress
      && Field(h, 20) == capabilities && Field(h, 24) == crc
  {
    var h := HeaderOf(s, capabilities, crc);
    HeaderSections(s, capabilities, crc);
    PrefixFields(h);
    AddressFields(s, h);
    EntryFields(s, h, capabilities, crc);
  }
}
