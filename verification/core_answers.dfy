/** When each RAM command of the boot core is accepted, and what a refusal leaves. */
module CoreAnswers {
  import opened Words
  import opened Crc
  import opened Protocol
  import opened Blocks
  import opened RamMap
  import opened CoreSpec
  import CoreRuns

  /** BEGIN: accepted exactly for a well-formed announcement while no load is open and
      the entry point is writable RAM; it forgets the image loaded before. */
  lemma BeginExactly(c: Core, ram: Ram, p: Payload)
    ensures var o := LoadBegin(c, ram, p);
      && (o.status == OK <==>
            && !c.load.active && |p| == 9 && p[0] == TARGET_RAM_APP
            && p[1] > 0 && (p[2] != 0 || p[3] != 0) && IsInWriteRegion(Join(p[4], p[5]), 1))
      && (o.status == OK ==>
            && o.core.load.active && !o.core.load.imageReady && !o.core.load.crcChecked
            && o.core.load.expectedPackets == p[1] && o.core.load.expectedWords == Join(p[2], p[3])
            && o.core.load.processedPackets == o.core.load.processedWords == 0
            && o.core.service == c.service)
      && (o.status != OK ==> o.core == c)
      && o.ram == ram
  {
    hide IsInWriteRegion;
  }

  /** RAM_LOAD_DATA after every run: accepted exactly for the block that follows those
      accepted so far, within the declared counts, in one write region; a refusal drops
      an open load. */
  lemma DataExactly(ram: Ram, init: Init, run: seq<CoreRuns.Event>, p: Payload)
    requires |p| >= 5
    ensures var t := CoreRuns.After(ram, init, run);
      var b, o := CoreRuns.BlockOf(p), LoadData(t.core, t.ram, p);
      && (o.status == OK <==>
            && t.core.load.active
            && 0 < |b.data| == p[2]
            && b.index == |t.blocks| < t.core.load.expectedPackets
            && |WordsOf(t.blocks)| + |b.data| <= t.core.load.expectedWords
            && IsInWriteRegion(b.address, |b.data|))
      && (o.status != OK && t.core.load.active ==> o.core.load == NO_LOAD)
  {
    hide IsInWriteRegion, LoadWrite, AdvanceLoad, OverlapsWindow, CoreRuns.After, WordsOf, InOrder, Crc32Fold, Crc32Of;
    CoreRuns.RunsKeepLoad(ram, init, run);
    var load := CoreRuns.After(ram, init, run).core.load;
    assert p[2] <= 251 ==> (5 + p[2] as int) % 0x1_0000 == 5 + p[2] as int;
    assert load.active ==>
      (load.expectedWords - load.processedWords) % 0x1_0000_0000 == load.expectedWords - load.processedWords;
  }

  /** A data command writes its block and nothing else but the publish words. */
  lemma DataWritesItsBlock(ram: Ram, address: U32, data: seq<Word>, a: int)
    requires 0 < |data| < 0x1_0000 && 0 <= a < RAM_SIZE
    requires !(PUBLISH_ADDRESS <= a < PUBLISH_ADDRESS + 2)
    ensures LoadWrite(ram, address, data)[a] ==
            if IsInWriteRegion(address, |data|) && address <= a < address + |data| then data[a - address] else ram[a]
    ensures OverlapsWindow(address, |data|) ==> !Published(LoadWrite(ram, address, data))
  {
    WriteRegionMeaning(address, |data|);
  }

  lemma WindowWriteUnpublishes(ram: Ram, address: U32, data: seq<Word>)
    requires 0 < |data| < 0x1_0000 && OverlapsWindow(address, |data|)
    ensures !Published(LoadWrite(ram, address, data))
  {
  }

  /** SERVICE_ATTACH: accepted exactly for the image that was loaded and checked, when it
      covers the header, passes every check in RAM and initialises; then, and only then,
      the service is published. */
  lemma AttachExactly(c: Core, ram: Ram, p: Payload, init: Init)
    ensures var o := Attach(c, ram, p, init);
      && (o.status == OK <==>
            && |p| == 7 && p[6] == 0 && c.load.imageReady && c.load.crcChecked
            && Join(p[2], p[3]) == c.load.crc32 && Join(p[4], p[5]) == c.load.expectedWords
            && Join(p[0], p[1]) == 0x01_3000 && c.load.loadedStart <= 0x01_3000 && 0x01_3020 <= c.load.loadedEnd
            && ServiceValid(ram) && init.status == OK)
      && (o.status == OK ==> Published(o.ram) && ServiceValid(o.ram) && o.core.service.active)
      && (o.status != OK ==> if AttachStatus(c.load, p) != OK then o.ram == ram else !Published(o.ram))
      && o.core.load == c.load
  {
    hide ServiceValid, Published, Validate, Header;
    CoreRuns.ValidatePublishes(ram, init);
  }

  /** A refused attach keeps an active service as it was, and keeps it published exactly
      when the request itself was refused, before RAM was examined. */
  lemma RefusedAttachUnpublishes(c: Core, ram: Ram, p: Payload, init: Init)
    requires c.service.active && Published(ram) && Attach(c, ram, p, init).status != OK
    ensures var o := Attach(c, ram, p, init);
      && o.core.service.active && o.core.service.state == c.service.state
      && (Published(o.ram) <==> AttachStatus(c.load, p) != OK)
  {
    hide ServiceValid, Published, Validate, AttachStatus;
    CoreRuns.ValidatePublishes(ram, init);
  }

  /** Restoring after a restart attaches and publishes exactly a valid service. */
  lemma RestoreExactly(c: Core, ram: Ram, init: Init)
    ensures var o := Restore(c, ram, init);
      && (o.status == OK <==> ServiceValid(ram) && init.status == OK)
      && (o.core.service.active <==> o.status == OK)
      && (Published(o.ram) <==> o.status == OK)
  {
    hide ServiceValid, Validate;
    CoreRuns.ValidatePublishes(ram, init);
  }

  // ---------------------------------------------------------------- what a valid service is

  /** Every check, in numbers. */
  lemma ValidServiceMeans(ram: Ram)
    ensures ServiceValid(ram) <==>
      var h := Header(ram);
      var end := Field(h, 8);
      && h[0] == 0x4832 && h[1] == 0x4653 && h[2] == 1 && h[3] == 28
      && h[4] == 2 && h[5] == 0 && h[22] == 1
      && Crc32Of(h[..26]) == Field(h, 26)
      && Field(h, 6) == 0x01_3080 && Field(h, 10) == 0x01_3020 && Field(h, 12) == 0x01_3022 && Field(h, 14) == 0x01_3080
      && 0x01_3080 < end <= 0x01_BFF8
      && 0x01_3080 <= Field(h, 16) < end && 0x01_3080 <= Field(h, 18) < end
      && 0x01_3080 <= Join(ram[0x01_3080], ram[0x01_3081]) < end
      && h[20] % 16 == 15
      && Crc32Of(ram[0x01_3080..end]) == Field(h, 24)
  {
    hide Crc32Of, Header, CapabilitiesComplete, RangesValid, IsInWriteRegion, Join;
    var h := Header(ram);
    CapabilityBits(h);
    MagicWords(h);
    if Field(h, 6) == 0x01_3080 {
      RangesMean(h);
    }
  }

  lemma MagicWords(h: seq<Word>)
    requires |h| == HEADER_WORDS
    ensures Field(h, 0) == HEADER_MAGIC <==> h[0] == 0x4832 && h[1] == 0x4653
  {
    hide Join;
    SplitJoin(h[0], h[1]);
    JoinSplit(HEADER_MAGIC);
    assert Low(HEADER_MAGIC) == 0x4832 && High(HEADER_MAGIC) == 0x4653;
  }

  lemma RangesMean(h: seq<Word>)
    requires |h| == HEADER_WORDS && Field(h, 6) == 0x01_3080
    ensures RangesValid(h) <==>
      && 0x01_3080 < Field(h, 8) && Field(h, 8) <= 0x01_BFF8
      && 0x01_3080 <= Field(h, 16) && Field(h, 16) < Field(h, 8)
      && 0x01_3080 <= Field(h, 18) && Field(h, 18) < Field(h, 8)
  {
    hide Join;
    if Field(h, 8) > 0x01_3080 {
      WriteRegionMeaning(0x01_3080, Field(h, 8) - 0x01_3080);
    }
  }

  lemma LowBits(low: nat, k: nat)
    ensures (low + 16 * k) % 16 == low % 16
  {
  }

  /** The required capabilities are the low four bits. */
  lemma CapabilityBits(h: seq<Word>)
    requires |h| == HEADER_WORDS
    ensures CapabilitiesComplete(h) <==> h[20] % 16 == 15
  {
    LowBits(h[20], 0x1000 * (h[21] as int));
    assert Field(h, 20) == h[20] + 16 * (0x1000 * (h[21] as int));
  }

  lemma ChangedHeader(ram: Ram, i: nat, word: Word)
    requires i < HEADER_WORDS
    ensures Header(Store(ram, HEADER_ADDRESS + i, [word])) == Header(ram)[i := word]
  {
  }

  lemma IntactHeaderDetectsOneWord(h: seq<Word>, i: nat, word: Word)
    requires |h| == HEADER_WORDS && HeaderIntact(h) && i < HEADER_WORDS && word != h[i]
    ensures !HeaderIntact(h[i := word])
  {
    var changed := h[i := word];
    if i < 26 {
      Crc32DetectsOneWord(h[..26], i, word);
      assert changed[..26] == h[..26][i := word];
    } else {
      assert changed[..26] == h[..26];
    }
  }

  /** A service that validates stops validating when any one word of its header or of
      its immutable range changes. */
  lemma ValidServiceDetectsOneWord(ram: Ram, a: nat, word: Word)
    requires ServiceValid(ram) && a < RAM_SIZE && word != ram[a]
    requires HEADER_ADDRESS <= a < HEADER_ADDRESS + HEADER_WORDS || EXPORT_ADDRESS <= a < ImmutableEnd(ram)
    ensures !ServiceValid(Store(ram, a, [word]))
  {
    hide ServiceValid;
    if a < HEADER_ADDRESS + HEADER_WORDS {
      HeaderChangeIsFound(ram, a - HEADER_ADDRESS, word);
    } else {
      CoreRuns.ImmutableRange(ram);
      CoreRuns.ImmutableChangeIsFound(ram, a, word);
    }
  }

  lemma HeaderChangeIsFound(ram: Ram, i: nat, word: Word)
    requires ServiceValid(ram) && i < HEADER_WORDS && word != ram[HEADER_ADDRESS + i]
    ensures !ServiceValid(Store(ram, HEADER_ADDRESS + i, [word]))
  {
    ChangedHeader(ram, i, word);
    assert word != Header(ram)[i];
    IntactHeaderDetectsOneWord(Header(ram), i, word);
  }
}
