/** Loading a whole image: what the PC's checks guarantee about every answer of the
    boot core and about RAM afterwards. */
module ImageLoading {
  import opened Words
  import opened Crc
  import opened Protocol
  import opened Firmware
  import opened Packets
  import opened RamMap
  import opened CoreSpec
  import opened RamLoading

  // ---------------------------------------------------------------- the PC's RAM checks

  predicate InRamRange(start: int, end: int) {
    exists i :: 0 <= i < |REGIONS| && Inside(REGIONS[i], start, end)
  }

  /** `validate_ram_firmware_image` does not raise. */
  predicate ValidRamImage(image: FirmwareImage) {
    && InRamRange(image.entryPoint, image.entryPoint + 1)
    && forall b :: b in image.blocks ==> End(b) <= 0xFFFF_FFFF && InRamRange(b.address, End(b))
  }

  /** The entry point lies between the first and the last loaded word. */
  ghost predicate EntryInSpan(image: FirmwareImage) {
    && (exists b :: b in image.blocks && b.address <= image.entryPoint)
    && (exists b :: b in image.blocks && image.entryPoint < End(b))
  }

  /** The PC's ranges and the core's regions agree. */
  lemma RangesAgree(start: int, count: int)
    requires 0 <= start && count > 0 && start + count <= 0xFFFF_FFFF
    ensures InRamRange(start, start + count) <==> WritableRange(start, count)
  {
    WriteRegionMeaning(start, count);
    if InRamRange(start, start + count) {
      var i :| 0 <= i < |REGIONS| && Inside(REGIONS[i], start, start + count);
    }
    if WritableRange(start, count) {
      var i :| 0 <= i < |REGIONS| && Inside(REGIONS[i], start, start + count);
      assert Inside(REGIONS[i], start, start + count);
    }
  }

  lemma ValidIsWritable(image: FirmwareImage)
    requires ValidRamImage(image)
    ensures AllWritable(image.blocks) && AllWritable(SortByAddress(image.blocks))
    ensures WritableRange(image.entryPoint, 1)
  {
    RangesAgree(image.entryPoint, 1);
    forall b | b in image.blocks
      ensures Writable(b)
    {
      RangesAgree(b.address, |b.words|);
    }
    forall b | b in SortByAddress(image.blocks)
      ensures Writable(b)
    {
      SortMembers(image.blocks, b);
    }
  }

  // ---------------------------------------------------------------- merged blocks

  /** No two regions touch, so merging never crosses one. */
  lemma {:induction false} MergeStaysWritable(sorted: seq<FirmwareBlock>)
    requires AllWritable(sorted)
    ensures AllWritable(Merge(sorted))
  {
    if sorted == [] {
    } else {
      var front, last := sorted[..|sorted| - 1], sorted[|sorted| - 1];
      assert last in sorted;
      MergeStaysWritable(front);
      MergeStepWritable(Merge(front), last);
    }
  }

  lemma MergeStepWritable(merged: seq<FirmwareBlock>, b: FirmwareBlock)
    requires AllWritable(merged) && Writable(b)
    ensures AllWritable(MergeStep(merged, b))
  {
    if merged != [] && Touches(merged[|merged| - 1], b) {
      var last := merged[|merged| - 1];
      assert last in merged;
      WriteRegionMeaning(last.address, |last.words|);
      WriteRegionMeaning(b.address, |b.words|);
      AdjacentRangesJoin(last.address, |last.words|, |b.words|);
    }
  }

  /** Every block is part of a merged block. */
  predicate Contains(m: FirmwareBlock, b: FirmwareBlock) {
    m.address <= b.address && End(b) <= End(m)
  }

  lemma {:induction false} MergeContains(sorted: seq<FirmwareBlock>, b: FirmwareBlock)
    requires b in sorted
    ensures exists m :: m in Merge(sorted) && Contains(m, b)
  {
    var front, last := sorted[..|sorted| - 1], sorted[|sorted| - 1];
    var before, after := Merge(front), Merge(sorted);
    var newest := after[|after| - 1];
    assert newest in after && Contains(newest, last);
    if b != last {
      assert b in front;
      MergeContains(front, b);
      var m :| m in before && Contains(m, b);
      if m in after {
      } else {
        assert m == before[|before| - 1] && Contains(newest, m);
      }
    }
  }

  // ---------------------------------------------------------------- loading

  /** RAM_LOAD_BEGIN, all data commands, RAM_LOAD_END; stops at the first refusal. */
  function RamLoadAll(c: Core, ram: Ram, ps: seq<Packet>, entry: U32): Outcome
    requires AllFit(ps) && |ps| < 0x1_0000 && |Carried(ps)| < 0x1_0000_0000
  {
    var crc, words := Crc32Of(Carried(ps)), |Carried(ps)|;
    var begun := LoadBegin(c, ram, BeginRequest(|ps|, words, entry, crc));
    if begun.status != OK then begun
    else
      var sent := SendAll(begun.core, begun.ram, ps);
      if sent.status != OK then sent else LoadEnd(sent.core, sent.ram, EndRequest(|ps|, words, crc))
  }

  /** A completed load of exactly these packets. */
  predicate Loaded(load: RamLoad, ps: seq<Packet>, entry: U32) {
    && load.imageReady && !load.active
    && load.crc32 == Crc32Of(Carried(ps)) && load.expectedWords == |Carried(ps)|
    && load.entryPoint == entry
    && SpanCoversPackets(load, ps)
  }

  lemma BeginAccepts(c: Core, ram: Ram, packets: Word, words: U32, entry: U32, crc: U32)
    requires !c.load.active && packets > 0 && words > 0 && WritableRange(entry, 1)
    ensures var o := LoadBegin(c, ram, BeginRequest(packets, words, entry, crc));
      && o.status == OK && o.ram == ram && o.core.service == c.service
      && o.core.load == RamLoad(true, TARGET_RAM_APP, packets, 0, words, 0, 0, entry,
                                0xFFFF_FFFF, 0, CRC32_INIT, false, false)
  {
    JoinSplit(words);
    JoinSplit(entry);
  }

  lemma EndAccepts(c: Core, ram: Ram, before: RamLoad, ps: seq<Packet>)
    requires Progress(before, c.load, ps) && |ps| < 0x1_0000 && |Carried(ps)| < 0x1_0000_0000
    requires before.expectedPackets == |ps| && before.expectedWords == |Carried(ps)|
    requires c.load.loadedStart <= before.entryPoint < c.load.loadedEnd
    ensures var o := LoadEnd(c, ram, EndRequest(|ps|, |Carried(ps)|, Crc32Of(Carried(ps))));
      && o.status == OK && o.ram == ram && o.core.service == c.service
      && Loaded(o.core.load, ps, before.entryPoint)
  {
    hide Carried, Crc32Fold;
    JoinSplit(|ps|);
    JoinSplit(|Carried(ps)|);
  }

  /** The span of a load that took these packets includes the entry point. */
  ghost predicate EntryCovered(ps: seq<Packet>, entry: U32) {
    && (exists k :: 0 <= k < |ps| && ps[k].address <= entry)
    && (exists k :: 0 <= k < |ps| && entry < ps[k].address + |ps[k].words|)
  }

  /** From an idle core every command of a load is accepted. */
  lemma LoadSucceeds(c: Core, ram: Ram, ps: seq<Packet>, entry: U32)
    requires AllFit(ps) && 0 < |ps| < 0x1_0000 && 0 < |Carried(ps)| < 0x1_0000_0000
    requires !c.load.active && WritableRange(entry, 1) && EntryCovered(ps, entry)
    ensures var o := RamLoadAll(c, ram, ps, entry);
      && o.status == OK && Loaded(o.core.load, ps, entry)
      && forall a :: 0 <= a < RAM_SIZE && !IsPublishWord(a) ==> o.ram[a] == WordAfter(ram, ps, a)
  {
    hide Carried, Crc32Fold, LoadBegin, LoadEnd, BeginRequest, EndRequest, WordAfter, WritableRange;
    var words, crc := |Carried(ps)|, Crc32Of(Carried(ps));
    BeginAccepts(c, ram, |ps|, words, entry, crc);
    var begun := LoadBegin(c, ram, BeginRequest(|ps|, words, entry, crc));
    NothingSent(begun.core.load);
    SendsAll(begun.core, ram, ps);
    var sent := SendAll(begun.core, ram, ps);
    EndAccepts(sent.core, sent.ram, begun.core.load, ps);
    forall a | 0 <= a < RAM_SIZE && !IsPublishWord(a)
      ensures sent.ram[a] == WordAfter(ram, ps, a)
    {
      SentMemory(begun.core, ram, ps, a);
    }
  }

  lemma NothingSent(load: RamLoad)
    requires load.active && !load.imageReady && load.processedPackets == load.expectedBlock == 0
    requires load.processedWords == 0 && load.crc32 == CRC32_INIT
    ensures Progress(load, load, [])
  {
  }

  // ---------------------------------------------------------------- images

  /** The blocks give packets that the core accepts. */
  lemma BlocksGivePackets(bs: seq<FirmwareBlock>, size: nat, entry: U32)
    requires 0 < size <= MAX_DATA && AllWritable(bs) && |PacketsOf(bs, size)| <= MAX_PACKETS && bs != []
    requires exists b :: b in bs && b.address <= entry
    requires exists b :: b in bs && entry < End(b)
    ensures var ps := PacketsOf(bs, size);
      && AllFit(ps) && 0 < |ps| < 0x1_0000 && 0 < |Carried(ps)| < 0x1_0000_0000 && EntryCovered(ps, entry)
  {
    hide PacketsOf, WritableRange, AllWritable, Carried;
    var ps := PacketsOf(bs, size);
    PacketsFit(bs, size);
    NumberedFits(ps, size);
    EntryIsCovered(bs, size, entry);
  }

  lemma NumberedFits(ps: seq<Packet>, size: nat)
    requires 0 < size <= MAX_DATA && NumberedFrom(ps, 0, size) && |ps| <= MAX_PACKETS
    ensures AllFit(ps) && |Carried(ps)| < 0x1_0000_0000 && (ps != [] ==> |Carried(ps)| > 0)
  {
    hide IsInWriteRegion;
    CarriedBounded(ps, MAX_DATA);
    if ps != [] {
      assert |ps[|ps| - 1].words| > 0;
    }
  }

  lemma EntryIsCovered(bs: seq<FirmwareBlock>, size: nat, entry: U32)
    requires size > 0 && AllWritable(bs)
    requires exists b :: b in bs && b.address <= entry
    requires exists b :: b in bs && entry < End(b)
    ensures EntryCovered(PacketsOf(bs, size), entry)
  {
    var b :| b in bs && b.address <= entry;
    var e :| e in bs && entry < End(e);
    var k := FirstPacketOf(bs, size, b);
    var n := LastPacketOf(bs, size, e);
  }

  lemma {:induction false} FirstPacketOf(bs: seq<FirmwareBlock>, size: nat, b: FirmwareBlock) returns (k: nat)
    requires size > 0 && b in bs
    ensures k < |PacketsOf(bs, size)| && PacketsOf(bs, size)[k].address == b.address
  {
    var front, last := bs[..|bs| - 1], bs[|bs| - 1];
    var before := PacketsOf(front, size);
    if b == last {
      ChunksSpan(last.address, last.words, size, |before|);
      k := |before|;
    } else {
      assert b in front;
      k := FirstPacketOf(front, size, b);
    }
  }

  lemma {:induction false} LastPacketOf(bs: seq<FirmwareBlock>, size: nat, b: FirmwareBlock) returns (k: nat)
    requires size > 0 && b in bs
    ensures k < |PacketsOf(bs, size)|
    ensures PacketsOf(bs, size)[k].address + |PacketsOf(bs, size)[k].words| == End(b)
  {
    var front, last := bs[..|bs| - 1], bs[|bs| - 1];
    var before := PacketsOf(front, size);
    if b == last {
      ChunksSpan(last.address, last.words, size, |before|);
      k := |PacketsOf(bs, size)| - 1;
    } else {
      assert b in front;
      k := LastPacketOf(front, size, b);
    }
  }

  /** RAM after a load of blocks, at an address the image covers. */
  lemma BlocksReachRam(ram: Ram, bs: seq<FirmwareBlock>, size: nat, a: int)
    requires size > 0 && 0 <= a < RAM_SIZE && Lookup(bs, a).Some?
    ensures WordAfter(ram, PacketsOf(bs, size), a) == Lookup(bs, a).value
  {
    PacketsMemory(bs, size, a);
  }

  /** CHECK_CRC accepts the PC's CRC and word count after its load. */
  lemma CheckSucceeds(c: Core, ram: Ram, ps: seq<Packet>, entry: U32)
    requires Loaded(c.load, ps, entry) && |Carried(ps)| < 0x1_0000_0000
    ensures var o := CheckCrc(c, ram, CheckRequest(Crc32Of(Carried(ps)), |Carried(ps)|));
      && o.status == OK && o.ram == ram && o.core.service == c.service
      && o.core.load == c.load.(crcChecked := true)
  {
    hide Carried, Crc32Fold;
    JoinSplit(Crc32Of(Carried(ps)));
    JoinSplit(|Carried(ps)|);
  }

  /** After a load that passed CHECK_CRC, RUN_RAM of the image's entry point, stated or
      left at zero, starts exactly that entry point. */
  lemma RunRamFollowsLoad(c: Core, ps: seq<Packet>, entry: U32)
    requires Loaded(c.load, ps, entry) && c.load.crcChecked && WritableRange(entry, 1)
    requires EntryCovered(ps, entry)
    ensures RunRam(c, [Low(entry), High(entry), 0]) == (OK, Some(entry))
    ensures RunRam(c, [0, 0, 0]) == (OK, Some(entry))
  {
    hide Carried, Crc32Of, IsInWriteRegion, InLoadedImage, SpanCoversPackets;
    JoinSplit(entry);
    EntryIsLoaded(c.load, ps, entry);
  }

  lemma EntryIsLoaded(load: RamLoad, ps: seq<Packet>, entry: U32)
    requires load.imageReady && SpanCoversPackets(load, ps) && WritableRange(entry, 1) && EntryCovered(ps, entry)
    ensures InLoadedImage(load, entry, 1)
  {
    WriteRegionMeaning(entry, 1);
    var i :| 0 <= i < |ps| && ps[i].address <= entry;
    var k :| 0 <= k < |ps| && entry < ps[k].address + |ps[k].words|;
  }

  /** The word count that the PC states when it checks: the sum over the blocks. */
  function TotalWords(bs: seq<FirmwareBlock>): nat {
    if bs == [] then 0 else TotalWords(bs[..|bs| - 1]) + |bs[|bs| - 1].words|
  }

  lemma {:induction false} TotalIsWords(bs: seq<FirmwareBlock>)
    ensures TotalWords(bs) == |WordsIn(bs)|
  {
    if bs == [] {
    } else {
      TotalIsWords(bs[..|bs| - 1]);
    }
  }

  lemma {:induction false} TotalConcat(x: seq<FirmwareBlock>, y: seq<FirmwareBlock>)
    ensures TotalWords(x + y) == TotalWords(x) + TotalWords(y)
  {
    if y == [] {
      assert x + y == x;
    } else {
      assert (x + y)[..|x + y| - 1] == x + y[..|y| - 1];
      TotalConcat(x, y[..|y| - 1]);
    }
  }

  lemma {:induction false} SortKeepsTotal(bs: seq<FirmwareBlock>)
    ensures TotalWords(SortByAddress(bs)) == TotalWords(bs)
  {
    if bs == [] {
    } else {
      var front, last := bs[..|bs| - 1], bs[|bs| - 1];
      var s := SortByAddress(front);
      SortKeepsTotal(front);
      InsertTotal(s, last);
    }
  }

  lemma {:induction false} InsertTotal(s: seq<FirmwareBlock>, b: FirmwareBlock)
    ensures TotalWords(Insert(s, b)) == TotalWords(s) + |b.words|
  {
    if s == [] || s[|s| - 1].address <= b.address {
      TotalConcat(s, [b]);
      assert [b][..0] == [];
    } else {
      var front, last := s[..|s| - 1], s[|s| - 1];
      InsertTotal(front, b);
      TotalConcat(Insert(front, b), [last]);
      assert [last][..0] == [];
    }
  }

  /** A RAM image the PC accepts loads from idle with every command OK, passes
      CHECK_CRC, and leaves RAM equal to the image everywhere except possibly in the
      two publish words. */
  lemma RamImageLoads(image: FirmwareImage, size: nat, c: Core, ram: Ram)
    requires ValidRamImage(image) && EntryInSpan(image) && 0 < size <= MAX_DATA && !c.load.active
    requires |PacketsOf(Merge(SortByAddress(image.blocks)), size)| <= MAX_PACKETS
    ensures var ps := PacketsOf(Merge(SortByAddress(image.blocks)), size);
      && AllFit(ps) && |ps| < 0x1_0000 && |Carried(ps)| == TotalWords(image.blocks) < 0x1_0000_0000
      && var loaded := RamLoadAll(c, ram, ps, image.entryPoint);
      && loaded.status == OK
      && CheckCrc(loaded.core, loaded.ram, CheckRequest(Crc32Of(Carried(ps)), TotalWords(image.blocks))).status == OK
      && forall a :: Lookup(image.blocks, a).Some? && !IsPublishWord(a) ==>
           0 <= a < RAM_SIZE && loaded.ram[a] == Lookup(image.blocks, a).value
  {
    hide SortByAddress, Merge, PacketsOf, Carried, RamLoadAll, CheckCrc, CheckRequest, WordAfter, TotalWords;
    var sorted := SortByAddress(image.blocks);
    var merged := Merge(sorted);
    var ps := PacketsOf(merged, size);
    MergedIsReady(image);
    BlocksGivePackets(merged, size, image.entryPoint);
    MergedTotal(image, size);
    LoadSucceeds(c, ram, ps, image.entryPoint);
    var loaded := RamLoadAll(c, ram, ps, image.entryPoint);
    CheckSucceeds(loaded.core, loaded.ram, ps, image.entryPoint);
    forall a | Lookup(image.blocks, a).Some? && !IsPublishWord(a)
      ensures 0 <= a < RAM_SIZE && loaded.ram[a] == Lookup(image.blocks, a).value
    {
      CoveredIsRam(image, a);
      SortKeepsMemory(image.blocks, a);
      MergeKeepsMemory(sorted, a);
      BlocksReachRam(ram, merged, size, a);
    }
  }

  lemma MergedTotal(image: FirmwareImage, size: nat)
    requires size > 0
    ensures |Carried(PacketsOf(Merge(SortByAddress(image.blocks)), size))| == TotalWords(image.blocks)
  {
    var sorted := SortByAddress(image.blocks);
    PacketsCarryWords(Merge(sorted), size);
    MergeKeepsWords(sorted);
    TotalIsWords(sorted);
    SortKeepsTotal(image.blocks);
  }

  lemma CoveredIsRam(image: FirmwareImage, a: int)
    requires ValidRamImage(image) && Lookup(image.blocks, a).Some?
    ensures 0 <= a < RAM_SIZE
  {
    LookupNone(image.blocks, a);
    var b :| b in image.blocks && Covers(b, a);
    var i :| 0 <= i < |REGIONS| && Inside(REGIONS[i], b.address, End(b));
  }

  /** Merged blocks of a valid image are writable and span the entry point. */
  lemma MergedIsReady(image: FirmwareImage)
    requires ValidRamImage(image) && EntryInSpan(image)
    ensures var merged := Merge(SortByAddress(image.blocks));
      && AllWritable(merged) && merged != [] && WritableRange(image.entryPoint, 1)
      && (exists b :: b in merged && b.address <= image.entryPoint)
      && (exists b :: b in merged && image.entryPoint < End(b))
  {
    var sorted := SortByAddress(image.blocks);
    ValidIsWritable(image);
    MergeStaysWritable(sorted);
    var b :| b in image.blocks && b.address <= image.entryPoint;
    SortMembers(image.blocks, b);
    MergeContains(sorted, b);
    var m :| m in Merge(sorted) && Contains(m, b);
    var e :| e in image.blocks && image.entryPoint < End(e);
    SortMembers(image.blocks, e);
    MergeContains(sorted, e);
    var n :| n in Merge(sorted) && Contains(n, e);
  }
}
