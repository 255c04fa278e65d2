/** Sending an image to the boot core: every command the PC sends is accepted, and RAM
    ends up holding the image. */
module RamLoading {
  import opened Words
  import opened Crc
  import opened Protocol
  import opened Firmware
  import opened Packets
  import opened RamMap
  import opened CoreSpec

  // ---------------------------------------------------------------- the requests of the PC

  function BeginRequest(packets: Word, words: U32, entry: U32, crc: U32): Payload {
    [TARGET_RAM_APP, packets, Low(words), High(words), Low(entry), High(entry), Low(crc), High(crc), 0]
  }

  function EndRequest(packets: U32, words: U32, crc: U32): Payload {
    [Low(packets), High(packets), Low(words), High(words), Low(crc), High(crc)]
  }

  function CheckRequest(crc: U32, words: U32): Payload {
    [Low(crc), High(crc), Low(words), High(words), 0]
  }

  function AttachRequest(header: U32, crc: U32, words: U32): Payload {
    [Low(header), High(header), Low(crc), High(crc), Low(words), High(words), 0]
  }

  /** The range lies in one write region. */
  predicate WritableRange(address: int, count: int) {
    0 <= address < 0x1_0000_0000 && 0 <= count < 0x1_0000_0000 && IsInWriteRegion(address, count)
  }

  /** The packet fits one data command and one write region. */
  predicate Fits(p: Packet) {
    Sendable(p) && p.words != [] && WritableRange(p.address, |p.words|)
  }

  predicate AllFit(ps: seq<Packet>) {
    forall k :: 0 <= k < |ps| ==> ps[k].index == k && Fits(ps[k])
  }

  // ---------------------------------------------------------------- the data commands

  /** Sends the packets; stops at the first that is refused. */
  function SendAll(c: Core, ram: Ram, ps: seq<Packet>): Outcome
    requires AllFit(ps)
  {
    if ps == [] then Outcome(c, ram, OK)
    else
      var o := SendAll(c, ram, ps[..|ps| - 1]);
      if o.status != OK then o else LoadData(o.core, o.ram, DataRequest(ps[|ps| - 1]))
  }

  /** The load after `ps` were accepted. */
  predicate Progress(before: RamLoad, load: RamLoad, ps: seq<Packet>) {
    && load.active && !load.imageReady
    && load.processedPackets == load.expectedBlock == |ps|
    && load.processedWords == |Carried(ps)|
    && load.crc32 == Crc32Fold(CRC32_INIT, Carried(ps))
    && load.expectedPackets == before.expectedPackets
    && load.expectedWords == before.expectedWords
    && load.entryPoint == before.entryPoint
    && forall k :: 0 <= k < |ps| ==> load.loadedStart <= ps[k].address && ps[k].address + |ps[k].words| <= load.loadedEnd
  }

  lemma CarriedStep(ps: seq<Packet>, p: Packet)
    ensures Carried(ps + [p]) == Carried(ps) + p.words
  {
    assert (ps + [p])[..|ps|] == ps;
  }

  /** One accepted packet. */
  lemma SendOne(c: Core, ram: Ram, before: RamLoad, ps: seq<Packet>, p: Packet)
    requires Progress(before, c.load, ps) && Fits(p) && p.index == |ps|
    requires |ps| < before.expectedPackets && |Carried(ps)| + |p.words| <= before.expectedWords
    ensures var o := LoadData(c, ram, DataRequest(p));
      && o.status == OK
      && Progress(before, o.core.load, ps + [p])
      && o.ram == LoadWrite(ram, p.address, p.words)
  {
    hide Carried, Crc32Fold, LoadWrite, Progress, IsInWriteRegion;
    DataIsAccepted(c, ram, before, ps, p);
    WriteRegionMeaning(p.address, |p.words|);
    CarriedStep(ps, p);
    ProgressCrc(before, c.load, ps, p.words);
    AdvanceProgress(before, c.load, ps, p);
  }

  lemma ProgressCrc(before: RamLoad, load: RamLoad, ps: seq<Packet>, words: seq<Word>)
    requires Progress(before, load, ps)
    ensures Crc32Fold(load.crc32, words) == Crc32Fold(CRC32_INIT, Carried(ps) + words)
  {
    Crc32FoldConcat(CRC32_INIT, Carried(ps), words);
  }

  lemma DataIsAccepted(c: Core, ram: Ram, before: RamLoad, ps: seq<Packet>, p: Packet)
    requires Progress(before, c.load, ps) && Fits(p) && p.index == |ps|
    requires |ps| < before.expectedPackets && |Carried(ps)| + |p.words| <= before.expectedWords
    ensures var o := LoadData(c, ram, DataRequest(p));
      && o.status == OK
      && o.core.load == AdvanceLoad(c.load, p.address, p.words)
      && o.ram == LoadWrite(ram, p.address, p.words)
  {
    hide Carried, Crc32Fold, LoadWrite, IsInWriteRegion, DataRequest;
    DataRequestReads(p);
  }

  /** What an accepted data command does to RAM. */
  lemma DataWrites(c: Core, ram: Ram, p: Packet)
    requires Fits(p) && LoadData(c, ram, DataRequest(p)).status == OK
    ensures LoadData(c, ram, DataRequest(p)).ram == LoadWrite(ram, p.address, p.words)
  {
    hide LoadWrite, IsInWriteRegion, DataRequest;
    DataRequestReads(p);
  }

  lemma AdvanceProgress(before: RamLoad, load: RamLoad, ps: seq<Packet>, p: Packet)
    requires Progress(before, load, ps) && Fits(p) && p.index == |ps|
    requires |ps| < before.expectedPackets && |Carried(ps)| + |p.words| <= before.expectedWords
    requires p.address + |p.words| <= RAM_SIZE
    requires Carried(ps + [p]) == Carried(ps) + p.words
    requires Crc32Fold(load.crc32, p.words) == Crc32Fold(CRC32_INIT, Carried(ps + [p]))
    ensures Progress(before, AdvanceLoad(load, p.address, p.words), ps + [p])
  {
    hide Carried, Crc32Fold;
    var after, all := AdvanceLoad(load, p.address, p.words), ps + [p];
    forall k | 0 <= k < |all|
      ensures after.loadedStart <= all[k].address && all[k].address + |all[k].words| <= after.loadedEnd
    {
      if k < |ps| {
        assert all[k] == ps[k];
      }
    }
  }

  lemma {:induction false} SendsAll(c: Core, ram: Ram, ps: seq<Packet>)
    requires AllFit(ps) && Progress(c.load, c.load, [])
    requires |ps| <= c.load.expectedPackets && |Carried(ps)| <= c.load.expectedWords
    ensures var o := SendAll(c, ram, ps); o.status == OK && Progress(c.load, o.core.load, ps)
  {
    if ps == [] {
    } else {
      var front, last := ps[..|ps| - 1], ps[|ps| - 1];
      assert ps == front + [last];
      CarriedStep(front, last);
      SendsAll(c, ram, front);
      var o := SendAll(c, ram, front);
      SendOne(o.core, o.ram, c.load, front, last);
    }
  }

  // ---------------------------------------------------------------- memory

  predicate IsPublishWord(a: int) {
    PUBLISH_ADDRESS <= a < PUBLISH_ADDRESS + 2
  }

  lemma WriteMemory(ram: Ram, address: U32, data: seq<Word>, a: int)
    requires 0 < |data| < 0x1_0000 && IsInWriteRegion(address, |data|)
    requires 0 <= a < RAM_SIZE && !IsPublishWord(a)
    ensures LoadWrite(ram, address, data)[a] ==
            if address <= a < address + |data| then data[a - address] else ram[a]
  {
    WriteRegionMeaning(address, |data|);
  }

  /** Outside the publish words RAM holds exactly what the packets carried. */
  lemma {:induction false} SentMemory(c: Core, ram: Ram, ps: seq<Packet>, a: int)
    requires AllFit(ps) && SendAll(c, ram, ps).status == OK
    requires 0 <= a < RAM_SIZE && !IsPublishWord(a)
    ensures SendAll(c, ram, ps).ram[a] == WordAfter(ram, ps, a)
  {
    if ps == [] {
    } else {
      hide LoadData, LoadWrite, DataRequest, IsInWriteRegion, WordAfter;
      var last, o := ps[|ps| - 1], SendAll(c, ram, ps[..|ps| - 1]);
      assert SendAll(c, ram, ps) == LoadData(o.core, o.ram, DataRequest(last));
      SentMemory(c, ram, ps[..|ps| - 1], a);
      DataWrites(o.core, o.ram, last);
      WriteMemory(o.ram, last.address, last.words, a);
      WordAfterStep(ram, ps, a);
    }
  }

  /** RAM at `a` after the packets were written over it. */
  function WordAfter(ram: Ram, ps: seq<Packet>, a: int): Word
    requires 0 <= a < RAM_SIZE
  {
    if StoredAt(ps, a).Some? then StoredAt(ps, a).value else ram[a]
  }

  lemma WordAfterStep(ram: Ram, ps: seq<Packet>, a: int)
    requires ps != [] && 0 <= a < RAM_SIZE
    ensures var p := ps[|ps| - 1];
      WordAfter(ram, ps, a) == if p.address <= a < p.address + |p.words| then p.words[a - p.address]
                               else WordAfter(ram, ps[..|ps| - 1], a)
  {
  }

  lemma {:induction false} ChunksMemory(address: nat, words: seq<Word>, size: nat, first: nat, a: int)
    requires size > 0
    ensures StoredAt(Chunks(address, words, size, first), a) ==
            if address <= a < address + |words| then Some(words[a - address]) else None
    decreases |words|
  {
    if words == [] {
    } else {
      hide StoredAt;
      var n := Min(size, |words|);
      var head, tail := Packet(first, address, words[..n]), Chunks(address + n, words[n..], size, first + 1);
      ChunksMemory(address + n, words[n..], size, first + 1, a);
      StoredConcat([head], tail, a);
      StoredOne(head, a);
    }
  }

  /** The packets describe the memory of the blocks. */
  lemma {:induction false} PacketsMemory(bs: seq<FirmwareBlock>, size: nat, a: int)
    requires size > 0
    ensures StoredAt(PacketsOf(bs, size), a) == Lookup(bs, a)
  {
    if bs == [] {
    } else {
      var before, last := PacketsOf(bs[..|bs| - 1], size), bs[|bs| - 1];
      PacketsMemory(bs[..|bs| - 1], size, a);
      ChunksMemory(last.address, last.words, size, |before|, a);
      StoredConcat(before, Chunks(last.address, last.words, size, |before|), a);
    }
  }

  // ---------------------------------------------------------------- packets of writable blocks

  /** The block lies in one write region. */
  predicate Writable(b: FirmwareBlock) {
    WritableRange(b.address, |b.words|)
  }

  predicate AllWritable(bs: seq<FirmwareBlock>) {
    forall b :: b in bs ==> Writable(b)
  }

  /** The packets are numbered from `first` and each fits. */
  predicate NumberedFrom(ps: seq<Packet>, first: nat, size: nat) {
    forall k :: 0 <= k < |ps| ==>
      && ps[k].index == first + k
      && 0 < |ps[k].words| <= size
      && WritableRange(ps[k].address, |ps[k].words|)
  }

  lemma PartIsWritable(address: int, count: int, from: nat, n: nat)
    requires WritableRange(address, count) && n > 0 && from + n <= count
    ensures WritableRange(address + from, n)
  {
    WriteRegionMeaning(address, count);
  }

  lemma {:induction false} ChunksFit(address: nat, words: seq<Word>, size: nat, first: nat)
    requires size > 0 && words != [] && WritableRange(address, |words|)
    ensures NumberedFrom(Chunks(address, words, size, first), first, size)
    decreases |words|
  {
    hide WritableRange;
    var n := Min(size, |words|);
    var tail := Chunks(address + n, words[n..], size, first + 1);
    PartIsWritable(address, |words|, 0, n);
    if n < |words| {
      PartIsWritable(address, |words|, n, |words| - n);
      ChunksFit(address + n, words[n..], size, first + 1);
    } else {
      assert words[n..] == [];
    }
  }

  lemma NumberedConcat(x: seq<Packet>, y: seq<Packet>, size: nat)
    requires NumberedFrom(x, 0, size) && NumberedFrom(y, |x|, size)
    ensures NumberedFrom(x + y, 0, size)
  {
  }

  lemma {:induction false} PacketsFit(bs: seq<FirmwareBlock>, size: nat)
    requires size > 0 && AllWritable(bs)
    ensures NumberedFrom(PacketsOf(bs, size), 0, size)
  {
    hide WritableRange;
    if bs == [] {
    } else {
      var before, last := PacketsOf(bs[..|bs| - 1], size), bs[|bs| - 1];
      assert last in bs && Writable(last);
      PacketsFit(bs[..|bs| - 1], size);
      ChunksFit(last.address, last.words, size, |before|);
      NumberedConcat(before, Chunks(last.address, last.words, size, |before|), size);
    }
  }

  lemma CarriedLast(ps: seq<Packet>)
    requires ps != []
    ensures |Carried(ps)| == |Carried(ps[..|ps| - 1])| + |ps[|ps| - 1].words|
  {
  }

  lemma {:induction false} CarriedBounded(ps: seq<Packet>, size: nat)
    requires forall k :: 0 <= k < |ps| ==> |ps[k].words| <= size
    ensures |Carried(ps)| <= |ps| * size
  {
    if ps == [] {
    } else {
      hide Carried;
      CarriedBounded(ps[..|ps| - 1], size);
      CarriedLast(ps);
      assert (|ps| - 1) * size + size == |ps| * size;
    }
  }

  /** Some packet starts at the block's address, some packet ends at its end. */
  lemma {:induction false} ChunksSpan(address: nat, words: seq<Word>, size: nat, first: nat)
    requires size > 0 && words != []
    ensures var cs := Chunks(address, words, size, first);
      && cs != [] && cs[0].address == address
      && cs[|cs| - 1].address + |cs[|cs| - 1].words| == address + |words|
    decreases |words|
  {
    var n := Min(size, |words|);
    if n < |words| {
      ChunksSpan(address + n, words[n..], size, first + 1);
    } else {
      assert words[n..] == [];
    }
  }

  /** The loaded span covers every block. */
  predicate SpanCovers(load: RamLoad, b: FirmwareBlock) {
    load.loadedStart <= b.address && End(b) <= load.loadedEnd
  }

  predicate SpanCoversPackets(load: RamLoad, ps: seq<Packet>) {
    forall k :: 0 <= k < |ps| ==> load.loadedStart <= ps[k].address && ps[k].address + |ps[k].words| <= load.loadedEnd
  }

  lemma {:induction false} SpanOfPackets(load: RamLoad, bs: seq<FirmwareBlock>, size: nat, b: FirmwareBlock)
    requires size > 0 && SpanCoversPackets(load, PacketsOf(bs, size)) && b in bs
    ensures SpanCovers(load, b)
  {
    var front, last := bs[..|bs| - 1], bs[|bs| - 1];
    var before := PacketsOf(front, size);
    var cs := Chunks(last.address, last.words, size, |before|);
    var ps := PacketsOf(bs, size);
    assert ps == before + cs;
    if b == last {
      ChunksSpan(last.address, last.words, size, |before|);
      assert ps[|before|] == cs[0] && ps[|ps| - 1] == cs[|cs| - 1];
    } else {
      assert forall k :: 0 <= k < |before| ==> before[k] == ps[k];
      assert b in front;
      SpanOfPackets(load, front, size, b);
    }
  }
}
