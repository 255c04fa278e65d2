/** The padded packets of an image: they never overlap, and they are few enough. */
module PcPackets {
  import opened Words
  import opened Protocol
  import opened Firmware
  import opened Packets
  import opened Record
  import opened FlashPort
  import opened FlashTransfer
  import opened Sectors

  /** The merged blocks of an image, in address order. */
  function MergedBlocks(image: FirmwareImage): seq<FirmwareBlock> {
    Merge(SortByAddress(image.blocks))
  }

  /** What `_prepare_packets` makes of an image. */
  function PacketsOfImage(image: FirmwareImage, size: nat): seq<Packet>
    requires size > 0
  {
    PaddedPacketsOf(MergedBlocks(image), size)
  }

  // ---------------------------------------------------------------- merged blocks

  predicate InSequence(bs: seq<FirmwareBlock>) {
    forall i, k :: 0 <= i < k < |bs| ==> End(bs[i]) <= bs[k].address
  }

  /** The blocks so far end by `limit`, the last one exactly there. */
  predicate EndsAt(bs: seq<FirmwareBlock>, limit: int) {
    bs != [] && End(bs[|bs| - 1]) == limit
  }

  lemma MergeStepInSequence(merged: seq<FirmwareBlock>, b: FirmwareBlock)
    requires InSequence(merged) && (merged != [] ==> End(merged[|merged| - 1]) <= b.address)
    ensures InSequence(MergeStep(merged, b)) && EndsAt(MergeStep(merged, b), End(b))
  {
    var r := MergeStep(merged, b);
    forall i, k | 0 <= i < k < |r|
      ensures End(r[i]) <= r[k].address
    {
      if k < |merged| {
        assert End(merged[i]) <= merged[k].address;
      } else if i < |merged| - 1 {
        assert End(merged[i]) <= merged[|merged| - 1].address;
      }
    }
  }

  /** Merging keeps the order of the blocks and the end of the last one. */
  lemma {:induction false} MergeInSequence(sorted: seq<FirmwareBlock>)
    requires InSequence(sorted)
    ensures InSequence(Merge(sorted))
    ensures if sorted == [] then Merge(sorted) == [] else EndsAt(Merge(sorted), End(sorted[|sorted| - 1]))
  {
    if sorted == [] {
    } else {
      hide MergeStep;
      var front, last := sorted[..|sorted| - 1], sorted[|sorted| - 1];
      assert forall k :: 0 <= k < |front| ==> front[k] == sorted[k];
      MergeInSequence(front);
      MergeStepInSequence(Merge(front), last);
    }
  }

  lemma SortedInSequence(image: FirmwareImage)
    ensures InSequence(SortByAddress(image.blocks))
  {
    hide SortByAddress;
    var sorted := SortByAddress(image.blocks);
    SortOrders(image.blocks);
    SortKeepsDisjoint(image.blocks);
    NeighboursOfOrdered(sorted);
    forall i, k | 0 <= i < k < |sorted|
      ensures End(sorted[i]) <= sorted[k].address
    {
      NeighboursReachFar(sorted, i, k);
    }
  }

  lemma ImageInSequence(image: FirmwareImage)
    ensures InSequence(MergedBlocks(image))
  {
    hide SortByAddress, Merge;
    SortedInSequence(image);
    MergeInSequence(SortByAddress(image.blocks));
  }

  /** Between any two blocks lies at least one free address. */
  predicate Gapped(bs: seq<FirmwareBlock>) {
    forall k :: 0 <= k < |bs| - 1 ==> bs[k].address + |bs[k].words| < bs[k + 1].address
  }

  lemma {:induction false} MergeLeavesGaps(sorted: seq<FirmwareBlock>)
    requires InSequence(sorted)
    ensures Gapped(Merge(sorted))
  {
    if sorted != [] {
      hide Merge;
      var front, last := sorted[..|sorted| - 1], sorted[|sorted| - 1];
      assert forall k :: 0 <= k < |front| ==> front[k] == sorted[k];
      MergeLeavesGaps(front);
      MergeInSequence(front);
      MergeUnfold(sorted);
      MergeStepLeavesGaps(Merge(front), last);
    } else {
      assert Merge(sorted) == [];
    }
  }

  lemma MergeUnfold(sorted: seq<FirmwareBlock>)
    requires sorted != []
    ensures Merge(sorted) == MergeStep(Merge(sorted[..|sorted| - 1]), sorted[|sorted| - 1])
  {
  }

  lemma MergeStepLeavesGaps(merged: seq<FirmwareBlock>, b: FirmwareBlock)
    requires Gapped(merged) && (merged != [] ==> End(merged[|merged| - 1]) <= b.address)
    ensures Gapped(MergeStep(merged, b))
  {
  }

  /** What merging makes of an image: the same memory, in ascending blocks with a gap
      between any two, so each block is a stretch as long as it can be. */
  lemma MergedExactly(image: FirmwareImage, a: int)
    ensures Gapped(MergedBlocks(image))
    ensures Lookup(MergedBlocks(image), a) == Lookup(image.blocks, a)
  {
    hide SortByAddress, Merge;
    SortedInSequence(image);
    MergeLeavesGaps(SortByAddress(image.blocks));
    MergeKeepsMemory(SortByAddress(image.blocks), a);
    SortKeepsMemory(image.blocks, a);
  }

  // ---------------------------------------------------------------- packets do not overlap

  function PacketEnd(p: Packet): nat {
    p.address + |p.words|
  }

  predicate Ascending(ps: seq<Packet>) {
    forall i, k :: 0 <= i < k < |ps| ==> PacketEnd(ps[i]) <= ps[k].address
  }

  /** All packets are in units of eight words and end before `limit` rounded up. */
  predicate Aligned(ps: seq<Packet>) {
    forall k :: 0 <= k < |ps| ==> ps[k].address % ALIGNMENT == 0 && |ps[k].words| % ALIGNMENT == 0
  }

  predicate EndBelow(ps: seq<Packet>, limit: int) {
    forall k :: 0 <= k < |ps| ==> PacketEnd(ps[k]) < limit
  }

  lemma ChunksAscend(b: FirmwareBlock, size: nat, first: nat)
    requires size > 0 && size % ALIGNMENT == 0
    ensures var ps := PaddedChunks(b.address, b.words, size, first);
      && Ascending(ps) && EndBelow(ps, End(b) + ALIGNMENT)
      && ps != [] && ps[0].address == b.address
      && forall k :: 0 <= k < |ps| ==> b.address <= ps[k].address && |ps[k].words| % ALIGNMENT == 0
  {
    hide PaddedChunks;
    var ps := PaddedChunks(b.address, b.words, size, first);
    ProductGrows(0, 0, size);
    ChunkCount(b.address, b.words, size, first, 0);
    ChunkSpan(b.address, b.words, size, first, 0);
    forall k | 0 <= k < |ps|
      ensures b.address <= ps[k].address && |ps[k].words| % ALIGNMENT == 0 && PacketEnd(ps[k]) < End(b) + ALIGNMENT
    {
      ChunkSpan(b.address, b.words, size, first, k);
      ProductGrows(0, k, size);
    }
    forall i, k | 0 <= i < k < |ps|
      ensures PacketEnd(ps[i]) <= ps[k].address
    {
      ChunkSpan(b.address, b.words, size, first, i);
      ChunkSpan(b.address, b.words, size, first, k);
      ProductGrows(i + 1, k, size);
      assert (i + 1) * size == i * size + size;
    }
  }

  lemma AscendConcat(x: seq<Packet>, y: seq<Packet>, limit: int, start: nat)
    requires Ascending(x) && Ascending(y) && Aligned(x) && EndBelow(x, limit + ALIGNMENT)
    requires limit <= start && start % ALIGNMENT == 0 && forall k :: 0 <= k < |y| ==> start <= y[k].address
    ensures Ascending(x + y)
  {
    var s := x + y;
    forall i, k | 0 <= i < k < |s|
      ensures PacketEnd(s[i]) <= s[k].address
    {
      if k < |x| {
        assert PacketEnd(x[i]) <= x[k].address;
      } else if i >= |x| {
        assert PacketEnd(y[i - |x|]) <= y[k - |x|].address;
      } else {
        RoundsDown(PacketEnd(x[i]), limit, start);
      }
    }
  }

  lemma RoundsDown(end: nat, limit: int, start: nat)
    requires end % ALIGNMENT == 0 && start % ALIGNMENT == 0 && end < limit + ALIGNMENT && limit <= start
    ensures end <= start
  {
  }

  /** Padding never reaches another packet: blocks are in order, only the last packet of a
      block is padded, and an aligned start of the next block leaves room for it. */
  lemma {:induction false} PacketsAscend(bs: seq<FirmwareBlock>, size: nat)
    requires size > 0 && size % ALIGNMENT == 0 && InSequence(bs) && AddressesAligned(PaddedPacketsOf(bs, size))
    ensures var ps := PaddedPacketsOf(bs, size);
      && Ascending(ps) && Aligned(ps)
      && (bs == [] ==> ps == []) && (bs != [] ==> EndBelow(ps, End(bs[|bs| - 1]) + ALIGNMENT))
  {
    if bs == [] {
    } else {
      hide PaddedChunks, Ascending, Aligned, EndBelow;
      var front, last := bs[..|bs| - 1], bs[|bs| - 1];
      var before := PaddedPacketsOf(front, size);
      assert PaddedPacketsOf(bs, size) == before + PaddedChunks(last.address, last.words, size, |before|);
      assert forall k :: 0 <= k < |before| ==> before[k] == PaddedPacketsOf(bs, size)[k];
      assert forall k :: 0 <= k < |front| ==> front[k] == bs[k];
      PacketsAscend(front, size);
      BlockBehind(before, last, size, if front == [] then last.address else End(front[|front| - 1]));
    }
  }

  /** The packets of one more block behind those of the blocks before it. */
  lemma BlockBehind(before: seq<Packet>, b: FirmwareBlock, size: nat, limit: int)
    requires size > 0 && size % ALIGNMENT == 0 && limit <= b.address
    requires Ascending(before) && Aligned(before) && (before == [] || EndBelow(before, limit + ALIGNMENT))
    requires AddressesAligned(before + PaddedChunks(b.address, b.words, size, |before|))
    ensures var ps := before + PaddedChunks(b.address, b.words, size, |before|);
      Ascending(ps) && Aligned(ps) && EndBelow(ps, End(b) + ALIGNMENT)
  {
    hide PaddedChunks, Ascending;
    var chunks := PaddedChunks(b.address, b.words, size, |before|);
    ChunksAscend(b, size, |before|);
    assert forall k :: 0 <= k < |chunks| ==> chunks[k] == (before + chunks)[|before| + k];
    AscendConcat(before, chunks, limit, b.address);
  }

  predicate AddressesAligned(ps: seq<Packet>) {
    forall k :: 0 <= k < |ps| ==> ps[k].address % ALIGNMENT == 0
  }

  /** Packets of an image that start aligned share no address. */
  lemma ImagePacketsApart(image: FirmwareImage, size: nat)
    requires size > 0 && size % ALIGNMENT == 0 && AddressesAligned(PacketsOfImage(image, size))
    ensures PacketsApart(PacketsOfImage(image, size)) && Ascending(PacketsOfImage(image, size))
  {
    hide MergedBlocks, PaddedPacketsOf;
    ImageInSequence(image);
    PacketsAscend(MergedBlocks(image), size);
  }

  // ---------------------------------------------------------------- there are few of them

  lemma {:induction false} AscendingReach(ps: seq<Packet>, k: nat)
    requires Ascending(ps) && AllFit(ps) && k < |ps|
    requires forall i :: 0 <= i < |ps| ==> |ps[i].words| >= ALIGNMENT
    ensures ps[k].address >= APP_START + ALIGNMENT * k
  {
    hide Placed;
    assert Fits(ps[k]);
    PlacedInApp(ps[k]);
    if k > 0 {
      AscendingReach(ps, k - 1);
      assert PacketEnd(ps[k - 1]) <= ps[k].address;
    }
  }

  /** The App area has no room for more packets than the protocol can count. */
  lemma FewPackets(ps: seq<Packet>)
    requires Ascending(ps) && AllFit(ps)
    requires forall i :: 0 <= i < |ps| ==> |ps[i].words| >= ALIGNMENT
    ensures |ps| <= MAX_PACKETS
  {
    if ps != [] {
      hide Placed;
      var k := |ps| - 1;
      AscendingReach(ps, k);
      assert Fits(ps[k]);
      PlacedInApp(ps[k]);
    }
  }
}
