/** Splitting images into protocol packets: merged, unmerged and padded, and what does
    not depend on the packet size. */
module Packets {
  import opened Words
  import opened Crc
  import opened Protocol
  import opened Firmware

  const ALIGNMENT := 8
  const PAD_WORD: Word := 0xFFFF
  const MAX_PACKETS := 0xFFFF

  function Min(a: nat, b: nat): nat {
    if a < b then a else b
  }

  // ---------------------------------------------------------------- one block

  /** The words from `address` on in pieces of at most `size`, numbered from `first`. */
  function Chunks(address: nat, words: seq<Word>, size: nat, first: nat): seq<Packet>
    requires size > 0
    decreases |words|
  {
    if words == [] then []
    else
      var n := Min(size, |words|);
      [Packet(first, address, words[..n])] + Chunks(address + n, words[n..], size, first + 1)
  }

  datatype Packet = Packet(index: nat, address: nat, words: seq<Word>)

  /** The payloads, one after the other. */
  function Carried(ps: seq<Packet>): seq<Word> {
    if ps == [] then [] else Carried(ps[..|ps| - 1]) + ps[|ps| - 1].words
  }

  lemma {:induction false} CarriedConcat(a: seq<Packet>, b: seq<Packet>)
    ensures Carried(a + b) == Carried(a) + Carried(b)
  {
    if b == [] {
      assert a + b == a;
    } else {
      assert (a + b)[..|a + b| - 1] == a + b[..|b| - 1];
      CarriedConcat(a, b[..|b| - 1]);
    }
  }

  lemma CarriedOne(p: Packet)
    ensures Carried([p]) == p.words
  {
    assert [p][..0] == [];
  }

  /** Nothing is lost, repeated or reordered, whatever the packet size. */
  lemma {:induction false} ChunksCarryWords(address: nat, words: seq<Word>, size: nat, first: nat)
    requires size > 0
    ensures Carried(Chunks(address, words, size, first)) == words
    decreases |words|
  {
    if words == [] {
    } else {
      var n := Min(size, |words|);
      var head, tail := Packet(first, address, words[..n]), Chunks(address + n, words[n..], size, first + 1);
      ChunksCarryWords(address + n, words[n..], size, first + 1);
      CarriedConcat([head], tail);
      CarriedOne(head);
    }
  }

  /** The pieces one by one: as many as there are starts within the words, each full but
      perhaps the last, numbered and placed in turn. */
  lemma {:induction false} ChunkAt(address: nat, words: seq<Word>, size: nat, first: nat, k: nat, at: nat)
    requires size > 0 && at == k * size
    ensures var ps := Chunks(address, words, size, first);
      && (k < |ps| <==> at < |words|)
      && (k < |ps| ==> ps[k] == Packet(first + k, address + at, words[at..Min(at + size, |words|)]))
    decreases |words|
  {
    hide Chunks;
    Multiples(k, size);
    if words == [] {
      ChunksOfNothing(address, size, first);
    } else {
      ChunksStep(address, words, size, first);
      if k > 0 && size <= |words| {
        ChunkAt(address + size, words[size..], size, first + 1, k - 1, at - size);
        if at < |words| {
          TailSlice(words, size, at, Min(at + size, |words|));
        }
      } else if k > 0 {
        assert words[|words|..] == [];
        ChunksOfNothing(address + |words|, size, first + 1);
      }
    }
  }

  lemma TailSlice(words: seq<Word>, n: nat, from: nat, to: nat)
    requires n <= from <= to <= |words|
    ensures words[n..][from - n..to - n] == words[from..to]
  {
  }

  lemma Multiples(k: nat, size: nat)
    ensures k * size >= 0
    ensures k > 0 ==> k * size >= size && (k - 1) * size == k * size - size
  {
  }

  // ---------------------------------------------------------------- as data commands

  /** The packet fits a data command. */
  predicate Sendable(p: Packet) {
    |p.words| <= MAX_DATA && p.index < 0x1_0000 && p.address < 0x1_0000_0000
  }

  /** The payload of the data command for a packet. */
  function DataRequest(p: Packet): Payload
    requires Sendable(p)
  {
    [Low(p.address), High(p.address), |p.words|, Low(p.index), High(p.index)] + p.words
  }

  lemma DataRequestReads(p: Packet)
    requires Sendable(p)
    ensures var r := DataRequest(p);
      && |r| == 5 + |p.words| && Join(r[0], r[1]) == p.address && r[2] == |p.words|
      && Join(r[3], r[4]) == p.index && r[5..] == p.words
  {
    JoinSplit(p.address);
    JoinSplit(p.index);
  }

  // ---------------------------------------------------------------- as memory

  /** The word the packets put at an address; later packets win. */
  function StoredAt(ps: seq<Packet>, a: int): Option<Word> {
    if ps == [] then None
    else
      var p := ps[|ps| - 1];
      if p.address <= a < p.address + |p.words| then Some(p.words[a - p.address])
      else StoredAt(ps[..|ps| - 1], a)
  }

  lemma {:induction false} StoredConcat(x: seq<Packet>, y: seq<Packet>, a: int)
    ensures StoredAt(x + y, a) == if StoredAt(y, a).Some? then StoredAt(y, a) else StoredAt(x, a)
  {
    if y == [] {
      assert x + y == x;
    } else {
      assert (x + y)[..|x + y| - 1] == x + y[..|y| - 1];
      StoredConcat(x, y[..|y| - 1], a);
    }
  }

  lemma StoredOne(p: Packet, a: int)
    ensures StoredAt([p], a) ==
            if p.address <= a < p.address + |p.words| then Some(p.words[a - p.address]) else None
  {
    assert [p][..0] == [];
  }

  // ---------------------------------------------------------------- all blocks

  /** The words of the blocks, in the order given. */
  function WordsIn(bs: seq<FirmwareBlock>): seq<Word> {
    if bs == [] then [] else WordsIn(bs[..|bs| - 1]) + bs[|bs| - 1].words
  }

  function PacketsOf(bs: seq<FirmwareBlock>, size: nat): seq<Packet>
    requires size > 0
  {
    if bs == [] then []
    else
      var before, last := PacketsOf(bs[..|bs| - 1], size), bs[|bs| - 1];
      before + Chunks(last.address, last.words, size, |before|)
  }

  /** The packets carry the block words, for every packet size. */
  lemma {:induction false} PacketsCarryWords(bs: seq<FirmwareBlock>, size: nat)
    requires size > 0
    ensures Carried(PacketsOf(bs, size)) == WordsIn(bs)
  {
    if bs == [] {
    } else {
      var before, last := PacketsOf(bs[..|bs| - 1], size), bs[|bs| - 1];
      PacketsCarryWords(bs[..|bs| - 1], size);
      ChunksCarryWords(last.address, last.words, size, |before|);
      CarriedConcat(before, Chunks(last.address, last.words, size, |before|));
    }
  }

  /** The Flash Service packetiser: every block on its own; a packet size of zero raises. */
  method PrepareServiceRamPackets(image: FirmwareImage, size: nat) returns (r: Option<seq<Packet>>)
    ensures var ps := if size == 0 then [] else PacketsOf(SortByAddress(image.blocks), size);
      r == if size == 0 || |ps| > MAX_PACKETS then None else Some(ps)
  {
    if size == 0 {
      return None;
    }
    var sorted := SortByAddress(image.blocks);
    var packets: seq<Packet> := [];
    for k := 0 to |sorted|
      invariant packets == PacketsOf(sorted[..k], size)
    {
      assert sorted[..k + 1][..k] == sorted[..k];
      packets := AppendChunks(packets, sorted[k], size);
    }
    assert sorted[..|sorted|] == sorted;
    return if |packets| > MAX_PACKETS then None else Some(packets);
  }

  lemma ChunksStep(address: nat, words: seq<Word>, size: nat, first: nat)
    requires size > 0 && words != []
    ensures var n := Min(size, |words|);
      Chunks(address, words, size, first) ==
      [Packet(first, address, words[..n])] + Chunks(address + n, words[n..], size, first + 1)
  {
  }

  lemma ChunksOfNothing(address: nat, size: nat, first: nat)
    requires size > 0
    ensures Chunks(address, [], size, first) == []
    ensures PaddedChunks(address, [], size, first) == []
  {
  }

  /** The inner loop of the packetisers. */
  method AppendChunks(before: seq<Packet>, b: FirmwareBlock, size: nat) returns (packets: seq<Packet>)
    requires size > 0
    ensures packets == before + Chunks(b.address, b.words, size, |before|)
  {
    hide Chunks;
    packets := before;
    var offset := 0;
    while offset < |b.words|
      invariant offset <= |b.words|
      invariant before + Chunks(b.address, b.words, size, |before|) ==
                packets + Chunks(b.address + offset, b.words[offset..], size, |packets|)
    {
      var n := Min(size, |b.words| - offset);
      var data := b.words[offset..offset + n];
      ChunksStep(b.address + offset, b.words[offset..], size, |packets|);
      assert b.words[offset..][..n] == data && b.words[offset..][n..] == b.words[offset + n..];
      packets := packets + [Packet(|packets|, b.address + offset, data)];
      offset := offset + n;
    }
    assert b.words[offset..] == [];
    ChunksOfNothing(b.address + offset, size, |packets|);
  }

  // ---------------------------------------------------------------- merging

  predicate Touches(a: FirmwareBlock, b: FirmwareBlock) {
    End(a) == b.address
  }

  /** Adds a block behind a list, extending the last block when they touch. */
  function MergeStep(merged: seq<FirmwareBlock>, b: FirmwareBlock): seq<FirmwareBlock> {
    if merged != [] && Touches(merged[|merged| - 1], b) then
      var last := merged[|merged| - 1];
      merged[..|merged| - 1] + [BlockData(last.address, last.words + b.words)]
    else merged + [b]
  }

  /** Neighbouring blocks without a gap become one. */
  function Merge(sorted: seq<FirmwareBlock>): seq<FirmwareBlock> {
    if sorted == [] then [] else MergeStep(Merge(sorted[..|sorted| - 1]), sorted[|sorted| - 1])
  }

  lemma MergeOne(b: FirmwareBlock)
    ensures Merge([b]) == [b]
  {
    assert [b][..0] == [];
  }

  lemma MergeStepCases(merged: seq<FirmwareBlock>, last: FirmwareBlock, b: FirmwareBlock)
    ensures MergeStep(merged + [last], b) ==
            if Touches(last, b) then merged + [BlockData(last.address, last.words + b.words)] else merged + [last] + [b]
  {
    assert (merged + [last])[..|merged|] == merged;
  }

  method MergeContiguous(bs: seq<FirmwareBlock>) returns (merged: seq<FirmwareBlock>)
    ensures merged == Merge(SortByAddress(bs))
  {
    hide MergeStep, SortByAddress, Ordered;
    SortOrders(bs);
    if bs == [] {
      assert SortByAddress(bs) == [];
      return [];
    }
    var ordered := SortByAddress(bs);
    merged := [];
    var address: U32, words: seq<Word> := ordered[0].address, ordered[0].words;
    MergeOne(ordered[0]);
    assert ordered[..1] == [ordered[0]];
    for k := 1 to |ordered|
      invariant words != [] && merged + [BlockData(address, words)] == Merge(ordered[..k])
    {
      var block := ordered[k];
      assert ordered[..k + 1][..k] == ordered[..k];
      MergeStepCases(merged, BlockData(address, words), block);
      if address + |words| == block.address {
        words := words + block.words;
      } else {
        merged := merged + [BlockData(address, words)];
        address, words := block.address, block.words;
      }
    }
    assert ordered[..|ordered|] == ordered;
    merged := merged + [BlockData(address, words)];
  }

  lemma MergeStepMemory(merged: seq<FirmwareBlock>, b: FirmwareBlock, a: int)
    ensures Lookup(MergeStep(merged, b), a) == if Covers(b, a) then Some(WordIn(b, a)) else Lookup(merged, a)
  {
    if merged != [] && Touches(merged[|merged| - 1], b) {
      var front, last := merged[..|merged| - 1], merged[|merged| - 1];
      var joined: FirmwareBlock := BlockData(last.address, last.words + b.words);
      assert MergeStep(merged, b) == front + [joined];
      LookupConcat(front, [joined], a);
      LookupOne(joined, a);
      assert merged == front + [last];
      LookupConcat(front, [last], a);
      LookupOne(last, a);
    } else {
      LookupConcat(merged, [b], a);
      LookupOne(b, a);
    }
  }

  lemma {:induction false} MergeKeepsMemory(sorted: seq<FirmwareBlock>, a: int)
    ensures Lookup(Merge(sorted), a) == Lookup(sorted, a)
  {
    if sorted == [] {
    } else {
      MergeKeepsMemory(sorted[..|sorted| - 1], a);
      MergeStepMemory(Merge(sorted[..|sorted| - 1]), sorted[|sorted| - 1], a);
    }
  }

  lemma MergeStepWords(merged: seq<FirmwareBlock>, b: FirmwareBlock)
    ensures WordsIn(MergeStep(merged, b)) == WordsIn(merged) + b.words
  {
    var r := MergeStep(merged, b);
    if merged != [] && Touches(merged[|merged| - 1], b) {
      assert r[..|r| - 1] == merged[..|merged| - 1];
    } else {
      assert r[..|r| - 1] == merged;
    }
  }

  /** Merging keeps the words and their order. */
  lemma {:induction false} MergeKeepsWords(sorted: seq<FirmwareBlock>)
    ensures WordsIn(Merge(sorted)) == WordsIn(sorted)
  {
    if sorted == [] {
    } else {
      MergeKeepsWords(sorted[..|sorted| - 1]);
      MergeStepWords(Merge(sorted[..|sorted| - 1]), sorted[|sorted| - 1]);
    }
  }

  /** The RAM packetiser: merged blocks. Its loop does not end for a packet size of zero. */
  method PrepareRamPackets(image: FirmwareImage, size: nat) returns (r: Option<seq<Packet>>)
    requires size > 0
    ensures var ps := PacketsOf(Merge(SortByAddress(image.blocks)), size);
      r == if |ps| > MAX_PACKETS then None else Some(ps)
  {
    var merged := MergeContiguous(image.blocks);
    var packets: seq<Packet> := [];
    for k := 0 to |merged|
      invariant packets == PacketsOf(merged[..k], size)
    {
      assert merged[..k + 1][..k] == merged[..k];
      packets := AppendChunks(packets, merged[k], size);
    }
    assert merged[..|merged|] == merged;
    return if |packets| > MAX_PACKETS then None else Some(packets);
  }

  /** The CRC of an image load depends neither on the packet size nor on merging. */
  lemma RamCrcIsIndependent(image: FirmwareImage, size: nat, size': nat)
    requires size > 0 && size' > 0
    ensures var sorted := SortByAddress(image.blocks);
      && Crc32Of(Carried(PacketsOf(sorted, size))) == Crc32Of(WordsIn(sorted))
      && Crc32Of(Carried(PacketsOf(Merge(sorted), size'))) == Crc32Of(WordsIn(sorted))
  {
    var sorted := SortByAddress(image.blocks);
    PacketsCarryWords(sorted, size);
    PacketsCarryWords(Merge(sorted), size');
    MergeKeepsWords(sorted);
  }

  // ---------------------------------------------------------------- padding

  function Padding(n: nat): seq<Word> {
    seq(n, _ => PAD_WORD)
  }

  /** `pad_write_data`: fill up to a multiple of eight words. */
  function Pad(words: seq<Word>): seq<Word> {
    words + Padding((ALIGNMENT - |words| % ALIGNMENT) % ALIGNMENT)
  }

  function PaddedChunks(address: nat, words: seq<Word>, size: nat, first: nat): seq<Packet>
    requires size > 0
    decreases |words|
  {
    if words == [] then []
    else
      var n := Min(size, |words|);
      [Packet(first, address, Pad(words[..n]))] + PaddedChunks(address + n, words[n..], size, first + 1)
  }

  function PaddedPacketsOf(bs: seq<FirmwareBlock>, size: nat): seq<Packet>
    requires size > 0
  {
    if bs == [] then []
    else
      var before, last := PaddedPacketsOf(bs[..|bs| - 1], size), bs[|bs| - 1];
      before + PaddedChunks(last.address, last.words, size, |before|)
  }

  lemma PaddedChunksStep(address: nat, words: seq<Word>, size: nat, first: nat)
    requires size > 0 && words != []
    ensures var n := Min(size, |words|);
      PaddedChunks(address, words, size, first) ==
      [Packet(first, address, Pad(words[..n]))] + PaddedChunks(address + n, words[n..], size, first + 1)
  {
  }

  /** The inner loop of the Flash packetiser. */
  method AppendPaddedChunks(before: seq<Packet>, b: FirmwareBlock, size: nat) returns (packets: seq<Packet>)
    requires size > 0
    ensures packets == before + PaddedChunks(b.address, b.words, size, |before|)
  {
    hide Pad, PaddedChunks;
    packets := before;
    var offset := 0;
    while offset < |b.words|
      invariant offset <= |b.words|
      invariant before + PaddedChunks(b.address, b.words, size, |before|) ==
                packets + PaddedChunks(b.address + offset, b.words[offset..], size, |packets|)
    {
      var n := Min(size, |b.words| - offset);
      var raw := b.words[offset..offset + n];
      PaddedChunksStep(b.address + offset, b.words[offset..], size, |packets|);
      assert b.words[offset..][..n] == raw && b.words[offset..][n..] == b.words[offset + n..];
      packets := packets + [Packet(|packets|, b.address + offset, Pad(raw))];
      offset := offset + n;
    }
    assert b.words[offset..] == [];
    ChunksOfNothing(b.address + offset, size, |packets|);
  }

  /** The Flash packetiser. Padding needs a packet size that is a multiple of eight:
      otherwise `pad_write_data` raises. */
  method PreparePackets(image: FirmwareImage, size: nat) returns (r: Option<seq<Packet>>)
    ensures var ps := if size == 0 then [] else PaddedPacketsOf(Merge(SortByAddress(image.blocks)), size);
      r == if size == 0 || size % ALIGNMENT != 0 || |ps| > MAX_PACKETS then None else Some(ps)
  {
    if size == 0 || size % ALIGNMENT != 0 {
      return None;
    }
    var merged := MergeContiguous(image.blocks);
    var packets: seq<Packet> := [];
    for k := 0 to |merged|
      invariant packets == PaddedPacketsOf(merged[..k], size)
    {
      assert merged[..k + 1][..k] == merged[..k];
      packets := AppendPaddedChunks(packets, merged[k], size);
    }
    assert merged[..|merged|] == merged;
    return if |packets| > MAX_PACKETS then None else Some(packets);
  }

  /** Every block padded once. */
  function PaddedWordsIn(bs: seq<FirmwareBlock>): seq<Word> {
    if bs == [] then [] else PaddedWordsIn(bs[..|bs| - 1]) + Pad(bs[|bs| - 1].words)
  }

  /** Padding adds fewer than eight words of 0xFFFF, up to the next multiple of eight. */
  lemma PadMeans(words: seq<Word>)
    ensures var p := Pad(words);
      && |p| % 8 == 0 && |words| <= |p| < |words| + 8 && p[..|words|] == words
      && forall k :: |words| <= k < |p| ==> p[k] == 0xFFFF
  {
  }

  lemma PadBehindFull(full: seq<Word>, rest: seq<Word>)
    requires |full| % ALIGNMENT == 0
    ensures Pad(full) == full
    ensures Pad(full + rest) == full + Pad(rest)
  {
    assert |full + rest| % ALIGNMENT == |rest| % ALIGNMENT;
  }

  /** Cutting off a piece of a multiple of eight words, or all of them. */
  lemma PadSplit(words: seq<Word>, n: nat)
    requires n <= |words| && (n % ALIGNMENT == 0 || n == |words|)
    ensures Pad(words) == Pad(words[..n]) + Pad(words[n..])
    ensures n < |words| ==> |Pad(words)| == n + |Pad(words[n..])|
  {
    hide Pad;
    assert words == words[..n] + words[n..];
    if n % ALIGNMENT == 0 {
      PadBehindFull(words[..n], words[n..]);
    } else {
      assert words[n..] == [] && words[..n] == words;
      PadBehindFull([], []);
    }
  }

  /** For a packet size that is a multiple of eight only the last packet of a block is
      padded. */
  lemma {:induction false} PaddedChunksCarryWords(address: nat, words: seq<Word>, size: nat, first: nat)
    requires size > 0 && size % ALIGNMENT == 0
    ensures Carried(PaddedChunks(address, words, size, first)) == Pad(words)
    decreases |words|
  {
    if words == [] {
      assert Pad([]) == [];
    } else {
      hide Pad, Carried;
      var n := Min(size, |words|);
      var head := Packet(first, address, Pad(words[..n]));
      var tail := PaddedChunks(address + n, words[n..], size, first + 1);
      PaddedChunksCarryWords(address + n, words[n..], size, first + 1);
      CarriedConcat([head], tail);
      CarriedOne(head);
      PadSplit(words, n);
    }
  }

  lemma {:induction false} PaddedPacketsCarryWords(bs: seq<FirmwareBlock>, size: nat)
    requires size > 0 && size % ALIGNMENT == 0
    ensures Carried(PaddedPacketsOf(bs, size)) == PaddedWordsIn(bs)
  {
    if bs == [] {
    } else {
      var before, last := PaddedPacketsOf(bs[..|bs| - 1], size), bs[|bs| - 1];
      PaddedPacketsCarryWords(bs[..|bs| - 1], size);
      PaddedChunksCarryWords(last.address, last.words, size, |before|);
      CarriedConcat(before, PaddedChunks(last.address, last.words, size, |before|));
    }
  }

  /** The greatest end of any packet. */
  function MaxEnd(ps: seq<Packet>): nat {
    if ps == [] then 0
    else
      var rest, last := MaxEnd(ps[..|ps| - 1]), ps[|ps| - 1];
      if last.address + |last.words| > rest then last.address + |last.words| else rest
  }

  function MaxPaddedEnd(bs: seq<FirmwareBlock>): nat {
    if bs == [] then 0
    else
      var rest, last := MaxPaddedEnd(bs[..|bs| - 1]), bs[|bs| - 1];
      if last.address + |Pad(last.words)| > rest then last.address + |Pad(last.words)| else rest
  }

  lemma {:induction false} MaxEndConcat(a: seq<Packet>, b: seq<Packet>)
    ensures MaxEnd(a + b) == if MaxEnd(b) > MaxEnd(a) then MaxEnd(b) else MaxEnd(a)
  {
    if b == [] {
      assert a + b == a;
    } else {
      assert (a + b)[..|a + b| - 1] == a + b[..|b| - 1];
      MaxEndConcat(a, b[..|b| - 1]);
    }
  }

  lemma MaxEndOne(p: Packet)
    ensures MaxEnd([p]) == p.address + |p.words|
  {
    assert [p][..0] == [];
  }

  lemma MaxEndNone()
    ensures MaxEnd([]) == 0
  {
  }

  lemma {:induction false} PaddedChunksEnd(address: nat, words: seq<Word>, size: nat, first: nat)
    requires size > 0 && size % ALIGNMENT == 0 && words != []
    ensures MaxEnd(PaddedChunks(address, words, size, first)) == address + |Pad(words)|
    decreases |words|
  {
    hide Pad, MaxEnd;
    var n := Min(size, |words|);
    var head := Packet(first, address, Pad(words[..n]));
    var tail := PaddedChunks(address + n, words[n..], size, first + 1);
    MaxEndConcat([head], tail);
    MaxEndOne(head);
    PadSplit(words, n);
    if n < |words| {
      PaddedChunksEnd(address + n, words[n..], size, first + 1);
    } else {
      assert words[n..] == [] && words[..n] == words;
      MaxEndNone();
    }
  }

  lemma {:induction false} PaddedPacketsEnd(bs: seq<FirmwareBlock>, size: nat)
    requires size > 0 && size % ALIGNMENT == 0
    ensures MaxEnd(PaddedPacketsOf(bs, size)) == MaxPaddedEnd(bs)
  {
    if bs == [] {
    } else {
      var before, last := PaddedPacketsOf(bs[..|bs| - 1], size), bs[|bs| - 1];
      PaddedPacketsEnd(bs[..|bs| - 1], size);
      PaddedChunksEnd(last.address, last.words, size, |before|);
      MaxEndConcat(before, PaddedChunks(last.address, last.words, size, |before|));
    }
  }

  /** CRC, size and end of the programmed image are the same for every packet size that
      is a multiple of eight. */
  lemma FlashImageIsIndependent(image: FirmwareImage, size: nat, size': nat)
    requires size > 0 && size % ALIGNMENT == 0 && size' > 0 && size' % ALIGNMENT == 0
    ensures var merged := Merge(SortByAddress(image.blocks));
      var p, p' := PaddedPacketsOf(merged, size), PaddedPacketsOf(merged, size');
      && Crc32Of(Carried(p)) == Crc32Of(Carried(p'))
      && |Carried(p)| == |Carried(p')| == |PaddedWordsIn(merged)|
      && MaxEnd(p) == MaxEnd(p') == MaxPaddedEnd(merged)
  {
    var merged := Merge(SortByAddress(image.blocks));
    PaddedPacketsCarryWords(merged, size);
    PaddedPacketsCarryWords(merged, size');
    PaddedPacketsEnd(merged, size);
    PaddedPacketsEnd(merged, size');
  }
}
