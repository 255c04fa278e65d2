/** Which blocks the packetiser of the PC can transfer: packets are cut without regard to
    the erase sectors of the target, and a packet across a sector start is refused. */
module Sectors {
  import opened Words
  import opened Firmware
  import opened Packets
  import opened Record
  import opened FlashPort
  import opened SectorMap
  import opened FlashTransfer

  // ---------------------------------------------------------------- sector starts

  /** An erase sector begins here. */
  predicate StartsSector(x: nat) {
    x in LIMITS[..14]
  }

  /** That is where the sector of an address changes. */
  lemma StartsMeans(x: nat)
    requires APP_START < x < APP_END
    ensures StartsSector(x) <==> SectorOf(x - 1) != SectorOf(x)
  {
    hide SectorOf;
    SectorMeans(x);
    SectorMeans(x - 1);
    var i, k := SectorOf(x), SectorOf(x - 1);
    if i != k {
      assert LIMITS[..14][i] == x;
    }
    if StartsSector(x) {
      var n :| 0 <= n < 14 && LIMITS[..14][n] == x;
      assert InSector(x, n) && !InSector(x - 1, n);
    }
  }

  lemma SectorsAscend(x: nat, y: nat)
    requires APP_START <= x <= y < APP_END
    ensures SectorOf(x) <= SectorOf(y) < SECTOR_COUNT
  {
  }

  lemma StartsAreAligned(x: nat)
    requires APP_START < x < APP_END && StartsSector(x)
    ensures x % 8 == 0
  {
  }

  /** A range lies in one sector exactly when no sector starts behind its first address. */
  lemma {:induction false} OneSectorExactly(a: nat, n: nat)
    requires APP_START <= a && n > 0 && a + n <= APP_END
    ensures SectorOf(a + n - 1) == SectorOf(a) <==> forall x :: a < x < a + n ==> !StartsSector(x)
  {
    hide SectorOf, StartsSector;
    if n > 1 {
      OneSectorExactly(a, n - 1);
      SectorsAscend(a, a + n - 2);
      SectorsAscend(a + n - 2, a + n - 1);
      StartsMeans(a + n - 1);
    }
  }

  // ---------------------------------------------------------------- the packets of one block

  lemma ProductGrows(i: nat, k: nat, size: nat)
    requires i <= k
    ensures i * size <= k * size
  {
  }

  lemma ProductAligned(k: nat, size: nat)
    requires size % ALIGNMENT == 0
    ensures k * size % ALIGNMENT == 0
  {
    var m := size / ALIGNMENT;
    assert k * size == ALIGNMENT * (k * m) by {
      assert size == ALIGNMENT * m;
    }
  }

  lemma PadRoundsUp(words: seq<Word>)
    ensures |words| <= |Pad(words)| < |words| + ALIGNMENT && |Pad(words)| % ALIGNMENT == 0
  {
  }

  /** Where the `k`-th packet of a block lies. */
  lemma {:induction false} ChunkSpan(address: nat, words: seq<Word>, size: nat, first: nat, k: nat)
    requires size > 0 && size % ALIGNMENT == 0 && k < |PaddedChunks(address, words, size, first)|
    ensures k * size < |words|
    ensures var p := PaddedChunks(address, words, size, first)[k];
      && p.index == first + k && p.address == address + k * size && |p.words| % ALIGNMENT == 0
      && 0 < |p.words| <= size && p.address + |p.words| < address + |words| + ALIGNMENT
      && (p.address + |p.words| >= address + |words| || |p.words| == size)
    decreases |words|
  {
    hide Pad;
    var n := Min(size, |words|);
    PaddedChunksStep(address, words, size, first);
    if k == 0 {
      PadRoundsUp(words[..n]);
      FullPiece(words[..n], size);
    } else {
      ChunkSpan(address + n, words[n..], size, first + 1, k - 1);
      assert k * size == (k - 1) * size + size;
    }
  }

  /** Padding stays within the packet size. */
  lemma FullPiece(words: seq<Word>, size: nat)
    requires |words| <= size && size % ALIGNMENT == 0
    ensures |Pad(words)| <= size
  {
  }

  lemma {:induction false} ChunkCount(address: nat, words: seq<Word>, size: nat, first: nat, k: nat)
    requires size > 0 && k * size < |words|
    ensures k < |PaddedChunks(address, words, size, first)|
    decreases |words|
  {
    hide Pad;
    PaddedChunksStep(address, words, size, first);
    if k > 0 {
      assert k * size == (k - 1) * size + size;
      ProductGrows(0, k - 1, size);
      ChunkCount(address + size, words[size..], size, first + 1, k - 1);
    }
  }

  // ---------------------------------------------------------------- placement

  /** The packet has a 32-bit address and the target takes it. */
  predicate Fits(p: Packet) {
    p.address < 0x1_0000_0000 && Placed(p)
  }

  predicate AllFit(ps: seq<Packet>) {
    forall k :: 0 <= k < |ps| ==> Fits(ps[k])
  }

  /** An aligned block in the App area in which every sector starts a whole number of
      packets behind the start of the block. */
  predicate BlockFits(b: FirmwareBlock, size: nat)
    requires size > 0
  {
    && b.address % ALIGNMENT == 0 && APP_START <= b.address && End(b) <= APP_END
    && forall x: nat :: b.address < x < End(b) && StartsSector(x) ==> (x - b.address) % size == 0
  }

  /** The remainder is what is left behind the multiple below. */
  lemma RemainderOf(d: nat, k: nat, size: nat)
    requires size > 0 && k * size <= d < k * size + size
    ensures d % size == d - k * size
  {
    var q := d / size;
    DivisionOf(d, size);
    if q < k {
      ProductGrows(q + 1, k, size);
    }
    if k < q {
      ProductGrows(k + 1, q, size);
    }
  }

  lemma DivisionOf(d: nat, size: nat)
    requires size > 0
    ensures d == d / size * size + d % size && d % size < size
    ensures d / size * size + size == (d / size + 1) * size
  {
  }

  lemma FitsMeans(p: Packet)
    requires APP_START <= p.address && 0 < |p.words| && |p.words| % ALIGNMENT == 0
    ensures Fits(p) <==>
            && p.address % ALIGNMENT == 0 && p.address + |p.words| <= APP_END
            && forall x :: p.address < x < p.address + |p.words| ==> !StartsSector(x)
  {
    hide SectorOf, StartsSector;
    if p.address + |p.words| <= APP_END {
      OneSectorExactly(p.address, |p.words|);
      SectorsAscend(p.address, p.address);
    }
  }

  /** No sector starts inside a packet of a block that fits. */
  lemma NoStartInside(b: FirmwareBlock, size: nat, k: nat, end: nat, x: nat)
    requires size > 0 && BlockFits(b, size)
    requires end % ALIGNMENT == 0 && end <= b.address + k * size + size && end < End(b) + ALIGNMENT
    requires b.address + k * size < x < end
    ensures !StartsSector(x)
  {
    hide StartsSector;
    if StartsSector(x) {
      assert end <= APP_END;
      StartsAreAligned(x);
      assert x < End(b);
      RemainderOf(x - b.address, k, size);
    }
  }

  lemma FittingRange(b: FirmwareBlock, size: nat)
    requires size > 0 && BlockFits(b, size)
    ensures b.address % ALIGNMENT == 0 && APP_START <= b.address && End(b) <= APP_END
  {
  }

  /** The bounds of a packet at offset `at` of a fitting range, in units of eight words. */
  lemma AlignedBounds(start: nat, at: nat, n: nat, limit: nat)
    requires start % ALIGNMENT == 0 && at % ALIGNMENT == 0 && n % ALIGNMENT == 0
    requires start + at + n < limit + ALIGNMENT && limit <= APP_END
    ensures (start + at) % ALIGNMENT == 0 && (start + at + n) % ALIGNMENT == 0 && start + at + n <= APP_END
  {
  }

  lemma PacketOfFittingBlock(b: FirmwareBlock, size: nat, first: nat, k: nat)
    requires size > 0 && size % ALIGNMENT == 0 && BlockFits(b, size)
    requires k < |PaddedChunks(b.address, b.words, size, first)|
    ensures Fits(PaddedChunks(b.address, b.words, size, first)[k])
  {
    hide PaddedChunks, Fits, BlockFits, StartsSector, SectorOf;
    var p := PaddedChunks(b.address, b.words, size, first)[k];
    ChunkSpan(b.address, b.words, size, first, k);
    ProductAligned(k, size);
    FittingRange(b, size);
    AlignedBounds(b.address, k * size, |p.words|, End(b));
    FitsMeans(p);
    forall x | p.address < x < p.address + |p.words|
      ensures !StartsSector(x)
    {
      NoStartInside(b, size, k, p.address + |p.words|, x);
    }
  }

  /** All packets of a block fit exactly when the block does. */
  lemma BlockFitsExactly(b: FirmwareBlock, size: nat, first: nat)
    requires size > 0 && size % ALIGNMENT == 0
    ensures AllFit(PaddedChunks(b.address, b.words, size, first)) <==> BlockFits(b, size)
  {
    hide PaddedChunks, Fits, BlockFits;
    var ps := PaddedChunks(b.address, b.words, size, first);
    if BlockFits(b, size) {
      forall k | 0 <= k < |ps|
        ensures Fits(ps[k])
      {
        PacketOfFittingBlock(b, size, first, k);
      }
    }
    if AllFit(ps) {
      FittingBlock(b, size, first);
    }
  }

  lemma FittingBlock(b: FirmwareBlock, size: nat, first: nat)
    requires size > 0 && size % ALIGNMENT == 0 && AllFit(PaddedChunks(b.address, b.words, size, first))
    ensures BlockFits(b, size)
  {
    hide PaddedChunks, StartsSector, Placed;
    var ps := PaddedChunks(b.address, b.words, size, first);
    ProductGrows(0, 0, size);
    ChunkCount(b.address, b.words, size, first, 0);
    ChunkSpan(b.address, b.words, size, first, 0);
    PlacedInApp(ps[0]);
    FitsMeans(ps[0]);
    var last := PacketAt(b, size, first, |b.words| - 1);
    PlacedInApp(ps[last]);
    forall x: nat | b.address < x < End(b) && StartsSector(x)
      ensures (x - b.address) % size == 0
    {
      var k := PacketAt(b, size, first, x - b.address);
      PlacedInApp(ps[k]);
      FitsMeans(ps[k]);
      assert x == b.address + k * size;
      RemainderOf(k * size, k, size);
    }
  }

  /** The packet that carries the word at an offset. */
  lemma PacketAt(b: FirmwareBlock, size: nat, first: nat, offset: nat) returns (k: nat)
    requires size > 0 && size % ALIGNMENT == 0 && offset < |b.words|
    ensures k < |PaddedChunks(b.address, b.words, size, first)|
    ensures var p := PaddedChunks(b.address, b.words, size, first)[k];
      && p.address == b.address + k * size <= b.address + offset < p.address + |p.words|
      && |p.words| % ALIGNMENT == 0
  {
    hide PaddedChunks;
    k := offset / size;
    assert k * size <= offset < k * size + size;
    ChunkCount(b.address, b.words, size, first, k);
    ChunkSpan(b.address, b.words, size, first, k);
  }

  // ---------------------------------------------------------------- all blocks

  predicate AllBlocksFit(bs: seq<FirmwareBlock>, size: nat)
    requires size > 0
  {
    forall k :: 0 <= k < |bs| ==> BlockFits(bs[k], size)
  }

  lemma FitConcat(x: seq<Packet>, y: seq<Packet>)
    ensures AllFit(x + y) <==> AllFit(x) && AllFit(y)
  {
    hide Fits;
    if AllFit(x + y) {
      forall k | 0 <= k < |x|
        ensures Fits(x[k])
      {
        assert (x + y)[k] == x[k];
      }
      forall k | 0 <= k < |y|
        ensures Fits(y[k])
      {
        assert (x + y)[|x| + k] == y[k];
      }
    }
  }

  /** The target takes all packets of a block list exactly when every block fits. */
  lemma {:induction false} PlacementExactly(bs: seq<FirmwareBlock>, size: nat)
    requires size > 0 && size % ALIGNMENT == 0
    ensures AllFit(PaddedPacketsOf(bs, size)) <==> AllBlocksFit(bs, size)
  {
    if bs == [] {
    } else {
      hide BlockFits, Fits, PaddedChunks;
      var front, last := bs[..|bs| - 1], bs[|bs| - 1];
      var before := PaddedPacketsOf(front, size);
      PlacementExactly(front, size);
      BlockFitsExactly(last, size, |before|);
      FitConcat(before, PaddedChunks(last.address, last.words, size, |before|));
      assert forall k :: 0 <= k < |front| ==> front[k] == bs[k];
    }
  }

  // ---------------------------------------------------------------- the first sector

  const DEVICE_DATA_WORDS := 248
  const FIRST_SECTOR_END := 0x08_4000

  lemma NoStartInFirstSector(x: nat)
    requires APP_START < x < FIRST_SECTOR_END
    ensures !StartsSector(x)
  {
  }

  lemma SecondSectorStarts()
    ensures StartsSector(FIRST_SECTOR_END) && (FIRST_SECTOR_END - APP_START) % DEVICE_DATA_WORDS != 0
  {
    assert LIMITS[..14][2] == FIRST_SECTOR_END;
  }

  /** With the device's packet size, one block at the start of the App area can be
      transferred exactly when it ends within the first erase sector. */
  lemma FirstSectorLimitsOneBlock(b: FirmwareBlock)
    requires b.address == APP_START
    ensures AllFit(PaddedPacketsOf([b], DEVICE_DATA_WORDS)) <==> End(b) <= FIRST_SECTOR_END
  {
    hide StartsSector, Fits;
    PlacementExactly([b], DEVICE_DATA_WORDS);
    assert [b][0] == b;
    SecondSectorStarts();
    if End(b) <= FIRST_SECTOR_END {
      forall x: nat | b.address < x < End(b)
        ensures !StartsSector(x)
      {
        NoStartInFirstSector(x);
      }
    }
  }
}
