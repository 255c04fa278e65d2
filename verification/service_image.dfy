/** Patching a Flash Service image on the PC: exact memory override, the dense
    immutable range, and the header that the boot core will check. */
module ServiceImage {
  import opened Words
  import opened Crc
  import opened Firmware

  // ---------------------------------------------------------------- replacing words

  /** The part of the block behind `end`, if any, starts at a 32-bit address. */
  predicate TailFits(b: FirmwareBlock, end: int) {
    b.address < end < End(b) ==> end <= 0xFFFF_FFFF
  }

  /** The part of a block in front of `address`, if any. */
  function Left(b: FirmwareBlock, address: int): seq<FirmwareBlock>
    requires address < End(b)
  {
    if b.address < address then [BlockData(b.address, b.words[..address - b.address])] else []
  }

  /** The part of a block from `end` on, if any. */
  function Right(b: FirmwareBlock, end: int): seq<FirmwareBlock>
    requires b.address < end && TailFits(b, end)
  {
    if End(b) > end then [BlockData(end, b.words[end - b.address..])] else []
  }

  /** What is left of a block outside `address .. end`. */
  function Remainder(b: FirmwareBlock, address: int, end: int): seq<FirmwareBlock>
    requires address < end && TailFits(b, end)
  {
    if End(b) <= address || b.address >= end then [b]
    else Left(b, address) + Right(b, end)
  }

  predicate TailsFit(bs: seq<FirmwareBlock>, end: int) {
    forall b :: b in bs ==> TailFits(b, end)
  }

  function Remainders(bs: seq<FirmwareBlock>, address: int, end: int): seq<FirmwareBlock>
    requires address < end && TailsFit(bs, end)
  {
    if bs == [] then []
    else Remainders(bs[..|bs| - 1], address, end) + Remainder(bs[|bs| - 1], address, end)
  }

  /** `_replace_words` does not raise. */
  predicate CanReplace(image: FirmwareImage, address: U32, words: seq<Word>) {
    words != [] && TailsFit(image.blocks, address + |words|)
  }

  /** A block that `end` cuts in two has its rest at a 32-bit address. */
  predicate RestsFit(bs: seq<FirmwareBlock>, end: int) {
    forall b :: b in bs && b.address < end && end < b.address + |b.words| ==> end < 0x1_0000_0000
  }

  lemma TailsMean(bs: seq<FirmwareBlock>, end: int)
    ensures TailsFit(bs, end) <==> RestsFit(bs, end)
  {
    if RestsFit(bs, end) {
      forall b | b in bs
        ensures TailFits(b, end)
      {
      }
    }
    if TailsFit(bs, end) {
      forall b | b in bs && b.address < end && end < b.address + |b.words|
        ensures end < 0x1_0000_0000
      {
        assert TailFits(b, end);
      }
    }
  }

  /** Exactly when replacing does not raise: there are words, and no rest of a block that
      the replacement cuts begins past the 32-bit addresses. */
  lemma ReplacingSucceedsExactly(image: FirmwareImage, address: U32, words: seq<Word>)
    ensures CanReplace(image, address, words) <==> |words| > 0 && RestsFit(image.blocks, address + |words|)
  {
    TailsMean(image.blocks, address + |words|);
  }

  /** It raises for a block that runs past the 32-bit addresses, when the replacement ends
      where its rest would start. */
  lemma ReplacingCanRaise() returns (image: FirmwareImage)
    ensures image.blocks == [BlockData(0xFFFF_FFFE, [0, 0, 0])] && !CanReplace(image, 0xFFFF_FFFF, [0])
  {
    var block: FirmwareBlock := BlockData(0xFFFF_FFFE, [0, 0, 0]);
    image := ImageData(0, [block]);
    assert image.blocks[0] == block && block in image.blocks;
  }

  function Patched(image: FirmwareImage, address: U32, words: seq<Word>): seq<FirmwareBlock>
    requires CanReplace(image, address, words)
  {
    Remainders(image.blocks, address, address + |words|) + [BlockData(address, words)]
  }

  function Replaced(image: FirmwareImage, address: U32, words: seq<Word>): FirmwareImage
    requires CanReplace(image, address, words)
  {
    ReplacedIsDisjoint(image, address, words);
    SortOrders(Patched(image, address, words));
    ImageData(image.entryPoint, SortByAddress(Patched(image, address, words)))
  }

  /** `r` lies inside `b` and outside `address .. end`. */
  predicate PieceOf(r: FirmwareBlock, b: FirmwareBlock, address: int, end: int) {
    && b.address <= r.address && End(r) <= End(b)
    && (End(r) <= address || end <= r.address)
  }

  lemma RemainderPieces(b: FirmwareBlock, address: int, end: int)
    requires address < end && TailFits(b, end)
    ensures forall r :: r in Remainder(b, address, end) ==> PieceOf(r, b, address, end)
    ensures Disjoint(Remainder(b, address, end))
  {
  }

  lemma {:induction false} RemaindersPieces(bs: seq<FirmwareBlock>, address: int, end: int, r: FirmwareBlock)
    requires address < end && TailsFit(bs, end) && r in Remainders(bs, address, end)
    ensures exists b :: b in bs && PieceOf(r, b, address, end)
  {
    var front, last := bs[..|bs| - 1], bs[|bs| - 1];
    RemainderPieces(last, address, end);
    if r in Remainders(front, address, end) {
      RemaindersPieces(front, address, end, r);
    }
  }

  lemma DisjointConcat(x: seq<FirmwareBlock>, y: seq<FirmwareBlock>)
    requires Disjoint(x) && Disjoint(y)
    requires forall a, b :: a in x && b in y ==> Apart(a, b)
    ensures Disjoint(x + y)
  {
  }

  lemma {:induction false} RemaindersDisjoint(bs: seq<FirmwareBlock>, address: int, end: int)
    requires address < end && TailsFit(bs, end) && Disjoint(bs)
    ensures Disjoint(Remainders(bs, address, end))
  {
    if bs == [] {
    } else {
      var front, last := bs[..|bs| - 1], bs[|bs| - 1];
      RemaindersDisjoint(front, address, end);
      RemainderPieces(last, address, end);
      assert bs == front + [last];
      DisjointAppend(front, last);
      var x, y := Remainders(front, address, end), Remainder(last, address, end);
      forall a, b | a in x && b in y
        ensures Apart(a, b)
      {
        RemaindersPieces(front, address, end, a);
        var c :| c in front && PieceOf(a, c, address, end);
        assert Apart(c, last);
      }
      DisjointConcat(x, y);
    }
  }

  /** The image constructor cannot raise after a replacement. */
  lemma ReplacedIsDisjoint(image: FirmwareImage, address: U32, words: seq<Word>)
    requires CanReplace(image, address, words)
    ensures Disjoint(Patched(image, address, words))
    ensures Disjoint(SortByAddress(Patched(image, address, words)))
  {
    hide Disjoint, SortByAddress;
    var end := address + |words|;
    var rest, patch := Remainders(image.blocks, address, end), BlockData(address, words);
    RemaindersDisjoint(image.blocks, address, end);
    forall r | r in rest
      ensures Apart(r, patch)
    {
      RemaindersPieces(image.blocks, address, end, r);
    }
    DisjointAppend(rest, patch);
    SortKeepsDisjoint(Patched(image, address, words));
  }

  /** One turn of the loop over the blocks. */
  method CutBlock(b: FirmwareBlock, address: int, end: int) returns (r: Option<seq<FirmwareBlock>>)
    requires address < end
    ensures r.Some? <==> TailFits(b, end)
    ensures r.Some? ==> r.value == Remainder(b, address, end)
  {
    if End(b) <= address || b.address >= end {
      return Some([b]);
    }
    var pieces: seq<FirmwareBlock> := [];
    if b.address < address {
      pieces := [BlockData(b.address, b.words[..address - b.address])];
    }
    if End(b) > end {
      var tail := MakeBlock(end, b.words[end - b.address..]);
      if tail.None? {
        return None;
      }
      pieces := pieces + [tail.value];
    }
    return Some(pieces);
  }

  method CutBlocks(bs: seq<FirmwareBlock>, address: int, end: int) returns (r: Option<seq<FirmwareBlock>>)
    requires address < end
    ensures r.Some? <==> TailsFit(bs, end)
    ensures r.Some? ==> r.value == Remainders(bs, address, end)
  {
    var blocks: seq<FirmwareBlock> := [];
    for k := 0 to |bs|
      invariant TailsFit(bs[..k], end)
      invariant blocks == Remainders(bs[..k], address, end)
    {
      assert bs[..k + 1] == bs[..k] + [bs[k]];
      assert bs[..k + 1][..k] == bs[..k];
      var pieces := CutBlock(bs[k], address, end);
      if pieces.None? {
        return None;
      }
      blocks := blocks + pieces.value;
    }
    assert bs[..|bs|] == bs;
    return Some(blocks);
  }

  /** The image constructor accepts the sorted blocks. */
  lemma ConstructorAccepts(image: FirmwareImage, address: U32, words: seq<Word>)
    requires CanReplace(image, address, words)
    ensures MakeImage(image.entryPoint, SortByAddress(Patched(image, address, words))) ==
            Some(Replaced(image, address, words))
  {
    hide Disjoint, SortByAddress, NeighboursApart, Ordered;
    ReplacedIsDisjoint(image, address, words);
    SortOrders(Patched(image, address, words));
    NeighbourCheckIsExact(SortByAddress(Patched(image, address, words)));
  }

  /** `Some` exactly when nothing raises; then the new image. */
  method ReplaceWords(image: FirmwareImage, address: U32, words: seq<Word>) returns (r: Option<FirmwareImage>)
    ensures r == if CanReplace(image, address, words) then Some(Replaced(image, address, words)) else None
  {
    hide Disjoint, SortByAddress, NeighboursApart;
    if words == [] {
      return None;
    }
    var blocks := CutBlocks(image.blocks, address, address + |words|);
    if blocks.None? {
      return None;
    }
    var patch := MakeBlock(address, words);
    if patch.None? {
      return None;
    }
    ConstructorAccepts(image, address, words);
    r := MakeImage(image.entryPoint, SortByAddress(blocks.value + [patch.value]));
  }

  // ---------------------------------------------------------------- what a replacement means

  lemma RemainderMemory(b: FirmwareBlock, address: int, end: int, a: int)
    requires address < end && TailFits(b, end)
    ensures Lookup(Remainder(b, address, end), a) ==
            if Covers(b, a) && !(address <= a < end) then Some(WordIn(b, a)) else None
  {
    if End(b) <= address || b.address >= end {
      LookupOne(b, a);
    } else {
      LeftMemory(b, address, a);
      RightMemory(b, end, a);
      LookupConcat(Left(b, address), Right(b, end), a);
    }
  }

  lemma LeftMemory(b: FirmwareBlock, address: int, a: int)
    requires address < End(b)
    ensures Lookup(Left(b, address), a) == if Covers(b, a) && a < address then Some(WordIn(b, a)) else None
  {
    if b.address < address {
      LookupOne(BlockData(b.address, b.words[..address - b.address]), a);
    }
  }

  lemma RightMemory(b: FirmwareBlock, end: int, a: int)
    requires b.address < end && TailFits(b, end)
    ensures Lookup(Right(b, end), a) == if Covers(b, a) && a >= end then Some(WordIn(b, a)) else None
  {
    if End(b) > end {
      LookupOne(BlockData(end, b.words[end - b.address..]), a);
    }
  }

  lemma {:induction false} RemaindersMemory(bs: seq<FirmwareBlock>, address: int, end: int, a: int)
    requires address < end && TailsFit(bs, end)
    ensures Lookup(Remainders(bs, address, end), a) == if address <= a < end then None else Lookup(bs, a)
  {
    if bs == [] {
    } else {
      var front, last := bs[..|bs| - 1], bs[|bs| - 1];
      RemaindersMemory(front, address, end, a);
      RemainderMemory(last, address, end, a);
      LookupConcat(Remainders(front, address, end), Remainder(last, address, end), a);
    }
  }

  /** Blocks in front of a patch that they do not touch. */
  lemma AppendedMemory(rest: seq<FirmwareBlock>, patch: FirmwareBlock, a: int)
    ensures Lookup(rest + [patch], a) == if Covers(patch, a) then Some(WordIn(patch, a)) else Lookup(rest, a)
  {
    LookupConcat(rest, [patch], a);
    LookupOne(patch, a);
  }

  lemma PatchedMemory(image: FirmwareImage, address: U32, words: seq<Word>, a: int)
    requires CanReplace(image, address, words)
    ensures Lookup(Patched(image, address, words), a) ==
            if address <= a < address + |words| then Some(words[a - address]) else Lookup(image.blocks, a)
  {
    hide Disjoint, Remainders;
    RemaindersMemory(image.blocks, address, address + |words|, a);
    AppendedMemory(Remainders(image.blocks, address, address + |words|), BlockData(address, words), a);
  }

  /** The memory of the result is the old memory overwritten by the patch, at every
      address. */
  lemma ReplaceOverridesMemory(image: FirmwareImage, address: U32, words: seq<Word>, a: int)
    requires CanReplace(image, address, words)
    ensures Lookup(Replaced(image, address, words).blocks, a) ==
            if address <= a < address + |words| then Some(words[a - address]) else Lookup(image.blocks, a)
  {
    hide Disjoint, Patched, SortByAddress;
    PatchedMemory(image, address, words, a);
    ReplacedIsDisjoint(image, address, words);
    SortKeepsMemory(Patched(image, address, words), a);
  }

  /** The range lies in one block. */
  ghost predicate InOneBlock(bs: seq<FirmwareBlock>, address: int, count: nat) {
    exists b :: b in bs && b.address <= address && address + count <= End(b)
  }

  lemma {:induction false} RemaindersMember(bs: seq<FirmwareBlock>, address: int, end: int,
                                            b: FirmwareBlock, r: FirmwareBlock)
    requires address < end && TailsFit(bs, end) && b in bs && r in Remainder(b, address, end)
    ensures r in Remainders(bs, address, end)
  {
    var front, last := bs[..|bs| - 1], bs[|bs| - 1];
    assert bs == front + [last];
    if b != last || b in front {
      RemaindersMember(front, address, end, b, r);
    }
  }

  /** A replacement elsewhere leaves a range in one block. */
  lemma ReplaceKeepsOneBlock(image: FirmwareImage, address: U32, words: seq<Word>, at: int, count: nat)
    requires CanReplace(image, address, words) && InOneBlock(image.blocks, at, count) && count > 0
    requires at + count <= address || address + |words| <= at
    ensures InOneBlock(Replaced(image, address, words).blocks, at, count)
  {
    hide Disjoint, SortByAddress, Remainders;
    var end := address + |words|;
    var b :| b in image.blocks && b.address <= at && at + count <= End(b);
    var r: FirmwareBlock :=
      if End(b) <= address || b.address >= end then b
      else if at + count <= address then BlockData(b.address, b.words[..address - b.address])
      else BlockData(end, b.words[end - b.address..]);
    assert r in Remainder(b, address, end);
    RemaindersMember(image.blocks, address, end, b, r);
    assert r in Patched(image, address, words);
    SortMembers(Patched(image, address, words), r);
  }

  method PatchWords(image: FirmwareImage, address: U32, words: seq<Word>) returns (r: Option<FirmwareImage>)
    ensures r == if InOneBlock(image.blocks, address, |words|) && CanReplace(image, address, words)
                 then Some(Replaced(image, address, words)) else None
  {
    var found := IsInOneBlock(image.blocks, address, |words|);
    if !found {
      return None;
    }
    r := ReplaceWords(image, address, words);
  }

  method IsInOneBlock(bs: seq<FirmwareBlock>, address: int, count: nat) returns (found: bool)
    ensures found <==> InOneBlock(bs, address, count)
  {
    for k := 0 to |bs|
      invariant forall j :: 0 <= j < k ==> !(bs[j].address <= address && address + count <= End(bs[j]))
    {
      if bs[k].address <= address && address + count <= End(bs[k]) {
        return true;
      }
    }
    return false;
  }

  // ---------------------------------------------------------------- the immutable range

  function DenseWord(bs: seq<FirmwareBlock>, a: int): Word {
    if Lookup(bs, a).Some? then Lookup(bs, a).value else ERASED_WORD
  }

  /** The words of a range, with 0xFFFF where the image has none. */
  function Dense(bs: seq<FirmwareBlock>, start: int, end: int): (d: seq<Word>)
    requires start <= end
    ensures |d| == end - start
  {
    seq<Word>(end - start, k requires 0 <= k < end - start => DenseWord(bs, start + k))
  }

  /** Copying what one more block has in the range. */
  function Overlay(words: seq<Word>, start: int, end: int, b: FirmwareBlock): seq<Word>
    requires start <= end && |words| == end - start
  {
    var lo, hi := if start > b.address then start else b.address, if end < End(b) then end else End(b);
    if lo < hi then words[..lo - start] + b.words[lo - b.address..hi - b.address] + words[hi - start..] else words
  }

  lemma DenseAt(bs: seq<FirmwareBlock>, start: int, end: int, a: int)
    requires start <= a < end
    ensures Dense(bs, start, end)[a - start] == if Lookup(bs, a).Some? then Lookup(bs, a).value else 0xFFFF
  {
    assert Dense(bs, start, end)[a - start] == DenseWord(bs, start + (a - start));
  }

  lemma DenseOfNothing(start: int, end: int)
    requires start <= end
    ensures Dense([], start, end) == seq<Word>(end - start, _ => ERASED_WORD)
  {
    var d := Dense([], start, end);
    forall i | 0 <= i < end - start
      ensures d[i] == ERASED_WORD
    {
      assert d[i] == DenseWord([], start + i);
    }
  }

  /** Memory that holds `d` from `start` on is dense there. */
  lemma DenseIsMemory(bs: seq<FirmwareBlock>, d: seq<Word>, start: int)
    requires forall k :: 0 <= k < |d| ==> Lookup(bs, start + k) == Some(d[k])
    ensures Dense(bs, start, start + |d|) == d
  {
    var e := Dense(bs, start, start + |d|);
    forall k | 0 <= k < |d|
      ensures e[k] == d[k]
    {
      assert e[k] == DenseWord(bs, start + k);
    }
  }

  lemma DenseStep(bs: seq<FirmwareBlock>, k: nat, start: int, end: int)
    requires k < |bs| && start <= end
    ensures Dense(bs[..k + 1], start, end) == Overlay(Dense(bs[..k], start, end), start, end, bs[k])
  {
    assert bs[..k + 1][..k] == bs[..k];
    var before, after := Dense(bs[..k], start, end), Dense(bs[..k + 1], start, end);
    var overlay := Overlay(before, start, end, bs[k]);
    forall i | 0 <= i < end - start
      ensures after[i] == overlay[i]
    {
      assert after[i] == DenseWord(bs[..k + 1], start + i);
      assert before[i] == DenseWord(bs[..k], start + i);
    }
  }

  method DenseImmutable(image: FirmwareImage, start: int, end: int) returns (r: Option<FirmwareBlock>)
    requires start <= 0xFFFF_FFFF
    ensures r == if start < 0 || end <= start || end > 0x1_0000_0000 then None
                 else Some(BlockData(start, Dense(image.blocks, start, end)))
  {
    if start < 0 || end <= start || end > 0x1_0000_0000 {
      return None;
    }
    var words: seq<Word> := seq<Word>(end - start, _ => ERASED_WORD);
    DenseOfNothing(start, end);
    assert image.blocks[..0] == [];
    for k := 0 to |image.blocks|
      invariant words == Dense(image.blocks[..k], start, end)
    {
      DenseStep(image.blocks, k, start, end);
      words := Overlay(words, start, end, image.blocks[k]);
    }
    assert image.blocks[..|image.blocks|] == image.blocks;
    r := MakeBlock(start, words);
  }
}
