/** Firmware images of the PC side: non-empty blocks of words that never overlap. */
module Firmware {
  import opened Words

  datatype BlockData = BlockData(address: U32, words: seq<Word>)

  type FirmwareBlock = b: BlockData | b.words != [] witness BlockData(0, [0])

  function End(b: FirmwareBlock): int {
    b.address + |b.words|
  }

  /** The constructor of a block; None stands for the ValueError it raises. */
  function MakeBlock(address: int, words: seq<Word>): (r: Option<FirmwareBlock>) {
    if address < 0 || address > 0xFFFF_FFFF || words == [] then None
    else Some(BlockData(address, words))
  }

  /** The two blocks share no address. */
  predicate Apart(a: FirmwareBlock, b: FirmwareBlock) {
    End(a) <= b.address || End(b) <= a.address
  }

  predicate Disjoint(bs: seq<FirmwareBlock>) {
    forall i, j :: 0 <= i < j < |bs| ==> Apart(bs[i], bs[j])
  }

  datatype ImageData = ImageData(entryPoint: U32, blocks: seq<FirmwareBlock>)

  type FirmwareImage = i: ImageData | i.blocks != [] && Disjoint(i.blocks)
    witness ImageData(0, [BlockData(0, [0])])

  // ---------------------------------------------------------------- sorting

  /** Inserts a block behind every block of smaller or equal address. */
  function Insert(sorted: seq<FirmwareBlock>, b: FirmwareBlock): seq<FirmwareBlock> {
    if sorted == [] then [b]
    else if sorted[|sorted| - 1].address <= b.address then sorted + [b]
    else Insert(sorted[..|sorted| - 1], b) + [sorted[|sorted| - 1]]
  }

  /** Stable order by address. */
  function SortByAddress(bs: seq<FirmwareBlock>): seq<FirmwareBlock> {
    if bs == [] then [] else Insert(SortByAddress(bs[..|bs| - 1]), bs[|bs| - 1])
  }

  predicate Ordered(bs: seq<FirmwareBlock>) {
    forall i, j :: 0 <= i < j < |bs| ==> bs[i].address <= bs[j].address
  }

  /** The check of the image constructor: neighbours in address order do not overlap. */
  predicate NeighboursApart(bs: seq<FirmwareBlock>) {
    forall k :: 0 <= k < |bs| - 1 ==> End(bs[k]) <= bs[k + 1].address
  }

  lemma {:induction false} InsertPlaces(s: seq<FirmwareBlock>, b: FirmwareBlock) returns (k: nat)
    ensures k <= |s| && Insert(s, b) == s[..k] + [b] + s[k..]
  {
    if s == [] {
      k := 0;
    } else if s[|s| - 1].address <= b.address {
      k := |s|;
    } else {
      var front, last := s[..|s| - 1], s[|s| - 1];
      k := InsertPlaces(front, b);
      assert s[..k] == front[..k];
      assert s[k..] == front[k..] + [last];
    }
  }

  lemma {:induction false} InsertOrders(s: seq<FirmwareBlock>, b: FirmwareBlock)
    requires Ordered(s)
    ensures Ordered(Insert(s, b))
  {
    if s != [] && s[|s| - 1].address > b.address {
      var front, last := s[..|s| - 1], s[|s| - 1];
      InsertOrders(front, b);
      var k := InsertPlaces(front, b);
      assert front + [last] == s;
      InsertedBelow(front, b, k, last);
    }
  }

  lemma InsertedBelow(front: seq<FirmwareBlock>, b: FirmwareBlock, k: nat, last: FirmwareBlock)
    requires k <= |front| && Insert(front, b) == front[..k] + [b] + front[k..]
    requires Ordered(Insert(front, b)) && Ordered(front + [last]) && b.address < last.address
    ensures Ordered(Insert(front, b) + [last])
  {
    var s := front + [last];
    forall i | 0 <= i < |front|
      ensures front[i].address <= last.address
    {
      assert s[i] == front[i] && s[|front|] == last;
    }
  }

  lemma {:induction false} SortOrders(bs: seq<FirmwareBlock>)
    ensures Ordered(SortByAddress(bs)) && |SortByAddress(bs)| == |bs|
  {
    if bs == [] {
    } else {
      SortOrders(bs[..|bs| - 1]);
      var k := InsertPlaces(SortByAddress(bs[..|bs| - 1]), bs[|bs| - 1]);
      InsertOrders(SortByAddress(bs[..|bs| - 1]), bs[|bs| - 1]);
    }
  }

  predicate AllApart(bs: seq<FirmwareBlock>, b: FirmwareBlock) {
    forall x :: x in bs ==> Apart(x, b)
  }

  lemma DisjointAppend(s: seq<FirmwareBlock>, b: FirmwareBlock)
    ensures Disjoint(s + [b]) <==> Disjoint(s) && AllApart(s, b)
  {
    var t := s + [b];
    if Disjoint(t) {
      assert forall i, j :: 0 <= i < j < |s| ==> s[i] == t[i] && s[j] == t[j];
      forall x | x in s
        ensures Apart(x, b)
      {
        var i :| 0 <= i < |s| && s[i] == x;
        assert Apart(t[i], t[|s|]);
      }
    }
  }

  lemma DisjointInsert(s: seq<FirmwareBlock>, k: nat, b: FirmwareBlock)
    requires k <= |s|
    ensures Disjoint(s[..k] + [b] + s[k..]) <==> Disjoint(s) && AllApart(s, b)
  {
    var t := s[..k] + [b] + s[k..];
    if Disjoint(t) {
      InsertedIsApart(s, k, b);
    }
    if Disjoint(s) && AllApart(s, b) {
      forall i, j | 0 <= i < j < |t|
        ensures Apart(t[i], t[j])
      {
        if i != k && j != k {
          assert Apart(s[if i < k then i else i - 1], s[if j < k then j else j - 1]);
        } else {
          assert (if i == k then t[j] else t[i]) in s;
        }
      }
    }
  }

  lemma InsertedIsApart(s: seq<FirmwareBlock>, k: nat, b: FirmwareBlock)
    requires k <= |s| && Disjoint(s[..k] + [b] + s[k..])
    ensures Disjoint(s) && AllApart(s, b)
  {
    var t := s[..k] + [b] + s[k..];
    assert forall i :: 0 <= i < |s| ==> s[i] == t[if i < k then i else i + 1];
    forall i, j | 0 <= i < j < |s|
      ensures Apart(s[i], s[j])
    {
      assert Apart(t[if i < k then i else i + 1], t[if j < k then j else j + 1]);
    }
    forall x | x in s
      ensures Apart(x, b)
    {
      var i :| 0 <= i < |s| && s[i] == x;
      assert t[k] == b;
      assert if i < k then Apart(t[i], t[k]) else Apart(t[k], t[i + 1]);
    }
  }

  lemma {:induction false} SortMembers(bs: seq<FirmwareBlock>, b: FirmwareBlock)
    ensures b in SortByAddress(bs) <==> b in bs
  {
    if bs == [] {
    } else {
      var front, last := bs[..|bs| - 1], bs[|bs| - 1];
      SortMembers(front, b);
      var s := SortByAddress(front);
      var k := InsertPlaces(s, last);
      assert s == s[..k] + s[k..];
      assert bs == front + [last];
    }
  }

  lemma SortKeepsApart(bs: seq<FirmwareBlock>, x: FirmwareBlock)
    ensures AllApart(SortByAddress(bs), x) <==> AllApart(bs, x)
  {
    hide Apart, SortByAddress;
    forall b
      ensures b in SortByAddress(bs) <==> b in bs
    {
      SortMembers(bs, b);
    }
  }

  lemma InsertKeepsDisjoint(s: seq<FirmwareBlock>, b: FirmwareBlock)
    ensures Disjoint(Insert(s, b)) <==> Disjoint(s + [b])
  {
    hide Disjoint, AllApart;
    var k := InsertPlaces(s, b);
    DisjointInsert(s, k, b);
    DisjointAppend(s, b);
  }

  lemma {:induction false} SortKeepsDisjoint(bs: seq<FirmwareBlock>)
    ensures Disjoint(SortByAddress(bs)) <==> Disjoint(bs)
  {
    if bs == [] {
    } else {
      hide Disjoint, AllApart, Insert;
      var front, last := bs[..|bs| - 1], bs[|bs| - 1];
      SortKeepsDisjoint(front);
      SortKeepsApart(front, last);
      InsertKeepsDisjoint(SortByAddress(front), last);
      DisjointAppend(SortByAddress(front), last);
      DisjointAppend(front, last);
      assert bs == front + [last];
    }
  }

  /** In address order the check of neighbours covers every pair. */
  lemma {:induction false} NeighboursReachFar(s: seq<FirmwareBlock>, i: nat, j: nat)
    requires NeighboursApart(s) && i < j < |s|
    ensures End(s[i]) <= s[j].address
  {
    if j == i + 1 {
    } else {
      NeighboursReachFar(s, i, j - 1);
      assert End(s[j - 1]) <= s[j].address;
    }
  }

  lemma NeighboursOfOrdered(s: seq<FirmwareBlock>)
    requires Ordered(s)
    ensures NeighboursApart(s) <==> Disjoint(s)
  {
    if NeighboursApart(s) {
      forall i, j | 0 <= i < j < |s|
        ensures Apart(s[i], s[j])
      {
        NeighboursReachFar(s, i, j);
      }
    }
  }

  /** The constructor's check of sorted neighbours holds exactly when no two blocks
      overlap, in whatever order they were given. */
  lemma NeighbourCheckIsExact(bs: seq<FirmwareBlock>)
    ensures NeighboursApart(SortByAddress(bs)) <==> Disjoint(bs)
  {
    SortOrders(bs);
    NeighboursOfOrdered(SortByAddress(bs));
    SortKeepsDisjoint(bs);
  }

  /** The constructor of an image; None stands for the ValueError it raises. */
  function MakeImage(entryPoint: int, bs: seq<FirmwareBlock>): (r: Option<FirmwareImage>) {
    NeighbourCheckIsExact(bs);
    if entryPoint < 0 || entryPoint > 0xFFFF_FFFF || bs == [] || !NeighboursApart(SortByAddress(bs)) then None
    else Some(ImageData(entryPoint, bs))
  }

  // ---------------------------------------------------------------- the memory an image describes

  predicate Covers(b: FirmwareBlock, a: int) {
    b.address <= a < End(b)
  }

  function WordIn(b: FirmwareBlock, a: int): Word
    requires Covers(b, a)
  {
    b.words[a - b.address]
  }

  /** No address lies in two of the blocks. */
  ghost predicate NoneTwice(bs: seq<FirmwareBlock>) {
    forall i, j, a: int :: 0 <= i < j < |bs| ==> !(Covers(bs[i], a) && Covers(bs[j], a))
  }

  lemma DisjointMeans(bs: seq<FirmwareBlock>)
    ensures Disjoint(bs) <==> NoneTwice(bs)
  {
    if NoneTwice(bs) {
      forall i, j | 0 <= i < j < |bs|
        ensures Apart(bs[i], bs[j])
      {
        var a := if bs[i].address < bs[j].address then bs[j].address else bs[i].address;
        assert !(Covers(bs[i], a) && Covers(bs[j], a));
      }
    }
  }

  /** When the constructors raise: a block needs a 32-bit address and a word, an image a
      32-bit entry point, a block, and no address in two of them. */
  lemma ConstructorsExactly(address: int, words: seq<Word>, entryPoint: int, bs: seq<FirmwareBlock>)
    ensures MakeBlock(address, words) ==
            if 0 <= address < 0x1_0000_0000 && |words| > 0 then Some(BlockData(address, words)) else None
    ensures MakeImage(entryPoint, bs).Some? <==> 0 <= entryPoint < 0x1_0000_0000 && |bs| > 0 && NoneTwice(bs)
    ensures MakeImage(entryPoint, bs).Some? ==>
            MakeImage(entryPoint, bs).value.entryPoint == entryPoint && MakeImage(entryPoint, bs).value.blocks == bs
  {
    hide Disjoint, NeighboursApart, SortByAddress;
    NeighbourCheckIsExact(bs);
    DisjointMeans(bs);
  }

  /** The word a list of blocks puts at an address; later blocks win. */
  function Lookup(bs: seq<FirmwareBlock>, a: int): Option<Word> {
    if bs == [] then None
    else if Covers(bs[|bs| - 1], a) then Some(WordIn(bs[|bs| - 1], a))
    else Lookup(bs[..|bs| - 1], a)
  }

  lemma {:induction false} LookupConcat(x: seq<FirmwareBlock>, y: seq<FirmwareBlock>, a: int)
    ensures Lookup(x + y, a) == if Lookup(y, a).Some? then Lookup(y, a) else Lookup(x, a)
  {
    if y == [] {
      assert x + y == x;
    } else {
      assert (x + y)[..|x + y| - 1] == x + y[..|y| - 1];
      LookupConcat(x, y[..|y| - 1], a);
    }
  }

  lemma LookupOne(b: FirmwareBlock, a: int)
    ensures Lookup([b], a) == if Covers(b, a) then Some(WordIn(b, a)) else None
  {
    assert [b][..0] == [];
  }

  lemma {:induction false} LookupNone(bs: seq<FirmwareBlock>, a: int)
    ensures Lookup(bs, a).None? <==> forall b :: b in bs ==> !Covers(b, a)
  {
    if bs == [] {
    } else {
      LookupNone(bs[..|bs| - 1], a);
      assert bs == bs[..|bs| - 1] + [bs[|bs| - 1]];
    }
  }

  /** Without overlaps, every block's words are found. */
  lemma {:induction false} LookupFinds(bs: seq<FirmwareBlock>, b: FirmwareBlock, a: int)
    requires Disjoint(bs) && b in bs && Covers(b, a)
    ensures Lookup(bs, a) == Some(WordIn(b, a))
  {
    var front, last := bs[..|bs| - 1], bs[|bs| - 1];
    assert bs == front + [last];
    DisjointAppend(front, last);
    if b in front {
      assert Apart(b, last);
      LookupFinds(front, b, a);
    }
  }

  /** Sorting changes nothing in memory. */
  lemma SortKeepsMemory(bs: seq<FirmwareBlock>, a: int)
    requires Disjoint(bs)
    ensures Lookup(SortByAddress(bs), a) == Lookup(bs, a)
  {
    SortKeepsDisjoint(bs);
    var s := SortByAddress(bs);
    forall b
      ensures b in s <==> b in bs
    {
      SortMembers(bs, b);
    }
    LookupNone(bs, a);
    LookupNone(s, a);
    if Lookup(bs, a).Some? {
      var b :| b in bs && Covers(b, a);
      LookupFinds(bs, b, a);
      LookupFinds(s, b, a);
    }
  }
}
