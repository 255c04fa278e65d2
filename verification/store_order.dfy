/** Single word stores: what RAM says between the stores of one command. */
module StoreOrder {
  import opened Words
  import opened Protocol
  import opened RamMap
  import opened CoreSpec
  import CoreRuns

  datatype Write = Write(address: nat, word: Word)

  predicate InRam(stores: seq<Write>) {
    forall k :: 0 <= k < |stores| ==> stores[k].address < RAM_SIZE
  }

  /** RAM after the stores, one after the other. */
  function Apply(ram: Ram, stores: seq<Write>): Ram
    requires InRam(stores)
  {
    if stores == [] then ram
    else
      var last := stores[|stores| - 1];
      Store(Apply(ram, stores[..|stores| - 1]), last.address, [last.word])
  }

  lemma {:induction false} ApplyConcat(ram: Ram, x: seq<Write>, y: seq<Write>)
    requires InRam(x) && InRam(y)
    ensures InRam(x + y) && Apply(ram, x + y) == Apply(Apply(ram, x), y)
  {
    if y == [] {
      assert x + y == x;
    } else {
      var front, last := y[..|y| - 1], y[|y| - 1];
      ApplyConcat(ram, x, front);
      assert (x + y)[..|x + y| - 1] == x + front;
    }
  }

  /** A block, in ascending order of addresses. */
  function BlockStores(address: nat, data: seq<Word>): (stores: seq<Write>)
    ensures |stores| == |data|
  {
    seq<Write>(|data|, i requires 0 <= i < |data| => Write(address + i, data[i]))
  }

  lemma BlockFront(address: nat, data: seq<Word>, k: nat)
    requires k <= |data|
    ensures BlockStores(address, data)[..k] == BlockStores(address, data[..k])
  {
  }

  lemma {:induction false} ApplyBlock(ram: Ram, address: nat, data: seq<Word>)
    requires address + |data| <= RAM_SIZE
    ensures InRam(BlockStores(address, data))
    ensures Apply(ram, BlockStores(address, data)) == Store(ram, address, data)
  {
    if data == [] {
      assert Store(ram, address, data) == ram;
    } else {
      var front, last := data[..|data| - 1], data[|data| - 1];
      ApplyBlock(ram, address, front);
      BlockFront(address, data, |data| - 1);
      var a, b := Apply(ram, BlockStores(address, data)), Store(ram, address, data);
      assert forall i :: 0 <= i < RAM_SIZE ==> a[i] == b[i];
    }
  }

  // ---------------------------------------------------------------- the publish words

  const UNPUBLISH_STORES := [Write(PUBLISH_ADDRESS, PUBLISH_INVALID), Write(PUBLISH_ADDRESS + 1, PUBLISH_INVALID)]

  /** The inverse is stored first, VALID last. */
  const PUBLISH_STORES := [Write(PUBLISH_ADDRESS + 1, PUBLISH_VALID_INVERSE), Write(PUBLISH_ADDRESS, PUBLISH_VALID)]

  lemma ApplyTwo(ram: Ram, a: Write, b: Write)
    requires a.address < RAM_SIZE && b.address < RAM_SIZE
    ensures Apply(ram, [a, b]) == Store(Store(ram, a.address, [a.word]), b.address, [b.word])
  {
    assert [a, b][..1] == [a] && [a][..0] == [];
    assert Apply(ram, [a]) == Store(ram, a.address, [a.word]);
  }

  lemma ApplyUnpublish(ram: Ram)
    ensures Apply(ram, UNPUBLISH_STORES) == Unpublish(ram)
  {
    ApplyTwo(ram, UNPUBLISH_STORES[0], UNPUBLISH_STORES[1]);
    var a, b := Apply(ram, UNPUBLISH_STORES), Unpublish(ram);
    assert forall i :: 0 <= i < RAM_SIZE ==> a[i] == b[i];
  }

  lemma ApplyPublish(ram: Ram)
    ensures Apply(ram, PUBLISH_STORES) == Publish(ram)
  {
    ApplyTwo(ram, PUBLISH_STORES[0], PUBLISH_STORES[1]);
    var a, b := Apply(ram, PUBLISH_STORES), Publish(ram);
    assert forall i :: 0 <= i < RAM_SIZE ==> a[i] == b[i];
  }

  /** Once the first publish word is cleared it stays so until it is stored to again. */
  lemma {:induction false} StaysCleared(ram: Ram, stores: seq<Write>)
    requires stores != [] && InRam(stores) && stores[0] == Write(PUBLISH_ADDRESS, PUBLISH_INVALID)
    requires forall k :: 0 < k < |stores| ==> stores[k].address != PUBLISH_ADDRESS
    ensures Apply(ram, stores)[PUBLISH_ADDRESS] == PUBLISH_INVALID
  {
    if |stores| > 1 {
      StaysCleared(ram, stores[..|stores| - 1]);
    }
  }

  // ---------------------------------------------------------------- validation

  /** The stores of a validation, in the order in which the code makes them. */
  function ValidationStores(ram: Ram, init: Init): (stores: seq<Write>)
    ensures InRam(stores)
  {
    if ValidationStatus(Unpublish(ram)) != OK then UNPUBLISH_STORES
    else
      UNPUBLISH_STORES + BlockStores(RUNTIME_ADDRESS, init.runtime) + (if init.status != OK then [] else PUBLISH_STORES)
  }

  /** The listed stores add up to the validation. */
  lemma ApplyValidation(ram: Ram, init: Init)
    ensures Apply(ram, ValidationStores(ram, init)) == Validate(ram, init).0
  {
    hide Apply, BlockStores, ValidationStatus, Store;
    ApplyUnpublish(ram);
    if ValidationStatus(Unpublish(ram)) == OK {
      var runtime := BlockStores(RUNTIME_ADDRESS, init.runtime);
      ApplyBlock(Unpublish(ram), RUNTIME_ADDRESS, init.runtime);
      ApplyConcat(ram, UNPUBLISH_STORES, runtime);
      if init.status == OK {
        ApplyPublish(Apply(Unpublish(ram), runtime));
        ApplyConcat(ram, UNPUBLISH_STORES + runtime, PUBLISH_STORES);
      } else {
        assert UNPUBLISH_STORES + runtime + [] == UNPUBLISH_STORES + runtime;
      }
    }
  }

  /** A validation publishes with its last store: between its first store and that one
      the publish words never read VALID. */
  lemma PublishesLast(ram: Ram, init: Init, k: nat)
    requires 0 < k < |ValidationStores(ram, init)|
    ensures !Published(Apply(ram, ValidationStores(ram, init)[..k]))
  {
    hide Apply;
    StaysCleared(ram, ValidationStores(ram, init)[..k]);
  }

  // ---------------------------------------------------------------- data commands

  /** The stores of a data command. */
  function DataStores(address: U32, data: seq<Word>): (stores: seq<Write>)
    requires 0 < |data| < 0x1_0000
    ensures InRam(stores)
  {
    WriteRegionMeaning(address, |data|);
    var guard := if OverlapsWindow(address, |data|) then UNPUBLISH_STORES else [];
    if IsInWriteRegion(address, |data|) then guard + BlockStores(address, data) + guard else guard
  }

  /** The listed stores add up to the data command. */
  lemma ApplyData(ram: Ram, address: U32, data: seq<Word>)
    requires 0 < |data| < 0x1_0000
    ensures Apply(ram, DataStores(address, data)) == LoadWrite(ram, address, data)
  {
    hide Apply, BlockStores, OverlapsWindow, Store;
    WriteRegionMeaning(address, |data|);
    var guard := if OverlapsWindow(address, |data|) then UNPUBLISH_STORES else [];
    var before := if OverlapsWindow(address, |data|) then Unpublish(ram) else ram;
    ApplyGuard(ram, OverlapsWindow(address, |data|));
    if IsInWriteRegion(address, |data|) {
      var written := Store(before, address, data);
      ApplyBlock(before, address, data);
      ApplyConcat(ram, guard, BlockStores(address, data));
      ApplyGuard(written, OverlapsWindow(address, |data|));
      ApplyConcat(ram, guard + BlockStores(address, data), guard);
    }
  }

  lemma ApplyGuard(ram: Ram, overlaps: bool)
    ensures InRam(if overlaps then UNPUBLISH_STORES else [])
    ensures Apply(ram, if overlaps then UNPUBLISH_STORES else []) == if overlaps then Unpublish(ram) else ram
  {
    ApplyUnpublish(ram);
  }

  /** The first `n` words of the block put VALID and its inverse into the publish words. */
  predicate CarriesPublish(address: U32, data: seq<Word>, n: nat)
    requires n <= |data|
  {
    && address <= PUBLISH_ADDRESS && PUBLISH_ADDRESS + 1 < address + n
    && data[PUBLISH_ADDRESS - address] == PUBLISH_VALID && data[PUBLISH_ADDRESS + 1 - address] == PUBLISH_VALID_INVERSE
  }

  /** Inside a data command that touches the window the publish words read VALID exactly
      while a block that carries both of them is being stored, from its second publish
      word on; the stores behind the block take that back. */
  lemma PublishedDuringData(ram: Ram, address: U32, data: seq<Word>, k: nat)
    requires 0 < |data| < 0x1_0000 && OverlapsWindow(address, |data|)
    requires 0 < k <= |DataStores(address, data)|
    ensures Published(Apply(ram, DataStores(address, data)[..k])) <==>
            IsInWriteRegion(address, |data|) && 2 <= k <= |data| + 2 && CarriesPublish(address, data, k - 2)
  {
    hide Apply, IsInWriteRegion, OverlapsWindow;
    var stores := DataStores(address, data);
    if k <= 2 {
      assert stores[..k] == UNPUBLISH_STORES[..k];
      StaysCleared(ram, stores[..k]);
    } else if k <= |data| + 2 {
      WriteRegionMeaning(address, |data|);
      BlockFront(address, data, k - 2);
      assert stores[..k] == UNPUBLISH_STORES + BlockStores(address, data[..k - 2]);
      ApplyUnpublish(ram);
      ApplyBlock(Unpublish(ram), address, data[..k - 2]);
      ApplyConcat(ram, UNPUBLISH_STORES, BlockStores(address, data[..k - 2]));
    } else {
      ClearedBehindBlock(ram, address, data, k);
    }
  }

  lemma ClearedBehindBlock(ram: Ram, address: U32, data: seq<Word>, k: nat)
    requires 0 < |data| < 0x1_0000 && OverlapsWindow(address, |data|)
    requires |data| + 2 < k <= |DataStores(address, data)|
    ensures !Published(Apply(ram, DataStores(address, data)[..k]))
  {
    hide Apply, IsInWriteRegion, OverlapsWindow;
    var stores := DataStores(address, data);
    var n := |data| + 2;
    var tail := UNPUBLISH_STORES[..k - n];
    assert stores[..k] == stores[..n] + tail;
    ApplyConcat(ram, stores[..n], tail);
    StaysCleared(Apply(ram, stores[..n]), tail);
  }

  /** A block of just the two words does it, in any RAM. */
  lemma PublishWordsCanReadValid(ram: Ram)
    ensures Published(Apply(ram, DataStores(PUBLISH_ADDRESS, [PUBLISH_VALID, PUBLISH_VALID_INVERSE])[..4]))
  {
    hide Apply;
    var data := [PUBLISH_VALID, PUBLISH_VALID_INVERSE];
    TwoPublishWords(PUBLISH_ADDRESS, 2);
    PublishedDuringData(ram, PUBLISH_ADDRESS, data, 4);
  }

  lemma TwoPublishWords(address: U32, count: U32)
    requires address == PUBLISH_ADDRESS && count == 2
    ensures OverlapsWindow(address, count) && IsInWriteRegion(address, count)
  {
  }

  // ---------------------------------------------------------------- safety between stores

  /** After every single store of a validation, published still means valid. */
  lemma EveryValidationStoreIsSafe(ram: Ram, init: Init, k: nat, limit: nat)
    requires k <= |ValidationStores(ram, init)|
    requires CoreRuns.PublishSafe(ram, limit) && CoreRuns.EndsBy(ram, limit)
    ensures CoreRuns.PublishSafe(Apply(ram, ValidationStores(ram, init)[..k]), limit)
  {
    hide ServiceValid, ImmutableEnd, Published, ValidationStores, Validate;
    var stores := ValidationStores(ram, init);
    if k == 0 {
    } else if k < |stores| {
      PublishesLast(ram, init, k);
    } else {
      assert stores[..k] == stores;
      ApplyValidation(ram, init);
      CoreRuns.ValidateIsSafe(ram, init, limit);
    }
  }

  /** The same for a data command; the one exception is a block that itself carries both
      publish words. */
  lemma EveryStoreIsSafe(ram: Ram, address: U32, data: seq<Word>, k: nat, limit: nat)
    requires 0 < |data| < 0x1_0000 && k <= |DataStores(address, data)|
    requires CoreRuns.PublishSafe(ram, limit) && limit <= WINDOW_END && !CarriesPublish(address, data, |data|)
    ensures CoreRuns.PublishSafe(Apply(ram, DataStores(address, data)[..k]), limit)
  {
    hide IsInWriteRegion, OverlapsWindow, ServiceValid, ImmutableEnd, Published;
    if k == 0 {
    } else if OverlapsWindow(address, |data|) {
      PublishedDuringData(ram, address, data, k);
    } else if IsInWriteRegion(address, |data|) {
      PrefixOutside(ram, address, data, k, limit);
    }
  }

  lemma OutsideRange(address: U32, count: U32)
    requires IsInWriteRegion(address, count) && !OverlapsWindow(address, count)
    ensures address + count <= RAM_SIZE && (address + count <= HEADER_ADDRESS || WINDOW_END <= address)
  {
    WriteRegionMeaning(address, count);
  }

  lemma OutsideKeepsPublished(ram: Ram, address: nat, data: seq<Word>)
    requires address + |data| <= RAM_SIZE && (address + |data| <= HEADER_ADDRESS || WINDOW_END <= address)
    ensures Published(Store(ram, address, data)) == Published(ram)
  {
  }

  lemma PrefixOutside(ram: Ram, address: U32, data: seq<Word>, k: nat, limit: nat)
    requires 0 < |data| < 0x1_0000 && k <= |data|
    requires IsInWriteRegion(address, |data|) && !OverlapsWindow(address, |data|)
    requires CoreRuns.PublishSafe(ram, limit) && limit <= WINDOW_END
    ensures CoreRuns.PublishSafe(Apply(ram, DataStores(address, data)[..k]), limit)
  {
    hide Apply, BlockStores, Store, Published, ServiceValid, ImmutableEnd, IsInWriteRegion, OverlapsWindow;
    OutsideRange(address, |data|);
    BlockFront(address, data, k);
    assert DataStores(address, data)[..k] == BlockStores(address, data[..k]);
    ApplyBlock(ram, address, data[..k]);
    OutsideKeepsPublished(ram, address, data[..k]);
    if Published(ram) {
      CoreRuns.OutsideWriteKeepsValidity(ram, address, data[..k], WINDOW_END);
    }
  }
}
