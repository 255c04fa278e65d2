/** The boot core's RAM commands as the code runs them: memory written in place, one
    core object updated by the handlers, each proved against the transition function. */
module BootAlgorithmModel {
  import opened Words
  import opened Crc
  import opened Protocol
  import opened RamMap
  import opened CoreSpec
  import opened StoreOrder
  import opened Record
  import opened Scan
  import Policy

  /** The state of a RAM load. */
  class RamLoadState {
    var active: bool
    var target: Word
    var expectedPackets: U32
    var processedPackets: U32
    var expectedWords: U32
    var processedWords: U32
    var expectedBlock: U32
    var entryPoint: U32
    var loadedStart: U32
    var loadedEnd: U32
    var crc32: U32
    var imageReady: bool
    var crcChecked: bool

    constructor ()
      ensures Value() == NO_LOAD
    {
      active, target, expectedPackets, processedPackets := false, 0, 0, 0;
      expectedWords, processedWords, expectedBlock, entryPoint := 0, 0, 0, 0;
      loadedStart, loadedEnd, crc32, imageReady, crcChecked := 0, 0, CRC32_INIT, false, false;
    }

    function Value(): RamLoad
      reads this
    {
      RamLoad(active, target, expectedPackets, processedPackets, expectedWords, processedWords, expectedBlock,
              entryPoint, loadedStart, loadedEnd, crc32, imageReady, crcChecked)
    }

    method ResetRamLoad()
      modifies this
      ensures Value() == NO_LOAD
    {
      active := false;
      target := 0;
      expectedPackets := 0;
      processedPackets := 0;
      expectedWords := 0;
      processedWords := 0;
      expectedBlock := 0;
      entryPoint := 0;
      loadedStart := 0;
      loadedEnd := 0;
      crc32 := CRC32_INIT;
      imageReady := false;
      crcChecked := false;
    }

    method Start(packets: Word, words: U32, entry: U32)
      modifies this
      ensures Value() == RamLoad(true, TARGET_RAM_APP, packets, 0, words, 0, 0, entry,
                                 0xFFFF_FFFF, 0, CRC32_INIT, false, false)
    {
      active := true;
      target := TARGET_RAM_APP;
      expectedPackets := packets;
      processedPackets := 0;
      expectedWords := words;
      processedWords := 0;
      expectedBlock := 0;
      entryPoint := entry;
      loadedStart := 0xFFFF_FFFF;
      loadedEnd := 0;
      crc32 := CRC32_INIT;
      imageReady := false;
      crcChecked := false;
    }

    /** Feeds the words of a block to the running CRC. */
    method AbsorbWords(data: seq<Word>)
      modifies `crc32
      ensures crc32 == Crc32Fold(old(crc32), data)
    {
      for index := 0 to |data|
        invariant crc32 == Crc32Fold(old(crc32), data[..index])
      {
        crc32 := UpdateWord32(crc32, data[index]);
        assert data[..index + 1][..index] == data[..index];
      }
      assert data[..|data|] == data;
    }

    /** Counts a block that was written. */
    method Count(address: U32, data: seq<Word>)
      requires |data| < 0x1_0000
      modifies this
      ensures Value() == AdvanceLoad(old(Value()), address, data)
    {
      processedPackets := Increment(processedPackets);
      processedWords := (processedWords + |data|) % 0x1_0000_0000;
      expectedBlock := Increment(expectedBlock);
      AbsorbWords(data);
      var end := (address + |data|) % 0x1_0000_0000;
      loadedStart := if address < loadedStart then address else loadedStart;
      loadedEnd := if end > loadedEnd then end else loadedEnd;
    }

    method Finish()
      modifies this
      ensures Value() == old(Value()).(active := false, crc32 := Crc32Finalize(old(crc32)),
                                       imageReady := true, crcChecked := false)
    {
      active := false;
      crc32 := Crc32Finalize(crc32);
      imageReady := true;
      crcChecked := false;
    }
  }

  class BootAlgorithm {
    const load: RamLoadState
    const memory: array<Word>
    var handler: Option<U32>
    var serviceActive: bool
    var serviceState: AttachState
    var lastAttachStatus: Status
    var capabilities: U32
    var loadedCrc32: U32
    var loadedWords: U32

    constructor (contents: Ram)
      ensures Valid() && fresh(load) && fresh(memory)
      ensures State() == Core(NO_LOAD, NO_SERVICE) && memory[..] == contents
    {
      load := new RamLoadState();
      var words := new Word[RAM_SIZE](i requires 0 <= i < RAM_SIZE => contents[i]);
      memory := words;
      handler, serviceActive, serviceState, lastAttachStatus := None, false, Detached, OK;
      capabilities, loadedCrc32, loadedWords := 0, 0, 0;
      new;
      assert memory[..] == contents;
    }

    predicate Valid() {
      memory.Length == RAM_SIZE
    }

    function Service(): Service
      reads this
    {
      CoreSpec.Service(handler, serviceActive, serviceState, lastAttachStatus, capabilities, loadedCrc32, loadedWords)
    }

    function State(): Core
      reads this, load
    {
      Core(load.Value(), Service())
    }

    // -------------------------------------------------------------- memory

    /** One word; `stores` lists what a method stored, in order. */
    method StoreWord(address: nat, word: Word, ghost before: seq<Write>) returns (ghost stores: seq<Write>)
      requires Valid() && address < RAM_SIZE
      modifies memory
      ensures memory[..] == Store(old(memory[..]), address, [word])
      ensures stores == before + [Write(address, word)]
    {
      memory[address] := word;
      stores := before + [Write(address, word)];
    }

    method InvalidatePublishState() returns (ghost stores: seq<Write>)
      requires Valid()
      modifies memory
      ensures memory[..] == Unpublish(old(memory[..])) && stores == UNPUBLISH_STORES
    {
      stores := StoreWord(PUBLISH_ADDRESS, PUBLISH_INVALID, []);
      stores := StoreWord(PUBLISH_ADDRESS + 1, PUBLISH_INVALID, stores);
      assert memory[..] == Unpublish(old(memory[..]));
    }

    /** The inverse is stored first, VALID last. */
    method PublishService() returns (ghost stores: seq<Write>)
      requires Valid()
      modifies memory
      ensures memory[..] == Publish(old(memory[..])) && stores == PUBLISH_STORES
    {
      stores := StoreWord(PUBLISH_ADDRESS + 1, PUBLISH_VALID_INVERSE, []);
      stores := StoreWord(PUBLISH_ADDRESS, PUBLISH_VALID, stores);
      assert memory[..] == Publish(old(memory[..]));
    }

    method StoreWords(address: nat, data: seq<Word>) returns (ghost stores: seq<Write>)
      requires Valid() && address + |data| <= RAM_SIZE
      modifies memory
      ensures memory[..] == Store(old(memory[..]), address, data) && stores == BlockStores(address, data)
    {
      stores := [];
      for i := 0 to |data|
        invariant forall a :: 0 <= a < RAM_SIZE ==>
          memory[a] == if address <= a < address + i then data[a - address] else old(memory[a])
        invariant stores == BlockStores(address, data)[..i]
      {
        stores := StoreWord(address + i, data[i], stores);
      }
    }

    method WriteBlock(address: U32, data: seq<Word>) returns (ok: bool, ghost stores: seq<Write>)
      requires Valid() && |data| < 0x1_0000
      modifies memory
      ensures ok <==> IsInWriteRegion(address, |data|)
      ensures ok ==> address + |data| <= RAM_SIZE && memory[..] == Store(old(memory[..]), address, data)
      ensures !ok ==> memory[..] == old(memory[..])
      ensures stores == if ok then BlockStores(address, data) else []
    {
      if !IsInWriteRegion(address, |data|) {
        return false, [];
      }
      WriteRegionMeaning(address, |data|);
      stores := StoreWords(address, data);
      ok := true;
    }

    method InvalidateFlashService() returns (ghost stores: seq<Write>)
      requires Valid()
      modifies this, memory
      ensures memory[..] == Unpublish(old(memory[..])) && stores == UNPUBLISH_STORES
      ensures Service() == DetachIf(old(Service()), true)
    {
      stores := InvalidatePublishState();
      handler := None;
      serviceActive := false;
      serviceState := Detached;
      capabilities := 0;
    }

    // -------------------------------------------------------------- validation

    method ReadHeader() returns (header: array<Word>)
      requires Valid()
      ensures fresh(header) && header.Length == HEADER_WORDS
      ensures header[..] == Header(memory[..])
    {
      header := new Word[HEADER_WORDS];
      for index := 0 to HEADER_WORDS
        invariant forall k :: 0 <= k < index ==> header[k] == memory[HEADER_ADDRESS + k]
      {
        header[index] := memory[HEADER_ADDRESS + index];
      }
    }

    method RangeCrc(start: nat, end: nat) returns (crc: U32)
      requires Valid() && start <= end <= RAM_SIZE
      ensures crc == Crc32Of(memory[start..end])
    {
      crc := CRC32_INIT;
      for address := start to end
        invariant crc == Crc32Fold(CRC32_INIT, memory[start..address])
      {
        crc := UpdateWord32(crc, memory[address]);
        assert memory[start..address + 1][..address - start] == memory[start..address];
      }
      crc := Crc32Finalize(crc);
    }

    /** The checks, in order, on the header and on the RAM it describes. */
    method CheckFlashService() returns (status: Status)
      requires Valid()
      ensures status == ValidationStatus(memory[..])
    {
      var header := ReadHeader();
      ghost var h := Header(memory[..]);
      var headerCrc := CalcWords32(header, HEADER_WORDS - 2);
      assert header[..HEADER_WORDS - 2] == h[..26];
      if Field(header[..], 0) != HEADER_MAGIC || header[2] != HEADER_VERSION || header[3] != HEADER_WORDS ||
         headerCrc != Field(header[..], 26)
      {
        return METADATA_INVALID;
      }
      if header[4] != ABI_MAJOR || header[5] > ABI_MINOR || header[22] != CRC32_IEEE {
        return UNSUPPORTED_PROTOCOL;
      }
      if !LayoutMatches(header[..]) {
        return METADATA_INVALID;
      }
      if !RangesValid(header[..]) {
        return RAM_REGION_ERROR;
      }
      var start, end := Field(header[..], 6), Field(header[..], 8);
      WriteRegionMeaning(start, end - start);
      var confirm := Join(memory[EXPORT_ADDRESS], memory[EXPORT_ADDRESS + 1]);
      if confirm == 0 || confirm == 0xFFFF_FFFF || confirm < start || confirm >= end {
        return RAM_REGION_ERROR;
      }
      if !CapabilitiesComplete(header[..]) {
        return UNSUPPORTED_FEATURE;
      }
      var crc := RangeCrc(start, end);
      assert memory[start..end] == memory[..][start..end];
      return if crc != Field(header[..], 24) then VERIFY_MISMATCH else OK;
    }

    /** Validates, initialises and publishes, storing word by word as listed. */
    method ValidateFlashService(init: Init) returns (status: Status, ghost stores: seq<Write>)
      requires Valid()
      modifies memory
      ensures (memory[..], status) == Validate(old(memory[..]), init)
      ensures stores == ValidationStores(old(memory[..]), init)
    {
      stores := InvalidatePublishState();
      status := CheckFlashService();
      if status != OK {
        return;
      }
      ghost var more := StoreWords(RUNTIME_ADDRESS, init.runtime);
      stores := stores + more;
      status := init.status;
      if status != OK {
        return;
      }
      more := PublishService();
      stores := stores + more;
    }

    // -------------------------------------------------------------- RAM load

    method HandleRamLoadBegin(p: Payload) returns (status: Status)
      requires Valid()
      modifies load
      ensures Outcome(State(), memory[..], status) == LoadBegin(old(State()), old(memory[..]), p)
    {
      if |p| != 9 {
        return BAD_PAYLOAD_LENGTH;
      }
      if load.active {
        return BUSY;
      }
      if p[0] != TARGET_RAM_APP {
        return TARGET_MISMATCH;
      }
      var packets, words, entry := p[1], Join(p[2], p[3]), Join(p[4], p[5]);
      if packets == 0 || words == 0 {
        return BAD_WORD_COUNT;
      }
      if !IsInWriteRegion(entry, 1) {
        return RAM_REGION_ERROR;
      }
      load.Start(packets, words, entry);
      return OK;
    }

    /** The checks in front of the write; a refused command drops the load. */
    method CheckRamLoadData(p: Payload) returns (status: Status)
      modifies load
      ensures status == LoadDataStatus(old(load.Value()), p)
      ensures load.Value() == if status == OK || status == MISSING_BEGIN then old(load.Value()) else NO_LOAD
    {
      if !load.active {
        return MISSING_BEGIN;
      }
      if |p| < 5 {
        load.ResetRamLoad();
        return BAD_PAYLOAD_LENGTH;
      }
      var dataWords, blockIndex := p[2], Join(p[3], p[4]);
      if |p| != (5 + dataWords as int) % 0x1_0000 {
        load.ResetRamLoad();
        return BAD_PAYLOAD_LENGTH;
      }
      if dataWords == 0 {
        load.ResetRamLoad();
        return BAD_WORD_COUNT;
      }
      if blockIndex != load.expectedBlock {
        load.ResetRamLoad();
        return BLOCK_INDEX_ERROR;
      }
      if load.processedPackets >= load.expectedPackets ||
         dataWords > (load.expectedWords - load.processedWords) % 0x1_0000_0000
      {
        load.ResetRamLoad();
        return TOTAL_COUNT_MISMATCH;
      }
      return OK;
    }

    /** The write of a data command, with the publish words cleared around it. */
    method WriteImageBlock(address: U32, data: seq<Word>) returns (ok: bool, ghost stores: seq<Write>)
      requires Valid() && 0 < |data| < 0x1_0000
      modifies this, memory
      ensures ok <==> IsInWriteRegion(address, |data|)
      ensures memory[..] == LoadWrite(old(memory[..]), address, data)
      ensures stores == DataStores(address, data)
      ensures Service() == DetachIf(old(Service()), OverlapsWindow(address, |data|))
    {
      ghost var more;
      stores := [];
      if OverlapsWindow(address, |data|) {
        stores := InvalidateFlashService();
      }
      ok, more := WriteBlock(address, data);
      stores := stores + more;
      if ok && OverlapsWindow(address, |data|) {
        more := InvalidatePublishState();
        stores := stores + more;
      }
    }

    method HandleRamLoadData(p: Payload) returns (status: Status)
      requires Valid()
      modifies this, load, memory
      ensures Outcome(State(), memory[..], status) == LoadData(old(State()), old(memory[..]), p)
    {
      status := CheckRamLoadData(p);
      if status != OK {
        return;
      }
      var address, data := Join(p[0], p[1]), p[5..];
      ghost var stores;
      var ok;
      ok, stores := WriteImageBlock(address, data);
      if !ok {
        load.ResetRamLoad();
        return RAM_REGION_ERROR;
      }
      load.Count(address, data);
      return OK;
    }

    method HandleRamLoadEnd(p: Payload) returns (status: Status)
      requires Valid()
      modifies load
      ensures Outcome(State(), memory[..], status) == LoadEnd(old(State()), old(memory[..]), p)
    {
      if !load.active {
        return MISSING_BEGIN;
      }
      if |p| != 6 {
        load.ResetRamLoad();
        return BAD_PAYLOAD_LENGTH;
      }
      var packets, words := Join(p[0], p[1]), Join(p[2], p[3]);
      if packets != load.expectedPackets || packets != load.processedPackets ||
         words != load.expectedWords || words != load.processedWords ||
         load.entryPoint < load.loadedStart || load.entryPoint >= load.loadedEnd
      {
        load.ResetRamLoad();
        return TOTAL_COUNT_MISMATCH;
      }
      load.Finish();
      return OK;
    }

    method HandleRamCheckCrc(p: Payload) returns (status: Status)
      requires Valid()
      modifies load
      ensures Outcome(State(), memory[..], status) == CheckCrc(old(State()), old(memory[..]), p)
    {
      if |p| != 5 {
        return BAD_PAYLOAD_LENGTH;
      }
      if p[4] != 0 {
        return BAD_FLAGS;
      }
      if !load.imageReady {
        return INVALID_STATE;
      }
      if Join(p[0], p[1]) != load.crc32 || Join(p[2], p[3]) != load.expectedWords {
        load.crcChecked := false;
        return VERIFY_MISMATCH;
      }
      load.crcChecked := true;
      return OK;
    }

    // -------------------------------------------------------------- run

    /** The entry point is the one to jump to when the status is OK. */
    method HandleRunRam(p: Payload) returns (status: Status, entry: Option<U32>)
      ensures (status, entry) == RunRam(State(), p)
    {
      if |p| != 3 {
        return BAD_PAYLOAD_LENGTH, None;
      }
      if p[2] != 0 {
        return BAD_FLAGS, None;
      }
      if !load.imageReady || !load.crcChecked {
        return INVALID_STATE, None;
      }
      var address := Join(p[0], p[1]);
      if address == 0 {
        address := load.entryPoint;
      }
      if !InLoadedImage(load.Value(), address, 1) || !IsInWriteRegion(address, 1) {
        return RAM_REGION_ERROR, None;
      }
      return OK, Some(address);
    }

    /** RUN decides on a fresh scan of the journal. */
    method HandleRun(p: Payload, journal: seq<Slot>) returns (status: Status)
      ensures status == Policy.HandleRun(Summarise(journal), p)
    {
      hide Summarise;
      if |p| != 4 {
        return BAD_PAYLOAD_LENGTH;
      }
      if p[0] != TARGET_FLASH_APP {
        return TARGET_MISMATCH;
      }
      var entry := Join(p[1], p[2]);
      if entry % 8 != 0 {
        return BAD_ALIGNMENT;
      }
      var summary := ScanLoadedRecords(journal);
      if !summary.boot.metadataValid || summary.boot.entryPoint != entry {
        return METADATA_INVALID;
      }
      if !summary.boot.appConfirmed &&
         (summary.boot.attemptCount == 0 || summary.boot.attemptCount > summary.boot.attemptLimit)
      {
        return if summary.boot.attemptCount > summary.boot.attemptLimit then ATTEMPT_LIMIT_REACHED else INVALID_STATE;
      }
      return OK;
    }

    // -------------------------------------------------------------- attach

    method FailServiceAttach(status: Status)
      requires Valid()
      modifies this
      ensures State() == FailAttach(old(State()), memory[..], status).core
    {
      if !serviceActive {
        serviceState := AttachError;
      }
      lastAttachStatus := status;
    }

    method Adopt()
      requires Valid()
      modifies this
      ensures Service() == AttachTo(old(Service()), memory[..])
    {
      assert Field(Header(memory[..]), 18) == Join(memory[HEADER_ADDRESS + 18], memory[HEADER_ADDRESS + 19]);
      assert Field(Header(memory[..]), 20) == Join(memory[HEADER_ADDRESS + 20], memory[HEADER_ADDRESS + 21]);
      handler := Some(Join(memory[HEADER_ADDRESS + 18], memory[HEADER_ADDRESS + 19]));
      serviceActive := true;
      serviceState := Attached;
      capabilities := Join(memory[HEADER_ADDRESS + 20], memory[HEADER_ADDRESS + 21]);
      lastAttachStatus := OK;
    }

    method HandleServiceAttach(p: Payload, init: Init) returns (status: Status)
      requires Valid()
      modifies this, memory
      ensures Outcome(State(), memory[..], status) == Attach(old(State()), old(memory[..]), p, init)
    {
      status := AttachStatus(load.Value(), p);
      if status != OK {
        FailServiceAttach(status);
        return;
      }
      ghost var stores;
      status, stores := ValidateFlashService(init);
      if status != OK {
        FailServiceAttach(status);
        return;
      }
      Adopt();
      loadedCrc32 := load.crc32;
      loadedWords := load.expectedWords;
    }

    method RestoreFlashService(init: Init) returns (status: Status)
      requires Valid()
      modifies this, memory
      ensures Outcome(State(), memory[..], status) == Restore(old(State()), old(memory[..]), init)
    {
      ghost var stores;
      status, stores := ValidateFlashService(init);
      if status != OK {
        stores := InvalidateFlashService();
        return;
      }
      Adopt();
    }
  }
}
