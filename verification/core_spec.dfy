/** The boot core's RAM commands as a transition function: loading an image into RAM,
    checking its CRC, and attaching the Flash Service found in it. */
module CoreSpec {
  import opened Words
  import opened Crc
  import opened Protocol
  import opened RamMap

  const HEADER_MAGIC: U32 := 0x4653_4832
  const HEADER_VERSION: Word := 1
  const ABI_MAJOR: Word := 2
  const ABI_MINOR: Word := 0
  const CRC32_IEEE: Word := 1
  const CAPABILITIES := 16

  datatype RamLoad = RamLoad(
    active: bool,
    target: Word,
    expectedPackets: U32,
    processedPackets: U32,
    expectedWords: U32,
    processedWords: U32,
    expectedBlock: U32,
    entryPoint: U32,
    loadedStart: U32,
    loadedEnd: U32,
    crc32: U32,
    imageReady: bool,
    crcChecked: bool)

  const NO_LOAD := RamLoad(false, 0, 0, 0, 0, 0, 0, 0, 0, 0, CRC32_INIT, false, false)

  datatype AttachState = Detached | Attached | AttachError

  datatype Service = Service(
    handler: Option<U32>,
    active: bool,
    state: AttachState,
    lastAttachStatus: Status,
    capabilities: U32,
    loadedCrc32: U32,
    loadedWords: U32)

  const NO_SERVICE := Service(None, false, Detached, OK, 0, 0, 0)

  datatype Core = Core(load: RamLoad, service: Service)

  datatype Outcome = Outcome(core: Core, ram: Ram, status: Status)

  /** The answer of the service's own initialisation, and what it leaves in its
      runtime state. */
  datatype InitCall = InitCall(status: Status, runtime: seq<Word>)

  type Init = i: InitCall | |i.runtime| == RUNTIME_WORDS witness InitCall(0, seq<Word>(RUNTIME_WORDS, _ => 0))

  // ---------------------------------------------------------------- validation

  function Header(ram: Ram): (h: seq<Word>)
    ensures |h| == HEADER_WORDS
  {
    ram[HEADER_ADDRESS..HEADER_ADDRESS + HEADER_WORDS]
  }

  function Field(h: seq<Word>, i: nat): U32
    requires i + 1 < |h|
  {
    Join(h[i], h[i + 1])
  }

  /** The header identifies itself and carries its own CRC. */
  predicate HeaderIntact(h: seq<Word>)
    requires |h| == HEADER_WORDS
  {
    && Field(h, 0) == HEADER_MAGIC
    && h[2] == HEADER_VERSION
    && h[3] == HEADER_WORDS
    && Crc32Of(h[..26]) == Field(h, 26)
  }

  predicate HeaderSupported(h: seq<Word>)
    requires |h| == HEADER_WORDS
  {
    h[4] == ABI_MAJOR && h[5] <= ABI_MINOR && h[22] == CRC32_IEEE
  }

  /** The addresses the layout fixes. */
  predicate LayoutMatches(h: seq<Word>)
    requires |h| == HEADER_WORDS
  {
    && Field(h, 10) == PUBLISH_ADDRESS
    && Field(h, 12) == RUNTIME_ADDRESS
    && Field(h, 14) == EXPORT_ADDRESS
    && Field(h, 6) == Field(h, 14)
  }

  /** The immutable range is writable RAM and holds both entry points. */
  predicate RangesValid(h: seq<Word>)
    requires |h| == HEADER_WORDS
  {
    var start, end := Field(h, 6), Field(h, 8);
    && start >= HEADER_ADDRESS + HEADER_RESERVED_WORDS
    && end > start
    && IsInWriteRegion(start, end - start)
    && start <= Field(h, 16) < end
    && start <= Field(h, 18) < end
  }

  predicate ConfirmPointerValid(ram: Ram, start: U32, end: U32) {
    var p := Join(ram[EXPORT_ADDRESS], ram[EXPORT_ADDRESS + 1]);
    p != 0 && p != 0xFFFF_FFFF && start <= p < end
  }

  predicate CapabilitiesComplete(h: seq<Word>)
    requires |h| == HEADER_WORDS
  {
    Field(h, 20) % CAPABILITIES == CAPABILITIES - 1
  }

  /** The checks in the order in which the code makes them. */
  function ValidationStatus(ram: Ram): Status {
    var h := Header(ram);
    if !HeaderIntact(h) then METADATA_INVALID
    else if !HeaderSupported(h) then UNSUPPORTED_PROTOCOL
    else if !LayoutMatches(h) then METADATA_INVALID
    else if !RangesValid(h) then RAM_REGION_ERROR
    else if !ConfirmPointerValid(ram, Field(h, 6), Field(h, 8)) then RAM_REGION_ERROR
    else if !CapabilitiesComplete(h) then UNSUPPORTED_FEATURE
    else if Crc32Of(ram[Field(h, 6)..Field(h, 8)]) != Field(h, 24) then VERIFY_MISMATCH
    else OK
  }

  /** RAM holds a Flash Service that passes every check. */
  predicate ServiceValid(ram: Ram) {
    ValidationStatus(ram) == OK
  }

  function ImmutableEnd(ram: Ram): U32 {
    Field(Header(ram), 8)
  }

  /** Publishes only when every check and the initialisation succeed. */
  function Validate(ram: Ram, init: Init): (Ram, Status) {
    var cleared := Unpublish(ram);
    var status := ValidationStatus(cleared);
    if status != OK then (cleared, status)
    else
      var initialised := Store(cleared, RUNTIME_ADDRESS, init.runtime);
      if init.status != OK then (initialised, init.status) else (Publish(initialised), OK)
  }

  // ---------------------------------------------------------------- loading

  function LoadBegin(c: Core, ram: Ram, p: Payload): Outcome {
    if |p| != 9 then Outcome(c, ram, BAD_PAYLOAD_LENGTH)
    else if c.load.active then Outcome(c, ram, BUSY)
    else if p[0] != TARGET_RAM_APP then Outcome(c, ram, TARGET_MISMATCH)
    else if p[1] == 0 || Field(p, 2) == 0 then Outcome(c, ram, BAD_WORD_COUNT)
    else if !IsInWriteRegion(Field(p, 4), 1) then Outcome(c, ram, RAM_REGION_ERROR)
    else
      Outcome(c.(load := RamLoad(true, TARGET_RAM_APP, p[1], 0, Field(p, 2), 0, 0, Field(p, 4),
                                 0xFFFF_FFFF, 0, CRC32_INIT, false, false)),
              ram, OK)
  }

  /** The status of a data command before it writes; OK lets it try. */
  function LoadDataStatus(load: RamLoad, p: Payload): Status {
    if !load.active then MISSING_BEGIN
    else if |p| < 5 then BAD_PAYLOAD_LENGTH
    else if |p| != (5 + p[2] as int) % 0x1_0000 then BAD_PAYLOAD_LENGTH
    else if p[2] == 0 then BAD_WORD_COUNT
    else if Field(p, 3) != load.expectedBlock then BLOCK_INDEX_ERROR
    else if load.processedPackets >= load.expectedPackets ||
            p[2] > (load.expectedWords - load.processedWords) % 0x1_0000_0000
    then TOTAL_COUNT_MISMATCH
    else OK
  }

  /** RAM after a data command wrote; the publish words are cleared before and after a
      write that touches the service window. */
  function LoadWrite(ram: Ram, address: U32, data: seq<Word>): Ram
    requires 0 < |data| < 0x1_0000
  {
    var overlaps := OverlapsWindow(address, |data|);
    var before := if overlaps then Unpublish(ram) else ram;
    if !IsInWriteRegion(address, |data|) then before
    else
      WriteRegionMeaning(address, |data|);
      var written := Store(before, address, data);
      if overlaps then Unpublish(written) else written
  }

  /** A service whose window is being overwritten is gone. */
  function DetachIf(s: Service, overlaps: bool): Service {
    if overlaps then s.(handler := None, active := false, state := Detached, capabilities := 0) else s
  }

  function AdvanceLoad(load: RamLoad, address: U32, data: seq<Word>): RamLoad {
    var end := (address + |data|) % 0x1_0000_0000;
    load.(processedPackets := Increment(load.processedPackets),
          processedWords := (load.processedWords + |data|) % 0x1_0000_0000,
          expectedBlock := Increment(load.expectedBlock),
          crc32 := Crc32Fold(load.crc32, data),
          loadedStart := if address < load.loadedStart then address else load.loadedStart,
          loadedEnd := if end > load.loadedEnd then end else load.loadedEnd)
  }

  function LoadData(c: Core, ram: Ram, p: Payload): Outcome {
    var status := LoadDataStatus(c.load, p);
    if status == MISSING_BEGIN then Outcome(c, ram, status)
    else if status != OK then Outcome(c.(load := NO_LOAD), ram, status)
    else
      var address, data := Field(p, 0), p[5..];
      var service := DetachIf(c.service, OverlapsWindow(address, |data|));
      var ram' := LoadWrite(ram, address, data);
      if !IsInWriteRegion(address, |data|) then Outcome(Core(NO_LOAD, service), ram', RAM_REGION_ERROR)
      else Outcome(Core(AdvanceLoad(c.load, address, data), service), ram', OK)
  }

  predicate LoadComplete(load: RamLoad, packets: U32, words: U32) {
    && packets == load.expectedPackets == load.processedPackets
    && words == load.expectedWords == load.processedWords
    && load.loadedStart <= load.entryPoint < load.loadedEnd
  }

  function LoadEnd(c: Core, ram: Ram, p: Payload): Outcome {
    if !c.load.active then Outcome(c, ram, MISSING_BEGIN)
    else if |p| != 6 then Outcome(c.(load := NO_LOAD), ram, BAD_PAYLOAD_LENGTH)
    else if !LoadComplete(c.load, Field(p, 0), Field(p, 2)) then
      Outcome(c.(load := NO_LOAD), ram, TOTAL_COUNT_MISMATCH)
    else
      Outcome(c.(load := c.load.(active := false, crc32 := Crc32Finalize(c.load.crc32),
                                 imageReady := true, crcChecked := false)),
              ram, OK)
  }

  function CheckCrc(c: Core, ram: Ram, p: Payload): Outcome {
    if |p| != 5 then Outcome(c, ram, BAD_PAYLOAD_LENGTH)
    else if p[4] != 0 then Outcome(c, ram, BAD_FLAGS)
    else if !c.load.imageReady then Outcome(c, ram, INVALID_STATE)
    else
      var matches := Field(p, 0) == c.load.crc32 && Field(p, 2) == c.load.expectedWords;
      Outcome(c.(load := c.load.(crcChecked := matches)), ram, if matches then OK else VERIFY_MISMATCH)
  }

  predicate InLoadedImage(load: RamLoad, address: U32, count: U32) {
    var end := (address + count) % 0x1_0000_0000;
    && count != 0 && end >= address && load.imageReady
    && address >= load.loadedStart && end <= load.loadedEnd
  }

  /** RUN_RAM: which entry point it would jump to. */
  function RunRam(c: Core, p: Payload): (Status, Option<U32>) {
    if |p| != 3 then (BAD_PAYLOAD_LENGTH, None)
    else if p[2] != 0 then (BAD_FLAGS, None)
    else if !c.load.imageReady || !c.load.crcChecked then (INVALID_STATE, None)
    else
      var entry := if Field(p, 0) == 0 then c.load.entryPoint else Field(p, 0);
      if !InLoadedImage(c.load, entry, 1) || !IsInWriteRegion(entry, 1) then (RAM_REGION_ERROR, None)
      else (OK, Some(entry))
  }

  // ---------------------------------------------------------------- attaching

  function FailAttach(c: Core, ram: Ram, status: Status): Outcome {
    Outcome(c.(service := c.service.(state := if c.service.active then c.service.state else AttachError,
                                     lastAttachStatus := status)),
            ram, status)
  }

  /** The checks of an attach request before RAM itself is examined. */
  function AttachStatus(load: RamLoad, p: Payload): Status {
    if |p| != 7 then BAD_PAYLOAD_LENGTH
    else if p[6] != 0 then BAD_FLAGS
    else if !load.imageReady || !load.crcChecked then INVALID_STATE
    else if Field(p, 2) != load.crc32 || Field(p, 4) != load.expectedWords then VERIFY_MISMATCH
    else if Field(p, 0) != HEADER_ADDRESS || !InLoadedImage(load, Field(p, 0), HEADER_RESERVED_WORDS)
    then RAM_REGION_ERROR
    else OK
  }

  function AttachTo(s: Service, ram: Ram): Service {
    s.(handler := Some(Field(Header(ram), 18)), active := true, state := Attached,
       capabilities := Field(Header(ram), 20), lastAttachStatus := OK)
  }

  function Attach(c: Core, ram: Ram, p: Payload, init: Init): Outcome {
    var status := AttachStatus(c.load, p);
    if status != OK then FailAttach(c, ram, status)
    else
      var v := Validate(ram, init);
      if v.1 != OK then FailAttach(c, v.0, v.1)
      else
        Outcome(c.(service := AttachTo(c.service, v.0).(loadedCrc32 := c.load.crc32,
                                                        loadedWords := c.load.expectedWords)),
                v.0, OK)
  }

  /** Attaching the service that is already in RAM, after a restart of the core. */
  function Restore(c: Core, ram: Ram, init: Init): Outcome {
    var v := Validate(ram, init);
    if v.1 != OK then Outcome(c.(service := DetachIf(c.service, true)), Unpublish(v.0), v.1)
    else Outcome(c.(service := AttachTo(c.service, v.0)), v.0, OK)
  }
}
