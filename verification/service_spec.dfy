/** The Flash Service as a transition function: one command, one outcome. */
module ServiceSpec {
  import opened Words
  import opened Protocol
  import opened Record
  import opened Scan
  import opened Crash
  import opened Journal
  import opened FlashPort

  datatype SessionKind = NoSession | ProgramSession | VerifySession

  datatype Session = Session(
    kind: SessionKind,
    target: Word,
    expectedPackets: U32,
    processedPackets: U32,
    expectedWords: U32,
    processedWords: U32,
    expectedBlock: U32,
    entryPoint: U32)

  const IDLE := Session(NoSession, 0, 0, 0, 0, 0, 0, 0)

  datatype Service = Service(
    session: Session,
    initialized: bool,
    flashInitialized: bool,
    verifySucceeded: bool,
    deviceId: Word,
    cpuId: Word,
    maxDataWords: Word)

  const DETACHED := Service(IDLE, false, false, false, 0, 0, 0)

  datatype Outcome = Outcome(service: Service, flash: Flash, status: Status)

  datatype Request = Request(command: Word, payload: Payload)

  function BootInit(deviceId: Word, cpuId: Word, maxDataWords: Word): (Service, Status) {
    if deviceId != DEVICE_F28377D || cpuId != CPU1 then (DETACHED, TARGET_MISMATCH)
    else if maxDataWords == 0 then (DETACHED, BAD_WORD_COUNT)
    else (DETACHED.(deviceId := deviceId, cpuId := cpuId, maxDataWords := maxDataWords, initialized := true), OK)
  }

  /** Flash is initialised by the first command that needs it. */
  predicate FlashReady(s: Service, port: Port) {
    s.flashInitialized || port.initOk
  }

  // ---------------------------------------------------------------- erase

  function Erase(s: Service, flash: Flash, p: Payload, port: Port): Outcome {
    if |p| != 3 then Outcome(s, flash, BAD_PAYLOAD_LENGTH)
    else if p[2] != 0 then Outcome(s, flash, BAD_FLAGS)
    else if Join(p[0], p[1]) == 0 then Outcome(s, flash, BAD_ADDRESS)
    else if !FlashReady(s, port) then Outcome(s, flash, ERASE_FAILED)
    else
      var ready := s.(flashInitialized := true);
      if !MaskAllowed(Join(p[0], p[1])) then Outcome(ready, flash, BAD_ADDRESS)
      else if port.stop < SECTOR_COUNT then
        Outcome(ready, EraseSectors(flash, Join(p[0], p[1]), port.stop), ERASE_FAILED)
      else
        Outcome(ready.(session := IDLE, verifySucceeded := false),
                EraseSectors(flash, Join(p[0], p[1]), SECTOR_COUNT), OK)
  }

  // ---------------------------------------------------------------- program and verify sessions

  function FailedStatus(kind: SessionKind): Status {
    if kind.ProgramSession? then PROGRAM_FAILED else VERIFY_FAILED
  }

  function Begin(s: Service, flash: Flash, kind: SessionKind, p: Payload, port: Port): Outcome {
    if !s.session.kind.NoSession? then Outcome(s, flash, BUSY)
    else if |p| != 9 then Outcome(s, flash, BAD_PAYLOAD_LENGTH)
    else if p[0] != TARGET_FLASH_APP then Outcome(s, flash, TARGET_MISMATCH)
    else if p[1] == 0 || Join(p[2], p[3]) == 0 then Outcome(s, flash, BAD_WORD_COUNT)
    else if !FlashReady(s, port) then Outcome(s, flash, FailedStatus(kind))
    else
      Outcome(s.(flashInitialized := true,
                 session := Session(kind, TARGET_FLASH_APP, p[1], 0, Join(p[2], p[3]), 0, 0, Join(p[4], p[5]))),
              flash, OK)
  }

  /** What the Flash call of a data command answers. A program call that does not
      succeed may have stored a prefix; a verify call changes nothing. */
  function FlashCall(flash: Flash, kind: SessionKind, address: int, data: seq<Word>, port: Port): (FlashResult, Flash)
    requires APP_START <= address && address + |data| <= APP_END
  {
    if kind.ProgramSession? then
      if port.callOk then (FlashOk, StoreApp(flash, address, data, |data|))
      else (FlashFailed, StoreApp(flash, address, data, if port.stored < |data| then port.stored else |data|))
    else if address % 8 != 0 || |data| % 8 != 0 then (BadFlashAddress, flash)
    else if AppMatches(flash, address, data) && port.callOk then (FlashOk, flash)
    else (FlashFailed, flash)
  }

  /** The status of a data command before its Flash call; OK lets the call happen. */
  function DataStatus(s: Service, kind: SessionKind, p: Payload): Status {
    if s.session.kind.NoSession? then MISSING_BEGIN
    else if s.session.kind != kind then INVALID_STATE
    else if |p| < 5 then BAD_PAYLOAD_LENGTH
    else if |p| != (5 + p[2] as int) % 0x1_0000 then BAD_PAYLOAD_LENGTH
    else if p[2] == 0 || p[2] % 8 != 0 || p[2] > s.maxDataWords then BAD_WORD_COUNT
    else if Join(p[3], p[4]) != s.session.expectedBlock then BLOCK_INDEX_ERROR
    else if s.session.processedPackets >= s.session.expectedPackets ||
            p[2] > (s.session.expectedWords - s.session.processedWords) % 0x1_0000_0000
    then TOTAL_COUNT_MISMATCH
    else if !AddressAllowed(Join(p[0], p[1]), p[2], kind.ProgramSession?) then ADDRESS_OUT_OF_RANGE
    else OK
  }

  function ResetUnless(s: Service, status: Status): Service {
    if status == MISSING_BEGIN || status == INVALID_STATE then s else s.(session := IDLE)
  }

  function Advance(session: Session, words: Word): Session {
    session.(processedPackets := Increment(session.processedPackets),
             processedWords := (session.processedWords + words) % 0x1_0000_0000,
             expectedBlock := Increment(session.expectedBlock))
  }

  function Data(s: Service, flash: Flash, kind: SessionKind, p: Payload, port: Port): Outcome {
    var status := DataStatus(s, kind, p);
    if status != OK then Outcome(ResetUnless(s, status), flash, status)
    else
      var call := FlashCall(flash, kind, Join(p[0], p[1]), p[5..], port);
      match call.0
      case BadFlashAddress => Outcome(s.(session := IDLE), call.1, ADDRESS_OUT_OF_RANGE)
      case FlashFailed => Outcome(s.(session := IDLE), call.1, FailedStatus(kind))
      case FlashOk =>
        Outcome(s.(session := Advance(s.session, p[2]),
                   verifySucceeded := s.verifySucceeded && !kind.ProgramSession?),
                call.1, OK)
  }

  function End(s: Service, flash: Flash, kind: SessionKind, p: Payload): Outcome {
    if s.session.kind.NoSession? then Outcome(s, flash, MISSING_BEGIN)
    else if s.session.kind != kind then Outcome(s, flash, UNEXPECTED_END)
    else if |p| != 6 then Outcome(s.(session := IDLE), flash, BAD_PAYLOAD_LENGTH)
    else if Join(p[0], p[1]) == s.session.expectedPackets == s.session.processedPackets &&
            Join(p[2], p[3]) == s.session.expectedWords == s.session.processedWords
    then Outcome(s.(session := IDLE, verifySucceeded := s.verifySucceeded || kind.VerifySession?), flash, OK)
    else Outcome(s.(session := IDLE), flash, TOTAL_COUNT_MISMATCH)
  }

  // ---------------------------------------------------------------- journal appends

  datatype AppendKind = ImageAppend | AttemptAppend | ConfirmAppend

  /** The check on the scan after the write. */
  predicate PassesRescan(kind: AppendKind, entry: Entry, before: Summary, after: Summary) {
    match kind
    case ImageAppend => ImageWritten(entry, after)
    case AttemptAppend => AttemptWritten(before, after)
    case ConfirmAppend => ConfirmWritten(before, after)
  }

  function Cut(port: Port): nat {
    if port.callOk || port.stored > RECORD_WORDS then RECORD_WORDS else port.stored
  }

  /** Carries out an admission: program the record, scan again, check. */
  function Commit(s: Service, flash: Flash, kind: AppendKind, a: Admission, port: Port): Outcome {
    match a
    case Refused(status) => Outcome(s, flash, status)
    case AlreadyDone => Outcome(s, flash, OK)
    case Write(entry, _, _) =>
      if !FlashReady(s, port) then Outcome(s, flash, METADATA_WRITE_FAILED)
      else
        var ready := s.(flashInitialized := true);
        var stored := flash.(journal := Perform(flash.journal, a, Cut(port)));
        if !port.callOk || !PassesRescan(kind, entry, Summarise(flash.journal), Summarise(stored.journal))
        then Outcome(ready, stored, METADATA_WRITE_FAILED)
        else Outcome(ready.(verifySucceeded := s.verifySucceeded && !kind.ImageAppend?), stored, OK)
  }

  function RequestIdentity(p: Payload): Identity
    requires |p| == 16
  {
    Identity(Join(p[2], p[3]), Join(p[4], p[5]), Join(p[6], p[7]))
  }

  function RequestedImage(s: Service, p: Payload): ImageRequest
    requires |p| == 16
  {
    ImageRequest(RequestIdentity(p), p[8], p[9], p[10], Join(p[11], p[12]), Join(p[13], p[14]), s.deviceId, s.cpuId)
  }

  /** The payload checks of a BOOT_ATTEMPT or APP_CONFIRMED append. */
  function BoundPayloadStatus(p: Payload): Status
    requires |p| == 16
  {
    if p[1] != SLOT_A then UNSUPPORTED_FEATURE
    else if p[15] != 0 then BAD_FLAGS
    else if exists k :: 8 <= k <= 14 && p[k] != 0 then BAD_PAYLOAD_LENGTH
    else OK
  }

  function ConfirmJournal(s: Service, flash: Flash, expected: Option<Identity>, port: Port): Outcome {
    if !s.initialized then Outcome(s, flash, INVALID_STATE)
    else Commit(s, flash, ConfirmAppend, AdmitConfirm(Summarise(flash.journal), expected), port)
  }

  /** The checks in front of an IMAGE_VALID append. */
  function ImagePayloadStatus(s: Service, p: Payload): Status {
    if |p| != 16 then BAD_PAYLOAD_LENGTH
    else if p[0] != IMAGE_VALID || p[1] != SLOT_A then UNSUPPORTED_FEATURE
    else if p[15] != 0 then BAD_FLAGS
    else if ImageRequestStatus(RequestedImage(s, p)) != OK then ImageRequestStatus(RequestedImage(s, p))
    else if !s.verifySucceeded then INVALID_STATE
    else OK
  }

  function AppendImageRecord(s: Service, flash: Flash, p: Payload, port: Port): Outcome {
    var status := ImagePayloadStatus(s, p);
    if status != OK then Outcome(s, flash, status)
    else Commit(s, flash, ImageAppend, AdmitImage(Summarise(flash.journal), RequestedImage(s, p)), port)
  }

  function AppendRecord(s: Service, flash: Flash, p: Payload, port: Port): Outcome {
    if |p| == 16 && p[0] == BOOT_ATTEMPT then
      if BoundPayloadStatus(p) != OK then Outcome(s, flash, BoundPayloadStatus(p))
      else Commit(s, flash, AttemptAppend, AdmitAttempt(Summarise(flash.journal), RequestIdentity(p)), port)
    else if |p| == 16 && p[0] == APP_CONFIRMED then
      if BoundPayloadStatus(p) != OK then Outcome(s, flash, BoundPayloadStatus(p))
      else ConfirmJournal(s, flash, Some(RequestIdentity(p)), port)
    else AppendImageRecord(s, flash, p, port)
  }

  // ---------------------------------------------------------------- dispatch

  function HandleCommand(s: Service, flash: Flash, r: Request, port: Port): Outcome {
    if !s.initialized then Outcome(s, flash, INVALID_STATE)
    else if r.command == CMD_ERASE then Erase(s, flash, r.payload, port)
    else if r.command == CMD_PROGRAM_BEGIN then Begin(s, flash, ProgramSession, r.payload, port)
    else if r.command == CMD_PROGRAM_DATA then Data(s, flash, ProgramSession, r.payload, port)
    else if r.command == CMD_PROGRAM_END then End(s, flash, ProgramSession, r.payload)
    else if r.command == CMD_VERIFY_BEGIN then Begin(s, flash, VerifySession, r.payload, port)
    else if r.command == CMD_VERIFY_DATA then Data(s, flash, VerifySession, r.payload, port)
    else if r.command == CMD_VERIFY_END then End(s, flash, VerifySession, r.payload)
    else if r.command == CMD_METADATA_APPEND_RECORD then AppendRecord(s, flash, r.payload, port)
    else Outcome(s, flash, UNSUPPORTED_COMMAND)
  }
}
