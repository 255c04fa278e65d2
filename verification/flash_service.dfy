/** The Flash Service as the code runs it: one state object, updated in place by the
    command handlers, each proved against the transition function. */
module FlashServiceModel {
  import opened Words
  import opened Protocol
  import opened Record
  import opened Scan
  import opened Crash
  import opened Journal
  import opened FlashPort
  import opened Builders
  import opened ServiceSpec

  /** The session counters. */
  class FlashSession {
    var kind: SessionKind
    var target: Word
    var expectedPackets: U32
    var processedPackets: U32
    var expectedWords: U32
    var processedWords: U32
    var expectedBlock: U32
    var entryPoint: U32

    constructor ()
      ensures Value() == IDLE
    {
      kind := NoSession;
      target, expectedPackets, processedPackets, expectedWords := 0, 0, 0, 0;
      processedWords, expectedBlock, entryPoint := 0, 0, 0;
    }

    function Value(): Session
      reads this
    {
      Session(kind, target, expectedPackets, processedPackets, expectedWords, processedWords, expectedBlock, entryPoint)
    }

    method ResetSession()
      modifies this
      ensures Value() == IDLE
    {
      kind := NoSession;
      target := 0;
      expectedPackets := 0;
      processedPackets := 0;
      expectedWords := 0;
      processedWords := 0;
      expectedBlock := 0;
      entryPoint := 0;
    }

    method Start(newKind: SessionKind, packets: Word, words: U32, entry: U32)
      modifies this
      ensures Value() == Session(newKind, TARGET_FLASH_APP, packets, 0, words, 0, 0, entry)
    {
      kind := newKind;
      target := TARGET_FLASH_APP;
      expectedPackets := packets;
      processedPackets := 0;
      expectedWords := words;
      processedWords := 0;
      expectedBlock := 0;
      entryPoint := entry;
    }

    method Step(dataWords: Word)
      modifies this
      ensures Value() == Advance(old(Value()), dataWords)
    {
      processedPackets := Increment(processedPackets);
      processedWords := (processedWords + dataWords) % 0x1_0000_0000;
      expectedBlock := Increment(expectedBlock);
    }
  }

  class FlashService {
    const session: FlashSession
    var initialized: bool
    var flashInitialized: bool
    var verifySucceeded: bool
    var deviceId: Word
    var cpuId: Word
    var maxDataWords: Word
    var flash: Flash

    constructor (contents: Flash)
      ensures State() == DETACHED && flash == contents && fresh(session)
    {
      session := new FlashSession();
      initialized, flashInitialized, verifySucceeded := false, false, false;
      deviceId, cpuId, maxDataWords := 0, 0, 0;
      flash := contents;
    }

    function State(): Service
      reads this, session
    {
      Service(session.Value(), initialized, flashInitialized, verifySucceeded, deviceId, cpuId, maxDataWords)
    }

    method BootInit(device: Word, cpu: Word, dataWords: Word) returns (status: Status)
      modifies this, session
      ensures (State(), status) == ServiceSpec.BootInit(device, cpu, dataWords)
      ensures flash == old(flash)
    {
      session.ResetSession();
      initialized := false;
      flashInitialized := false;
      verifySucceeded := false;
      deviceId := 0;
      cpuId := 0;
      maxDataWords := 0;
      if device != DEVICE_F28377D || cpu != CPU1 {
        return TARGET_MISMATCH;
      }
      if dataWords == 0 {
        return BAD_WORD_COUNT;
      }
      deviceId := device;
      cpuId := cpu;
      maxDataWords := dataWords;
      initialized := true;
      return OK;
    }

    method EnsureFlash(failed: Status, port: Port) returns (status: Status)
      modifies this
      ensures status == if FlashReady(old(State()), port) then OK else failed
      ensures flash == old(flash)
      ensures State() == if FlashReady(old(State()), port) then old(State()).(flashInitialized := true)
                         else old(State())
    {
      if flashInitialized {
        return OK;
      }
      if !port.initOk {
        return failed;
      }
      flashInitialized := true;
      return OK;
    }

    method HandleErase(p: Payload, port: Port) returns (status: Status)
      modifies this, session
      ensures Outcome(State(), flash, status) == Erase(old(State()), old(flash), p, port)
    {
      if |p| != 3 {
        return BAD_PAYLOAD_LENGTH;
      }
      if p[2] != 0 {
        return BAD_FLAGS;
      }
      var mask := Join(p[0], p[1]);
      if mask == 0 {
        return BAD_ADDRESS;
      }
      status := EnsureFlash(ERASE_FAILED, port);
      if status != OK {
        return;
      }
      if !MaskAllowed(mask) {
        return BAD_ADDRESS;
      }
      if port.stop < SECTOR_COUNT {
        flash := EraseSectors(flash, mask, port.stop);
        return ERASE_FAILED;
      }
      flash := EraseSectors(flash, mask, SECTOR_COUNT);
      session.ResetSession();
      verifySucceeded := false;
      return OK;
    }

    method HandleBegin(kind: SessionKind, p: Payload, port: Port) returns (status: Status)
      modifies this, session
      ensures Outcome(State(), flash, status) == Begin(old(State()), old(flash), kind, p, port)
    {
      if !session.kind.NoSession? {
        return BUSY;
      }
      if |p| != 9 {
        return BAD_PAYLOAD_LENGTH;
      }
      if p[0] != TARGET_FLASH_APP {
        return TARGET_MISMATCH;
      }
      var words := Join(p[2], p[3]);
      if p[1] == 0 || words == 0 {
        return BAD_WORD_COUNT;
      }
      status := EnsureFlash(FailedStatus(kind), port);
      if status != OK {
        return;
      }
      session.Start(kind, p[1], words, Join(p[4], p[5]));
      return OK;
    }

    /** The checks in front of the Flash call of a data command. */
    method CheckData(kind: SessionKind, p: Payload) returns (status: Status)
      modifies session
      ensures status == DataStatus(old(State()), kind, p)
      ensures State() == if status == OK then old(State()) else ResetUnless(old(State()), status)
    {
      if session.kind.NoSession? {
        return MISSING_BEGIN;
      }
      if session.kind != kind {
        return INVALID_STATE;
      }
      if |p| < 5 {
        session.ResetSession();
        return BAD_PAYLOAD_LENGTH;
      }
      var address, dataWords, blockIndex := Join(p[0], p[1]), p[2], Join(p[3], p[4]);
      if |p| != (5 + dataWords as int) % 0x1_0000 {
        session.ResetSession();
        return BAD_PAYLOAD_LENGTH;
      }
      if dataWords == 0 || dataWords % 8 != 0 || dataWords > maxDataWords {
        session.ResetSession();
        return BAD_WORD_COUNT;
      }
      if blockIndex != session.expectedBlock {
        session.ResetSession();
        return BLOCK_INDEX_ERROR;
      }
      if session.processedPackets >= session.expectedPackets ||
         dataWords > (session.expectedWords - session.processedWords) % 0x1_0000_0000
      {
        session.ResetSession();
        return TOTAL_COUNT_MISMATCH;
      }
      if !AddressAllowed(address, dataWords, kind.ProgramSession?) {
        session.ResetSession();
        return ADDRESS_OUT_OF_RANGE;
      }
      return OK;
    }

    method HandleData(kind: SessionKind, p: Payload, port: Port) returns (status: Status)
      modifies this, session
      ensures Outcome(State(), flash, status) == Data(old(State()), old(flash), kind, p, port)
    {
      status := CheckData(kind, p);
      if status != OK {
        return;
      }
      var call := FlashCall(flash, kind, Join(p[0], p[1]), p[5..], port);
      flash := call.1;
      if !call.0.FlashOk? {
        session.ResetSession();
        return if call.0.BadFlashAddress? then ADDRESS_OUT_OF_RANGE else FailedStatus(kind);
      }
      session.Step(p[2]);
      if kind.ProgramSession? {
        verifySucceeded := false;
      }
      return OK;
    }

    method HandleEnd(kind: SessionKind, p: Payload) returns (status: Status)
      modifies this, session
      ensures Outcome(State(), flash, status) == End(old(State()), old(flash), kind, p)
    {
      if session.kind.NoSession? {
        return MISSING_BEGIN;
      }
      if session.kind != kind {
        return UNEXPECTED_END;
      }
      if |p| != 6 {
        session.ResetSession();
        return BAD_PAYLOAD_LENGTH;
      }
      var packets, words := Join(p[0], p[1]), Join(p[2], p[3]);
      var valid := packets == session.expectedPackets && packets == session.processedPackets &&
                   words == session.expectedWords && words == session.processedWords;
      session.ResetSession();
      if !valid {
        return TOTAL_COUNT_MISMATCH;
      }
      if kind.VerifySession? {
        verifySucceeded := true;
      }
      return OK;
    }

    /** Programs a built record; what reached Flash depends on the port. */
    method ProgramMetadataRecord(slot: nat, record: array<Word>, port: Port) returns (status: Status)
      requires slot < RECORD_COUNT && record.Length == RECORD_WORDS
      modifies this
      ensures var ready := FlashReady(old(State()), port);
        && State() == (if ready then old(State()).(flashInitialized := true) else old(State()))
        && flash == (if ready then old(flash).(journal := old(flash).journal[slot := Torn(record[..], Cut(port))])
                     else old(flash))
        && status == (if ready && port.callOk then OK else METADATA_WRITE_FAILED)
    {
      status := EnsureFlash(METADATA_WRITE_FAILED, port);
      if status != OK {
        return;
      }
      flash := flash.(journal := flash.journal[slot := Torn(record[..], Cut(port))]);
      return if port.callOk then OK else METADATA_WRITE_FAILED;
    }

    /** Programs the record of an admitted append, scans again and checks. */
    method CommitRecord(kind: AppendKind, a: Admission, record: array<Word>, before: Summary, port: Port)
      returns (status: Status)
      requires a.Write? && a.slot < RECORD_COUNT
      requires record.Length == RECORD_WORDS && record[..] == Encode(a.entry, a.attemptCount)
      requires before == Summarise(flash.journal)
      modifies this
      ensures Outcome(State(), flash, status) == Commit(old(State()), old(flash), kind, a, port)
    {
      status := ProgramMetadataRecord(a.slot, record, port);
      if status != OK {
        return;
      }
      var after := ScanLoadedRecords(flash.journal);
      if !PassesRescan(kind, a.entry, before, after) {
        return METADATA_WRITE_FAILED;
      }
      if kind.ImageAppend? {
        verifySucceeded := false;
      }
      return OK;
    }

    method HandleBootAttemptAppend(p: Payload, port: Port) returns (status: Status)
      requires |p| == 16 && p[0] == BOOT_ATTEMPT && initialized
      modifies this
      ensures Outcome(State(), flash, status) == AppendRecord(old(State()), old(flash), p, port)
    {
      if BoundPayloadStatus(p) != OK {
        return BoundPayloadStatus(p);
      }
      var summary := ScanLoadedRecords(flash.journal);
      var id := RequestIdentity(p);
      var admission := AdmitAttempt(summary, id);
      match admission
      case Refused(refusal) => return refusal;
      case AlreadyDone => return OK;
      case Write(entry, attemptCount, slot) =>
        var record := new Word[RECORD_WORDS];
        BuildBootAttemptRecord(record, Increment(summary.boot.latestSequence), summary.boot, attemptCount);
        status := CommitRecord(AttemptAppend, admission, record, summary, port);
    }

    method ConfirmJournal(expected: Option<Identity>, port: Port) returns (status: Status)
      modifies this
      ensures Outcome(State(), flash, status) == ServiceSpec.ConfirmJournal(old(State()), old(flash), expected, port)
    {
      if !initialized {
        return INVALID_STATE;
      }
      var summary := ScanLoadedRecords(flash.journal);
      var admission := AdmitConfirm(summary, expected);
      match admission
      case Refused(refusal) => return refusal;
      case AlreadyDone => return OK;
      case Write(entry, attemptCount, slot) =>
        var record := new Word[RECORD_WORDS];
        BuildAppConfirmedRecord(record, Increment(summary.boot.latestSequence), summary.boot);
        status := CommitRecord(ConfirmAppend, admission, record, summary, port);
    }

    /** The App confirms itself, without stating which image it is. */
    method ConfirmCurrentImage(port: Port) returns (status: Status)
      modifies this
      ensures Outcome(State(), flash, status) == ServiceSpec.ConfirmJournal(old(State()), old(flash), None, port)
    {
      status := ConfirmJournal(None, port);
    }

    method AppendImage(p: Payload, port: Port) returns (status: Status)
      modifies this
      ensures Outcome(State(), flash, status) == AppendImageRecord(old(State()), old(flash), p, port)
    {
      if |p| != 16 {
        return BAD_PAYLOAD_LENGTH;
      }
      if p[0] != IMAGE_VALID || p[1] != SLOT_A {
        return UNSUPPORTED_FEATURE;
      }
      if p[15] != 0 {
        return BAD_FLAGS;
      }
      var request := RequestedImage(State(), p);
      if ImageRequestStatus(request) != OK {
        return ImageRequestStatus(request);
      }
      if !verifySucceeded {
        return INVALID_STATE;
      }
      var summary := ScanLoadedRecords(flash.journal);
      var admission := AdmitImage(summary, request);
      match admission
      case Refused(refusal) => return refusal;
      case AlreadyDone => return OK;
      case Write(entry, attemptCount, slot) =>
        var record := new Word[RECORD_WORDS];
        BuildImageValidRecord(record, entry.sequence, request);
        status := CommitRecord(ImageAppend, admission, record, summary, port);
    }

    method HandleMetadataAppendRecord(p: Payload, port: Port) returns (status: Status)
      requires initialized
      modifies this
      ensures Outcome(State(), flash, status) == AppendRecord(old(State()), old(flash), p, port)
    {
      if |p| == 16 && p[0] == BOOT_ATTEMPT {
        status := HandleBootAttemptAppend(p, port);
      } else if |p| == 16 && p[0] == APP_CONFIRMED {
        if BoundPayloadStatus(p) != OK {
          return BoundPayloadStatus(p);
        }
        status := ConfirmJournal(Some(RequestIdentity(p)), port);
      } else {
        status := AppendImage(p, port);
      }
    }

    method HandleCommand(r: Request, port: Port) returns (status: Status)
      modifies this, session
      ensures Outcome(State(), flash, status) == ServiceSpec.HandleCommand(old(State()), old(flash), r, port)
    {
      if !initialized {
        return INVALID_STATE;
      }
      if r.command == CMD_ERASE {
        status := HandleErase(r.payload, port);
      } else if r.command == CMD_PROGRAM_BEGIN {
        status := HandleBegin(ProgramSession, r.payload, port);
      } else if r.command == CMD_PROGRAM_DATA {
        status := HandleData(ProgramSession, r.payload, port);
      } else if r.command == CMD_PROGRAM_END {
        status := HandleEnd(ProgramSession, r.payload);
      } else if r.command == CMD_VERIFY_BEGIN {
        status := HandleBegin(VerifySession, r.payload, port);
      } else if r.command == CMD_VERIFY_DATA {
        status := HandleData(VerifySession, r.payload, port);
      } else if r.command == CMD_VERIFY_END {
        status := HandleEnd(VerifySession, r.payload);
      } else if r.command == CMD_METADATA_APPEND_RECORD {
        status := HandleMetadataAppendRecord(r.payload, port);
      } else {
        status := UNSUPPORTED_COMMAND;
      }
    }
  }
}
