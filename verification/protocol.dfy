/** Command, target and status codes shared by the service and the core. */
module Protocol {
  import opened Words

  const CMD_ERASE: Word := 0x0201
  const CMD_PROGRAM_BEGIN: Word := 0x0210
  const CMD_PROGRAM_DATA: Word := 0x0211
  const CMD_PROGRAM_END: Word := 0x0212
  const CMD_VERIFY_BEGIN: Word := 0x0220
  const CMD_VERIFY_DATA: Word := 0x0221
  const CMD_VERIFY_END: Word := 0x0222
  const CMD_METADATA_APPEND_RECORD: Word := 0x0402

  const TARGET_FLASH_APP: Word := 1
  const TARGET_RAM_APP: Word := 2

  const DEVICE_F28377D: Word := 0x377D
  const CPU1: Word := 1

  const MAX_PAYLOAD := 256

  /** The payload words of a command. */
  type Payload = p: seq<Word> | |p| <= MAX_PAYLOAD

  /** The most words a data command can carry behind its five leading words. */
  const MAX_DATA := MAX_PAYLOAD - 5

  type Status = Word

  const OK: Status := 0x0000
  const UNSUPPORTED_PROTOCOL: Status := 0x0104
  const BAD_PAYLOAD_LENGTH: Status := 0x0106
  const BAD_FLAGS: Status := 0x0109
  const UNSUPPORTED_COMMAND: Status := 0x0202
  const INVALID_STATE: Status := 0x0203
  const BUSY: Status := 0x0204
  const MISSING_BEGIN: Status := 0x0205
  const UNEXPECTED_END: Status := 0x0206
  const BLOCK_INDEX_ERROR: Status := 0x0207
  const TOTAL_COUNT_MISMATCH: Status := 0x0208
  const BAD_ADDRESS: Status := 0x0301
  const ADDRESS_OUT_OF_RANGE: Status := 0x0302
  const BAD_ALIGNMENT: Status := 0x0303
  const BAD_WORD_COUNT: Status := 0x0304
  const ERASE_FAILED: Status := 0x0401
  const PROGRAM_FAILED: Status := 0x0501
  const VERIFY_FAILED: Status := 0x0601
  const VERIFY_MISMATCH: Status := 0x0602
  const RAM_REGION_ERROR: Status := 0x0703
  const UNSUPPORTED_FEATURE: Status := 0x0801
  const TARGET_MISMATCH: Status := 0x0803
  const METADATA_INVALID: Status := 0x0804
  const METADATA_FULL: Status := 0x0805
  const METADATA_WRITE_FAILED: Status := 0x0806
  const ATTEMPT_LIMIT_REACHED: Status := 0x0807
}
