/** Records of the Slot A metadata journal: layout, validity, and the three
    record builders. */
module Record {
  import opened Words
  import opened Crc

  const RECORD_WORDS := 64
  const RECORD_COUNT := 16
  const METADATA_START := 0x08_2000
  const APP_START := 0x08_2400
  const APP_END := 0x0C_0000
  const ATTEMPT_LIMIT := 3

  const MAGIC0: Word := 0x4D42
  const MAGIC1: Word := 0x4453
  const RECORD_VERSION: Word := 1

  const IMAGE_VALID: Word := 1
  const BOOT_ATTEMPT: Word := 2
  const APP_CONFIRMED: Word := 3

  const SLOT_AUTO: Word := 0
  const SLOT_A: Word := 1

  /** The content of one journal slot. */
  type Slot = s: seq<Word> | |s| == RECORD_WORDS witness seq(RECORD_WORDS, _ => 0)

  /** Everything a record says that a scan can make use of. */
  datatype Entry = Entry(
    kind: Word,
    sequence: U32,
    slotId: Word,
    slotRole: Word,
    flags: Word,
    appStart: U32,
    appEnd: U32,
    entryPoint: U32,
    imageSizeWords: U32,
    imageCrc32: U32,
    versionMajor: Word,
    versionMinor: Word,
    versionPatch: Word,
    versionBuild: U32,
    deviceId: Word,
    cpuId: Word,
    attemptLimit: Word)

  /** A parsed record: its entry, word 28 and the stored checksum. */
  datatype Parsed = Parsed(entry: Entry, attemptCount: Word, recordCrc32: U32)

  function Erased(): Slot {
    seq(RECORD_WORDS, _ => ERASED_WORD)
  }

  function Parse(w: Slot): Parsed {
    Parsed(
      Entry(w[4], Join(w[5], w[6]), w[7], w[8], w[9],
            Join(w[10], w[11]), Join(w[12], w[13]), Join(w[14], w[15]),
            Join(w[16], w[17]), Join(w[18], w[19]),
            w[20], w[21], w[22], Join(w[23], w[24]), w[25], w[26], w[27]),
      w[28],
      Join(w[62], w[63]))
  }

  predicate KindValid(kind: Word) {
    kind == IMAGE_VALID || kind == BOOT_ATTEMPT || kind == APP_CONFIRMED
  }

  predicate AppFieldsValid(e: Entry) {
    && e.appStart == APP_START
    && e.appStart < e.appEnd <= APP_END
    && APP_START <= e.entryPoint < APP_END
    && e.entryPoint % 8 == 0
    && 0 < e.attemptLimit <= ATTEMPT_LIMIT
  }

  predicate HeadValid(w: Slot) {
    && w[0] == MAGIC0
    && w[1] == MAGIC1
    && w[2] == RECORD_VERSION
    && w[3] == RECORD_WORDS
    && KindValid(w[4])
    && w[7] == SLOT_A
  }

  /** The slot holds a record that a scan accepts. */
  predicate Valid(w: Slot) {
    && HeadValid(w)
    && Parse(w).recordCrc32 == Crc32Of(w[..62])
    && AppFieldsValid(Parse(w).entry)
  }

  /** What a scan makes of one slot. */
  datatype Reading = Blank | Garbage | Written(entry: Entry)

  function Classify(w: Slot): Reading {
    if w == Erased() then Blank
    else if Valid(w) then Written(Parse(w).entry)
    else Garbage
  }

  method IsErasedRecord(words: array<Word>) returns (erased: bool)
    requires words.Length == RECORD_WORDS
    ensures erased <==> words[..] == Erased()
  {
    for index := 0 to RECORD_WORDS
      invariant forall k :: 0 <= k < index ==> words[k] == ERASED_WORD
    {
      if words[index] != ERASED_WORD {
        assert words[..][index] != Erased()[index];
        return false;
      }
    }
    return true;
  }

  /** The source tests the magic, the parsed fields and the checksum in this order. */
  method ValidateRecord(words: array<Word>) returns (record: Option<Parsed>)
    requires words.Length == RECORD_WORDS
    ensures record == if Valid(words[..]) then Some(Parse(words[..])) else None
  {
    var erased := IsErasedRecord(words);
    if erased {
      assert words[..][0] == ERASED_WORD;
      return None;
    }
    if words[0] != MAGIC0 || words[1] != MAGIC1 || words[2] != RECORD_VERSION ||
       words[3] != RECORD_WORDS || !KindValid(words[4]) || words[7] != SLOT_A
    {
      return None;
    }
    var local := Parse(words[..]);
    var expected := CalcWords32(words, RECORD_WORDS - 2);
    assert words[..][..62] == words[..62];
    if local.recordCrc32 != expected {
      return None;
    }
    if !AppFieldsValid(local.entry) {
      return None;
    }
    return Some(local);
  }

  /** A record that validates stops validating when any one word changes. */
  lemma ValidRecordDetectsOneWord(w: Slot, i: nat, word: Word)
    requires Valid(w) && i < RECORD_WORDS && word != w[i]
    ensures !Valid(w[i := word])
  {
    var changed: Slot := w[i := word];
    if i < 62 {
      Crc32DetectsOneWord(w[..62], i, word);
      assert changed[..62] == w[..62][i := word];
    } else {
      assert changed[..62] == w[..62];
    }
  }

  // ---------------------------------------------------------------- builders

  /** Words 0 to 9: identification, sequence number and slot. */
  function HeadWords(e: Entry): seq<Word> {
    [MAGIC0, MAGIC1, RECORD_VERSION, RECORD_WORDS, e.kind,
     Low(e.sequence), High(e.sequence), e.slotId, e.slotRole, e.flags]
  }

  /** Words 10 to 19: the image the record is bound to. */
  function ImageWords(e: Entry): seq<Word> {
    [Low(e.appStart), High(e.appStart), Low(e.appEnd), High(e.appEnd),
     Low(e.entryPoint), High(e.entryPoint), Low(e.imageSizeWords), High(e.imageSizeWords),
     Low(e.imageCrc32), High(e.imageCrc32)]
  }

  /** Words 20 to 28: version, target and boot attempts. */
  function VersionWords(e: Entry, attemptCount: Word): seq<Word> {
    [e.versionMajor, e.versionMinor, e.versionPatch, Low(e.versionBuild), High(e.versionBuild),
     e.deviceId, e.cpuId, e.attemptLimit, attemptCount]
  }

  /** The 62 words in front of the checksum; words 29 to 61 stay erased. */
  function Body(e: Entry, attemptCount: Word): seq<Word> {
    HeadWords(e) + ImageWords(e) + VersionWords(e, attemptCount) + seq(33, _ => ERASED_WORD)
  }

  /** The words a builder produces. */
  function Encode(e: Entry, attemptCount: Word): Slot {
    var crc := Crc32Of(Body(e, attemptCount));
    Body(e, attemptCount) + [Low(crc), High(crc)]
  }

  lemma EncodeSections(e: Entry, attemptCount: Word)
    ensures var w := Encode(e, attemptCount);
      && w[..10] == HeadWords(e)
      && w[10..20] == ImageWords(e)
      && w[20..29] == VersionWords(e, attemptCount)
      && w[29..62] == seq(33, _ => ERASED_WORD)
      && w[..62] == Body(e, attemptCount)
      && Join(w[62], w[63]) == Crc32Of(w[..62])
  {
    assert Encode(e, attemptCount)[..62] == Body(e, attemptCount);
    JoinSplit(Crc32Of(Body(e, attemptCount)));
  }

  /** A slot is determined by its sections. */
  function ParseSections(head: seq<Word>, image: seq<Word>, version: seq<Word>): Entry
    requires |head| == 10 && |image| == 10 && |version| == 9
  {
    Entry(head[4], Join(head[5], head[6]), head[7], head[8], head[9],
          Join(image[0], image[1]), Join(image[2], image[3]), Join(image[4], image[5]),
          Join(image[6], image[7]), Join(image[8], image[9]),
          version[0], version[1], version[2], Join(version[3], version[4]),
          version[5], version[6], version[7])
  }

  lemma ParseBySections(w: Slot)
    ensures Parse(w).entry == ParseSections(w[..10], w[10..20], w[20..29])
    ensures Parse(w).attemptCount == w[20..29][8]
  {
  }

  lemma SectionsRoundTrip(e: Entry, attemptCount: Word)
    ensures ParseSections(HeadWords(e), ImageWords(e), VersionWords(e, attemptCount)) == e
  {
    JoinSplit(e.sequence);
    JoinSplit(e.appStart);
    JoinSplit(e.appEnd);
    JoinSplit(e.entryPoint);
    JoinSplit(e.imageSizeWords);
    JoinSplit(e.imageCrc32);
    JoinSplit(e.versionBuild);
  }

  /** A builder's output parses back to its input and carries the right checksum. */
  lemma EncodeParses(e: Entry, attemptCount: Word)
    ensures Parse(Encode(e, attemptCount)) ==
            Parsed(e, attemptCount, Crc32Of(Encode(e, attemptCount)[..62]))
    ensures Valid(Encode(e, attemptCount)) <==>
            KindValid(e.kind) && e.slotId == SLOT_A && AppFieldsValid(e)
  {
    var w := Encode(e, attemptCount);
    EncodeSections(e, attemptCount);
    ParseBySections(w);
    SectionsRoundTrip(e, attemptCount);
    assert w[0] == w[..10][0] && w[1] == w[..10][1] && w[2] == w[..10][2] && w[3] == w[..10][3];
  }
}
