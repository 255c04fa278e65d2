/** The three journal appends: who may append what, what is written, and what the
    scan after the write finds. */
module Journal {
  import opened Words
  import opened Protocol
  import opened Record
  import opened Scan
  import opened ScanMeaning
  import opened Crash

  /** The sixteen slots of the metadata area. */
  type Slots = j: seq<Slot> | |j| == RECORD_COUNT witness seq<Slot>(RECORD_COUNT, _ => Erased())

  function ErasedJournal(): Slots {
    seq<Slot>(RECORD_COUNT, _ => Erased())
  }

  datatype Identity = Identity(entryPoint: U32, imageSizeWords: U32, imageCrc32: U32)

  datatype ImageRequest = ImageRequest(
    id: Identity,
    versionMajor: Word,
    versionMinor: Word,
    versionPatch: Word,
    versionBuild: U32,
    appEnd: U32,
    deviceId: Word,
    cpuId: Word)

  /** What an append does: refuse, succeed without writing, or write a record. */
  datatype Admission = Refused(status: Status) | AlreadyDone | Write(entry: Entry, attemptCount: Word, slot: nat)

  function IdentityOf(b: BootView): Identity {
    Identity(b.entryPoint, b.imageSizeWords, b.imageCrc32)
  }

  /** The address of a slot, or the status that refuses it. */
  function MetadataRecordAddress(nextIndex: Word): (r: Option<int>)
  {
    var address := METADATA_START + nextIndex * RECORD_WORDS;
    if address % RECORD_WORDS != 0 || address < METADATA_START || address + RECORD_WORDS > APP_START then None
    else Some(address)
  }

  /** Where an append goes. */
  function Place(entry: Entry, attemptCount: Word, nextIndex: Word): Admission {
    if nextIndex == INVALID_INDEX then Refused(METADATA_FULL)
    else match MetadataRecordAddress(nextIndex)
      case None => Refused(BAD_ADDRESS)
      case Some(address) => Write(entry, attemptCount, (address - METADATA_START) / RECORD_WORDS)
  }

  /** A record bound to the image a summary describes. */
  function BoundEntry(kind: Word, sequence: U32, b: BootView): Entry {
    Entry(kind, sequence, SLOT_A, SLOT_A, 0, b.appStart, b.appEnd, b.entryPoint, b.imageSizeWords,
          b.imageCrc32, b.versionMajor, b.versionMinor, b.versionPatch, b.versionBuild,
          b.deviceId, b.cpuId, b.attemptLimit)
  }

  function ImageEntry(sequence: U32, r: ImageRequest): Entry {
    Entry(IMAGE_VALID, sequence, SLOT_A, SLOT_A, 0, APP_START, r.appEnd, r.id.entryPoint,
          r.id.imageSizeWords, r.id.imageCrc32, r.versionMajor, r.versionMinor, r.versionPatch,
          r.versionBuild, r.deviceId, r.cpuId, ATTEMPT_LIMIT)
  }

  function ImageRequestStatus(r: ImageRequest): Status {
    if r.id.imageSizeWords == 0 then BAD_WORD_COUNT
    else if r.id.entryPoint < APP_START || r.id.entryPoint >= APP_END || r.id.entryPoint % 8 != 0 ||
            r.appEnd <= APP_START || r.appEnd > APP_END
    then BAD_ADDRESS
    else OK
  }

  function AdmitImage(s: Summary, r: ImageRequest): Admission {
    if ImageRequestStatus(r) != OK then Refused(ImageRequestStatus(r))
    else if s.state.DuplicateSequence? then Refused(METADATA_INVALID)
    else
      var sequence := if s.slots.validCount == 0 then 1 else Increment(s.boot.latestSequence);
      Place(ImageEntry(sequence, r), 0, s.slots.nextIndex)
  }

  function AdmitAttempt(s: Summary, id: Identity): Admission {
    if !s.boot.metadataValid || s.state.DuplicateSequence? then Refused(METADATA_INVALID)
    else if s.boot.appConfirmed then AlreadyDone
    else if s.boot.attemptCount >= s.boot.attemptLimit then Refused(ATTEMPT_LIMIT_REACHED)
    else if id != IdentityOf(s.boot) then Refused(METADATA_INVALID)
    else Place(BoundEntry(BOOT_ATTEMPT, Increment(s.boot.latestSequence), s.boot),
               (s.boot.attemptCount + 1) % 0x1_0000, s.slots.nextIndex)
  }

  /** `expected` is present when the PC asks, absent when the App confirms itself. */
  function AdmitConfirm(s: Summary, expected: Option<Identity>): Admission {
    if !s.boot.metadataValid || s.state.DuplicateSequence? || !s.boot.hasImageValid then Refused(METADATA_INVALID)
    else if expected.Some? && expected.value != IdentityOf(s.boot) then Refused(METADATA_INVALID)
    else if s.boot.attemptCount == 0 then Refused(METADATA_INVALID)
    else if s.boot.appConfirmed then AlreadyDone
    else Place(BoundEntry(APP_CONFIRMED, Increment(s.boot.latestSequence), s.boot),
               s.boot.attemptCount % 0x1_0000, s.slots.nextIndex)
  }

  /** The checks each append makes on the scan after its write. */
  predicate ImageWritten(entry: Entry, after: Summary) {
    && after.boot.metadataValid
    && after.boot.imageValidSequence == entry.sequence
    && after.boot.entryPoint == entry.entryPoint
    && after.boot.imageCrc32 == entry.imageCrc32
  }

  predicate AttemptWritten(before: Summary, after: Summary) {
    after.boot.metadataValid && after.boot.attemptCount == (before.boot.attemptCount + 1) % 0x1_0000
  }

  predicate ConfirmWritten(before: Summary, after: Summary) {
    && after.boot.metadataValid
    && !after.state.DuplicateSequence?
    && after.boot.hasImageValid
    && after.boot.imageValidSequence == before.boot.imageValidSequence
    && IdentityOf(after.boot) == IdentityOf(before.boot)
    && after.boot.appConfirmed
  }

  /** The journal after the first `cut` words of a record were stored. */
  function Perform(j: Slots, a: Admission, cut: nat): Slots
    requires cut <= RECORD_WORDS
  {
    match a
    case Write(entry, attemptCount, slot) =>
      if slot < RECORD_COUNT then j[slot := Torn(Encode(entry, attemptCount), cut)] else j
    case _ => j
  }

  // ---------------------------------------------------------------- the entry that is written

  /** What every valid record satisfies. */
  predicate WellFormed(e: Entry) {
    KindValid(e.kind) && e.slotId == SLOT_A && AppFieldsValid(e)
  }

  predicate AllWellFormed(es: seq<Entry>) {
    forall e :: e in es ==> WellFormed(e)
  }

  lemma ReadingsWellFormed(j: seq<Slot>)
    ensures AllWellFormed(Entries(Readings(j)))
  {
    var rs := Readings(j);
    EntriesAreHeld(rs);
    forall e | e in Entries(rs)
      ensures WellFormed(e)
    {
      var k :| 0 <= k < |rs| && rs[k] == Written(e);
      assert rs[k] == Classify(j[k]);
    }
  }

  /** A trusted summary describes the newest image record. */
  lemma ViewImage(es: seq<Entry>) returns (image: Entry)
    requires View(es).metadataValid
    ensures Distinct(es) && Newest(Images(es)) == Some(image)
    ensures image in es && image.kind == IMAGE_VALID && image.sequence <= View(es).latestSequence
    ensures View(es) == WithFollowers(CopyImage(WithLatest(Newest(es)), image),
                                      |Followers(es, image, BOOT_ATTEMPT)|,
                                      Newest(Followers(es, image, APP_CONFIRMED)))
  {
    image := Newest(Images(es)).value;
    NewestIsGreatest(Images(es));
    ImagesMembers(es);
    assert image in es;
    NewestIsGreatest(es);
  }

  /** `e` has a sequence number above every other. */
  predicate IsLater(es: seq<Entry>, e: Entry) {
    forall x :: x in es ==> x.sequence < e.sequence
  }

  lemma LaterStaysDistinct(es: seq<Entry>, e: Entry)
    requires Distinct(es) && IsLater(es, e)
    ensures Distinct(es + [e])
    ensures Newest(es + [e]) == Some(e)
  {
    SequencesMembers(es);
    DistinctExtends(es, e);
    EntryStep(es, e);
    if es != [] {
      NewestIsGreatest(es);
    }
  }

  /** Appending a later image record starts a new life cycle. */
  lemma ViewAfterImage(es: seq<Entry>, e: Entry)
    requires Distinct(es) && IsLater(es, e) && e.kind == IMAGE_VALID
    ensures Newest(Images(es + [e])) == Some(e)
    ensures View(es + [e]) == WithFollowers(CopyImage(WithLatest(Some(e)), e), 0, None)
  {
    LaterStaysDistinct(es, e);
    EntryStep(es, e);
    ImagesMembers(es);
    assert IsLater(Images(es), e);
    EntryStep(Images(es), e);
    if Images(es) != [] {
      NewestIsGreatest(Images(es));
    }
    NothingFollowsLater(es + [e], e, BOOT_ATTEMPT);
    NothingFollowsLater(es + [e], e, APP_CONFIRMED);
  }

  lemma NothingFollowsLater(es: seq<Entry>, e: Entry, kind: Word)
    requires forall x :: x in es ==> x.sequence <= e.sequence
    ensures Followers(es, e, kind) == []
  {
    FollowersMembers(es, e, kind);
    Inhabited(Followers(es, e, kind));
  }

  lemma Inhabited<T>(s: seq<T>)
    ensures s != [] ==> exists x :: x in s
  {
    if s != [] {
      assert s[0] in s;
    }
  }

  /** Appending a later record bound to the current image. */
  lemma ViewAfterBound(es: seq<Entry>, e: Entry, image: Entry)
    requires Distinct(es) && IsLater(es, e) && e.kind != IMAGE_VALID
    requires Newest(Images(es)) == Some(image) && Matches(e, image)
    ensures Newest(Images(es + [e])) == Some(image)
    ensures View(es + [e]) == WithFollowers(CopyImage(WithLatest(Some(e)), image),
              |Followers(es, image, BOOT_ATTEMPT)| + (if e.kind == BOOT_ATTEMPT then 1 else 0),
              if e.kind == APP_CONFIRMED then Some(e) else Newest(Followers(es, image, APP_CONFIRMED)))
  {
    LaterStaysDistinct(es, e);
    EntryStep(es, e);
    NewestIsGreatest(Images(es));
    ImagesMembers(es);
    assert image in es;
    FollowerStep(es, e, image, BOOT_ATTEMPT);
    FollowerStep(es, e, image, APP_CONFIRMED);
    var confirms := Followers(es, image, APP_CONFIRMED);
    FollowersMembers(es, image, APP_CONFIRMED);
    EntryStep(confirms, e);
    if confirms != [] {
      NewestIsGreatest(confirms);
    }
  }

  /** A record bound to a trusted summary matches the image it describes. */
  lemma BoundEntryMatches(es: seq<Entry>, kind: Word, sequence: U32, image: Entry)
    requires View(es).metadataValid && Newest(Images(es)) == Some(image)
    requires AllWellFormed(es) && KindValid(kind)
    ensures Matches(BoundEntry(kind, sequence, View(es)), image)
    ensures WellFormed(BoundEntry(kind, sequence, View(es)))
  {
    var _ := ViewImage(es);
  }

  lemma SequenceIsLater(es: seq<Entry>, e: Entry)
    requires es != [] ==> e.sequence > SequenceOf(Newest(es))
    ensures IsLater(es, e)
  {
    if es != [] {
      NewestIsGreatest(es);
    }
  }
}
