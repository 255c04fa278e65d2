/** The scan that follows a completed append, on arbitrary journal contents. */
module Rescan {
  import opened Words
  import opened Protocol
  import opened Record
  import opened Scan
  import opened ScanMeaning
  import opened Crash
  import opened Journal

  const LAST_SEQUENCE: U32 := 0xFFFF_FFFF

  lemma PlaceAccepts(j: Slots, entry: Entry, attemptCount: Word)
    ensures var next := Summarise(j).slots.nextIndex;
      && (next == INVALID_INDEX ==> Place(entry, attemptCount, next) == Refused(METADATA_FULL))
      && (next != INVALID_INDEX ==>
            && next < RECORD_COUNT
            && FirstBlank(Readings(j)) == Some(next)
            && Place(entry, attemptCount, next) == Write(entry, attemptCount, next))
  {
  }

  lemma MovedToEnd(front: seq<Entry>, e: Entry, back: seq<Entry>)
    ensures multiset(front + [e] + back) == multiset(front + back + [e])
  {
  }

  /** Filling any free slot gives the view of a list that ends with the new entry. */
  lemma FilledView(rs: seq<Reading>, slot: nat, entry: Entry)
    requires slot < |rs| && rs[slot].Blank?
    ensures var es := Entries(rs) + [entry];
      var filled := Entries(rs[slot := Written(entry)]);
      && (Distinct(filled) <==> Distinct(es))
      && (Distinct(es) ==> View(filled) == View(es) && (Images(filled) == [] <==> Images(es) == []))
      && filled != []
  {
    hide Distinct, View, Entries, Images;
    var es := Entries(rs);
    EntriesOfUpdate(rs, slot, Written(entry));
    EntriesOfUpdate(rs, slot, rs[slot]);
    assert rs[slot := rs[slot]] == rs;
    var front, back := Entries(rs[..slot]), Entries(rs[slot + 1..]);
    assert es == front + back;
    var filled := front + [entry] + back;
    MovedToEnd(front, entry, back);
    if Distinct(es + [entry]) {
      DistinctPermutes(es + [entry], filled);
      ViewPermutes(es + [entry], filled);
    } else if Distinct(filled) {
      DistinctPermutes(filled, es + [entry]);
    }
  }

  /** A later entry may go into any slot: the view is that of a list that ends with it. */
  lemma InsertedView(rs: seq<Reading>, slot: nat, entry: Entry)
    requires slot < |rs| && rs[slot].Blank?
    requires Distinct(Entries(rs)) && IsLater(Entries(rs), entry)
    ensures var inserted := Entries(rs[slot := Written(entry)]);
      && inserted != []
      && Distinct(inserted)
      && View(inserted) == View(Entries(rs) + [entry])
      && (Images(inserted) == [] <==> Images(Entries(rs) + [entry]) == [])
  {
    hide Distinct, View;
    LaterStaysDistinct(Entries(rs), entry);
    FilledView(rs, slot, entry);
  }

  lemma EncodedReading(entry: Entry, attemptCount: Word)
    requires WellFormed(entry)
    ensures Classify(Encode(entry, attemptCount)) == Written(entry)
  {
    hide Encode, Parse, Torn;
    TornReading(entry, attemptCount, RECORD_WORDS);
    EncodeParses(entry, attemptCount);
  }

  lemma WrittenReading(j: Slots, entry: Entry, attemptCount: Word, slot: nat)
    requires FirstBlank(Readings(j)) == Some(slot) && WellFormed(entry)
    ensures Readings(Perform(j, Write(entry, attemptCount, slot), RECORD_WORDS)) == Readings(j)[slot := Written(entry)]
  {
    hide Encode, Classify, Torn;
    var w := Encode(entry, attemptCount);
    TornReading(entry, attemptCount, RECORD_WORDS);
    EncodedReading(entry, attemptCount);
    ReadingsUpdate(j, slot, w);
  }

  /** A completed append adds its entry, wherever the free slot was. */
  lemma CompletedAppend(j: Slots, entry: Entry, attemptCount: Word, slot: nat)
    requires FirstBlank(Readings(j)) == Some(slot)
    requires WellFormed(entry)
    requires Distinct(Entries(Readings(j))) && IsLater(Entries(Readings(j)), entry)
    ensures var after := Summarise(Perform(j, Write(entry, attemptCount, slot), RECORD_WORDS));
      && after.boot == View(Entries(Readings(j)) + [entry])
      && !after.state.DuplicateSequence?
  {
    WrittenReading(j, entry, attemptCount, slot);
    InsertedView(Readings(j), slot, entry);
  }

  /** The wrap of the sequence number is the only way a completed BOOT_ATTEMPT or
      APP_CONFIRMED append can fail its own check. */
  lemma BoundRescan(j: Slots, kind: Word) returns (image: Entry, e: Entry)
    requires kind == BOOT_ATTEMPT || kind == APP_CONFIRMED
    requires Summarise(j).boot.metadataValid
    requires Summarise(j).boot.latestSequence < LAST_SEQUENCE
    ensures e == BoundEntry(kind, Summarise(j).boot.latestSequence + 1, Summarise(j).boot)
    ensures WellFormed(e)
    ensures Distinct(Entries(Readings(j))) && IsLater(Entries(Readings(j)), e)
    ensures Newest(Images(Entries(Readings(j)))) == Some(image)
    ensures View(Entries(Readings(j)) + [e]) == WithFollowers(CopyImage(WithLatest(Some(e)), image),
              Summarise(j).boot.attemptCount + (if kind == BOOT_ATTEMPT then 1 else 0),
              if kind == APP_CONFIRMED then Some(e)
              else Newest(Followers(Entries(Readings(j)), image, APP_CONFIRMED)))
  {
    var es := Entries(Readings(j));
    ReadingsWellFormed(j);
    image := ViewImage(es);
    e := BoundEntry(kind, Summarise(j).boot.latestSequence + 1, Summarise(j).boot);
    BoundEntryMatches(es, kind, e.sequence, image);
    SequenceIsLater(es, e);
    ViewAfterBound(es, e, image);
  }

  /** Attempt counts stay small: there are only sixteen slots. */
  lemma AttemptCountBounded(j: Slots)
    ensures Summarise(j).boot.attemptCount <= RECORD_COUNT
  {
    var es := Entries(Readings(j));
    EntriesBounded(Readings(j));
    if View(es).metadataValid {
      var image := ViewImage(es);
      FollowersBounded(es, image, BOOT_ATTEMPT);
    }
  }

  lemma {:induction false} FollowersBounded(es: seq<Entry>, image: Entry, kind: Word)
    ensures |Followers(es, image, kind)| <= |es|
  {
    if es == [] {
    } else {
      FollowersBounded(es[..|es| - 1], image, kind);
    }
  }

  /** A write admitted below the last sequence number, spelled out. */
  lemma AdmittedAttempt(j: Slots, id: Identity)
    requires AdmitAttempt(Summarise(j), id).Write?
    requires Summarise(j).boot.latestSequence < LAST_SEQUENCE
    ensures var s := Summarise(j);
      && s.boot.metadataValid
      && FirstBlank(Readings(j)) == Some(s.slots.nextIndex)
      && s.boot.attemptCount < ATTEMPT_LIMIT + RECORD_COUNT
      && AdmitAttempt(s, id) ==
           Write(BoundEntry(BOOT_ATTEMPT, s.boot.latestSequence + 1, s.boot), s.boot.attemptCount + 1, s.slots.nextIndex)
  {
    var s := Summarise(j);
    AttemptCountBounded(j);
    PlaceAccepts(j, BoundEntry(BOOT_ATTEMPT, s.boot.latestSequence + 1, s.boot), s.boot.attemptCount + 1);
  }

  lemma AdmittedConfirm(j: Slots, expected: Option<Identity>)
    requires AdmitConfirm(Summarise(j), expected).Write?
    requires Summarise(j).boot.latestSequence < LAST_SEQUENCE
    ensures var s := Summarise(j);
      && s.boot.metadataValid
      && FirstBlank(Readings(j)) == Some(s.slots.nextIndex)
      && s.boot.attemptCount <= RECORD_COUNT
      && AdmitConfirm(s, expected) ==
           Write(BoundEntry(APP_CONFIRMED, s.boot.latestSequence + 1, s.boot), s.boot.attemptCount, s.slots.nextIndex)
  {
    var s := Summarise(j);
    AttemptCountBounded(j);
    PlaceAccepts(j, BoundEntry(APP_CONFIRMED, s.boot.latestSequence + 1, s.boot), s.boot.attemptCount);
  }

  /** The scan after a completed bound append. */
  lemma BoundAppend(j: Slots, kind: Word, attemptCount: Word)
    requires kind == BOOT_ATTEMPT || kind == APP_CONFIRMED
    requires Summarise(j).boot.metadataValid && FirstBlank(Readings(j)).Some?
    requires Summarise(j).boot.latestSequence < LAST_SEQUENCE
    ensures var s := Summarise(j);
      var e := BoundEntry(kind, s.boot.latestSequence + 1, s.boot);
      var after := Summarise(Perform(j, Write(e, attemptCount, FirstBlank(Readings(j)).value), RECORD_WORDS));
      && after.boot.metadataValid
      && after.boot.hasImageValid
      && !after.state.DuplicateSequence?
      && after.boot.imageValidSequence == s.boot.imageValidSequence
      && IdentityOf(after.boot) == IdentityOf(s.boot)
      && after.boot.attemptLimit == s.boot.attemptLimit
      && after.boot.attemptCount == s.boot.attemptCount + (if kind == BOOT_ATTEMPT then 1 else 0)
      && after.boot.appConfirmed == (s.boot.appConfirmed || kind == APP_CONFIRMED)
  {
    var image, e := BoundRescan(j, kind);
    CompletedAppend(j, e, attemptCount, FirstBlank(Readings(j)).value);
    var image' := ViewImage(Entries(Readings(j)));
  }

  lemma AttemptRescanSucceeds(j: Slots, id: Identity)
    requires AdmitAttempt(Summarise(j), id).Write?
    requires Summarise(j).boot.latestSequence < LAST_SEQUENCE
    ensures AttemptWritten(Summarise(j), Summarise(Perform(j, AdmitAttempt(Summarise(j), id), RECORD_WORDS)))
  {
    AdmittedAttempt(j, id);
    BoundAppend(j, BOOT_ATTEMPT, Summarise(j).boot.attemptCount + 1);
  }

  lemma ConfirmRescanSucceeds(j: Slots, expected: Option<Identity>)
    requires AdmitConfirm(Summarise(j), expected).Write?
    requires Summarise(j).boot.latestSequence < LAST_SEQUENCE
    ensures ConfirmWritten(Summarise(j), Summarise(Perform(j, AdmitConfirm(Summarise(j), expected), RECORD_WORDS)))
  {
    AdmittedConfirm(j, expected);
    BoundAppend(j, APP_CONFIRMED, Summarise(j).boot.attemptCount);
  }

  lemma ImageRescanSucceeds(j: Slots, r: ImageRequest)
    requires AdmitImage(Summarise(j), r).Write?
    requires Summarise(j).boot.latestSequence < LAST_SEQUENCE
    ensures ImageWritten(AdmitImage(Summarise(j), r).entry,
                         Summarise(Perform(j, AdmitImage(Summarise(j), r), RECORD_WORDS)))
  {
    var s, es := Summarise(j), Entries(Readings(j));
    var sequence := if s.slots.validCount == 0 then 1 else Increment(s.boot.latestSequence);
    var e := ImageEntry(sequence, r);
    PlaceAccepts(j, e, 0);
    SequenceIsLater(es, e);
    ViewAfterImage(es, e);
    CompletedAppend(j, e, 0, s.slots.nextIndex);
  }

  // ---------------------------------------------------------------- the last sequence number

  /** Any completed append: the valid records are the old ones and the new one. */
  lemma AppendedEntries(j: Slots, entry: Entry, attemptCount: Word, slot: nat)
    requires FirstBlank(Readings(j)) == Some(slot) && WellFormed(entry)
    ensures var after := Summarise(Perform(j, Write(entry, attemptCount, slot), RECORD_WORDS));
      var es := Entries(Readings(j)) + [entry];
      if Distinct(es) then after.boot == View(es) else !after.boot.metadataValid
  {
    WrittenReading(j, entry, attemptCount, slot);
    FilledView(Readings(j), slot, entry);
  }

  /** A record numbered 0 follows no image. */
  lemma WrappedFollowsNothing(es: seq<Entry>, e: Entry)
    requires e.sequence == 0 && e.kind != IMAGE_VALID && Distinct(es + [e]) && View(es).metadataValid
    ensures View(es + [e]).attemptCount == View(es).attemptCount
    ensures View(es + [e]).appConfirmed == View(es).appConfirmed
  {
    DistinctExtends(es, e);
    EntryStep(es, e);
    var image := ViewImage(es);
    FollowerStep(es, e, image, BOOT_ATTEMPT);
    FollowerStep(es, e, image, APP_CONFIRMED);
  }

  /** After the last sequence number the next record is numbered 0, and a scan never
      counts it for the image. */
  lemma WrappedBoundAppend(j: Slots, kind: Word, attemptCount: Word)
    requires kind == BOOT_ATTEMPT || kind == APP_CONFIRMED
    requires Summarise(j).boot.metadataValid && FirstBlank(Readings(j)).Some?
    ensures var s := Summarise(j);
      var e := BoundEntry(kind, 0, s.boot);
      var after := Summarise(Perform(j, Write(e, attemptCount, FirstBlank(Readings(j)).value), RECORD_WORDS));
      after.boot.metadataValid ==>
        after.boot.attemptCount == s.boot.attemptCount && after.boot.appConfirmed == s.boot.appConfirmed
  {
    var es := Entries(Readings(j));
    ReadingsWellFormed(j);
    var image := ViewImage(es);
    var e := BoundEntry(kind, 0, Summarise(j).boot);
    BoundEntryMatches(es, kind, 0, image);
    AppendedEntries(j, e, attemptCount, FirstBlank(Readings(j)).value);
    if Distinct(es + [e]) {
      WrappedFollowsNothing(es, e);
    }
  }

  lemma AdmittedWrappedAttempt(j: Slots, id: Identity)
    requires AdmitAttempt(Summarise(j), id).Write?
    requires Summarise(j).boot.latestSequence == LAST_SEQUENCE
    ensures var s := Summarise(j);
      && s.boot.metadataValid
      && FirstBlank(Readings(j)) == Some(s.slots.nextIndex)
      && s.boot.attemptCount < ATTEMPT_LIMIT + RECORD_COUNT
      && AdmitAttempt(s, id) ==
           Write(BoundEntry(BOOT_ATTEMPT, 0, s.boot), s.boot.attemptCount + 1, s.slots.nextIndex)
  {
    var s := Summarise(j);
    AttemptCountBounded(j);
    PlaceAccepts(j, BoundEntry(BOOT_ATTEMPT, 0, s.boot), s.boot.attemptCount + 1);
  }

  lemma WrappedAttempt(j: Slots, id: Identity)
    requires AdmitAttempt(Summarise(j), id).Write?
    requires Summarise(j).boot.latestSequence == LAST_SEQUENCE
    ensures !AttemptWritten(Summarise(j), Summarise(Perform(j, AdmitAttempt(Summarise(j), id), RECORD_WORDS)))
  {
    AdmittedWrappedAttempt(j, id);
    WrappedBoundAppend(j, BOOT_ATTEMPT, Summarise(j).boot.attemptCount + 1);
  }

  lemma AdmittedWrappedConfirm(j: Slots, expected: Option<Identity>)
    requires AdmitConfirm(Summarise(j), expected).Write?
    requires Summarise(j).boot.latestSequence == LAST_SEQUENCE
    ensures var s := Summarise(j);
      && s.boot.metadataValid
      && FirstBlank(Readings(j)) == Some(s.slots.nextIndex)
      && s.boot.attemptCount <= RECORD_COUNT
      && AdmitConfirm(s, expected) ==
           Write(BoundEntry(APP_CONFIRMED, 0, s.boot), s.boot.attemptCount, s.slots.nextIndex)
  {
    var s := Summarise(j);
    AttemptCountBounded(j);
    PlaceAccepts(j, BoundEntry(APP_CONFIRMED, 0, s.boot), s.boot.attemptCount);
  }

  lemma WrappedConfirm(j: Slots, expected: Option<Identity>)
    requires AdmitConfirm(Summarise(j), expected).Write?
    requires Summarise(j).boot.latestSequence == LAST_SEQUENCE
    ensures !ConfirmWritten(Summarise(j), Summarise(Perform(j, AdmitConfirm(Summarise(j), expected), RECORD_WORDS)))
  {
    AdmittedWrappedConfirm(j, expected);
    WrappedBoundAppend(j, APP_CONFIRMED, Summarise(j).boot.attemptCount);
  }

  /** On arbitrary Flash contents, a completed BOOT_ATTEMPT append passes its own check
      exactly when the sequence number does not wrap. */
  lemma AttemptRescanExactly(j: Slots, id: Identity)
    requires AdmitAttempt(Summarise(j), id).Write?
    ensures AttemptWritten(Summarise(j), Summarise(Perform(j, AdmitAttempt(Summarise(j), id), RECORD_WORDS))) <==>
            Summarise(j).boot.latestSequence < LAST_SEQUENCE
  {
    if Summarise(j).boot.latestSequence < LAST_SEQUENCE {
      AttemptRescanSucceeds(j, id);
    } else {
      WrappedAttempt(j, id);
    }
  }

  /** The same for APP_CONFIRMED. */
  lemma ConfirmRescanExactly(j: Slots, expected: Option<Identity>)
    requires AdmitConfirm(Summarise(j), expected).Write?
    ensures ConfirmWritten(Summarise(j), Summarise(Perform(j, AdmitConfirm(Summarise(j), expected), RECORD_WORDS))) <==>
            Summarise(j).boot.latestSequence < LAST_SEQUENCE
  {
    if Summarise(j).boot.latestSequence < LAST_SEQUENCE {
      ConfirmRescanSucceeds(j, expected);
    } else {
      WrappedConfirm(j, expected);
    }
  }

  /** Another record numbered 0 leaves the numbers distinct exactly when it is the only one. */
  lemma WrappedIsDistinct(es: seq<Entry>, e: Entry)
    requires Distinct(es) && e.sequence == 0
    ensures Distinct(es + [e]) <==> forall x :: x in es ==> x.sequence != 0
  {
    SequencesMembers(es);
    DistinctExtends(es, e);
  }

  /** An image record numbered 0 becomes the current image exactly when it is the only one. */
  lemma WrappedImageView(es: seq<Entry>, e: Entry)
    requires Distinct(es + [e]) && e.kind == IMAGE_VALID && e.sequence == 0
    requires forall x :: x in es ==> x.sequence != 0
    ensures Images(es) != [] ==> View(es + [e]).imageValidSequence != 0
    ensures Images(es) == [] ==>
              var after := View(es + [e]);
              && after.metadataValid && after.imageValidSequence == 0
              && after.entryPoint == e.entryPoint && after.imageCrc32 == e.imageCrc32
  {
    hide Distinct, Followers, Newest;
    EntryStep(es, e);
    EntryStep(Images(es), e);
    ImagesMembers(es);
    if Images(es) != [] {
      NewestIsGreatest(Images(es));
    }
  }

  lemma AdmittedWrappedImage(j: Slots, r: ImageRequest)
    requires AdmitImage(Summarise(j), r).Write? && Summarise(j).boot.latestSequence == LAST_SEQUENCE
    ensures FirstBlank(Readings(j)) == Some(Summarise(j).slots.nextIndex)
    ensures AdmitImage(Summarise(j), r) == Write(ImageEntry(0, r), 0, Summarise(j).slots.nextIndex)
    ensures Distinct(Entries(Readings(j)))
    ensures Summarise(j).boot.metadataValid <==> Images(Entries(Readings(j))) != []
  {
    PlaceAccepts(j, ImageEntry(0, r), 0);
  }

  /** The number 0 is not taken. */
  ghost predicate ZeroIsFree(j: Slots) {
    forall e :: e in Entries(Readings(j)) ==> e.sequence != 0
  }

  lemma WrappedImage(j: Slots, r: ImageRequest)
    requires AdmitImage(Summarise(j), r).Write? && Summarise(j).boot.latestSequence == LAST_SEQUENCE
    ensures ImageWritten(AdmitImage(Summarise(j), r).entry,
                         Summarise(Perform(j, AdmitImage(Summarise(j), r), RECORD_WORDS))) <==>
            !Summarise(j).boot.metadataValid && ZeroIsFree(j)
  {
    hide View, Distinct, Perform, Place;
    AdmittedWrappedImage(j, r);
    var e := ImageEntry(0, r);
    AppendedEntries(j, e, 0, Summarise(j).slots.nextIndex);
    WrappedIsDistinct(Entries(Readings(j)), e);
    if ZeroIsFree(j) {
      WrappedImageView(Entries(Readings(j)), e);
    }
  }

  /** A completed IMAGE_VALID append passes its own check exactly when its number does not
      wrap, or wraps to a free number in a journal that holds no image. */
  lemma ImageRescanExactly(j: Slots, r: ImageRequest)
    requires AdmitImage(Summarise(j), r).Write?
    ensures ImageWritten(AdmitImage(Summarise(j), r).entry,
                         Summarise(Perform(j, AdmitImage(Summarise(j), r), RECORD_WORDS))) <==>
            Summarise(j).boot.latestSequence < LAST_SEQUENCE ||
            (!Summarise(j).boot.metadataValid && ZeroIsFree(j))
  {
    if Summarise(j).boot.latestSequence < LAST_SEQUENCE {
      ImageRescanSucceeds(j, r);
    } else {
      WrappedImage(j, r);
    }
  }

  // ---------------------------------------------------------------- free slots

  function FreeSlots(j: Slots): nat {
    BlankCount(Readings(j))
  }

  lemma {:induction false} BlanksAreFound(rs: seq<Reading>)
    ensures FirstBlank(rs).Some? <==> BlankCount(rs) > 0
  {
    if rs == [] {
    } else {
      BlanksAreFound(rs[..|rs| - 1]);
    }
  }

  /** A completed append takes exactly one slot. */
  lemma AppendTakesSlot(j: Slots, entry: Entry, attemptCount: Word, slot: nat)
    requires FirstBlank(Readings(j)) == Some(slot) && WellFormed(entry)
    ensures FreeSlots(Perform(j, Write(entry, attemptCount, slot), RECORD_WORDS)) + 1 == FreeSlots(j)
  {
    hide Encode, Classify, Torn, Perform;
    WrittenReading(j, entry, attemptCount, slot);
    BlanksOfUpdate(Readings(j), slot, Written(entry));
  }

  lemma ErasedIsFree()
    ensures FreeSlots(ErasedJournal()) == RECORD_COUNT
  {
    AllBlank(Readings(ErasedJournal()));
  }
}
