/** Journals that have used the last sequence number: what each append then does. */
module LastSequence {
  import opened Words
  import opened Protocol
  import opened Record
  import opened Scan
  import opened ScanMeaning
  import opened Crash
  import opened Journal
  import opened Rescan
  import JR = JournalRuns

  // ---------------------------------------------------------------- journals that hold given records

  /** The records in the first slots, the rest erased. */
  function JournalOf(es: seq<Entry>): Slots {
    seq<Slot>(RECORD_COUNT, k requires 0 <= k < RECORD_COUNT => if k < |es| then Encode(es[k], 0) else Erased())
  }

  function HeldReadings(es: seq<Entry>): seq<Reading> {
    seq(|es|, k requires 0 <= k < |es| => Written(es[k]))
  }

  lemma {:induction false} HeldEntries(es: seq<Entry>)
    ensures Entries(HeldReadings(es)) == es
  {
    if es == [] {
    } else {
      HeldEntries(es[..|es| - 1]);
      assert HeldReadings(es)[..|es| - 1] == HeldReadings(es[..|es| - 1]);
    }
  }

  lemma ErasedReading()
    ensures Classify(Erased()).Blank?
  {
  }

  lemma JournalReads(es: seq<Entry>)
    requires |es| < RECORD_COUNT && AllWellFormed(es)
    ensures Entries(Readings(JournalOf(es))) == es
    ensures FirstBlank(Readings(JournalOf(es))) == Some(|es|)
  {
    hide Classify, Encode;
    var blanks := seq(RECORD_COUNT - |es|, _ => Blank);
    var rs := Readings(JournalOf(es));
    ErasedReading();
    forall k | 0 <= k < |es|
      ensures rs[k] == Written(es[k])
    {
      EncodedReading(es[k], 0);
    }
    assert rs == HeldReadings(es) + blanks;
    HeldEntries(es);
    JR.BlankTail(blanks);
    EntriesConcat(HeldReadings(es), blanks);
    assert rs[|es|].Blank?;
  }

  // ---------------------------------------------------------------- the records

  const REQUEST := ImageRequest(Identity(APP_START, 8, 0), 0, 0, 0, 0, APP_START + 8, DEVICE_F28377D, CPU1)

  function Attempt(sequence: U32): Entry {
    ImageEntry(sequence, REQUEST).(kind := BOOT_ATTEMPT)
  }

  lemma RecordsAreWellFormed(sequence: U32)
    ensures WellFormed(ImageEntry(sequence, REQUEST)) && WellFormed(Attempt(sequence))
  {
  }

  lemma SummaryOfJournal(es: seq<Entry>)
    requires |es| < RECORD_COUNT && AllWellFormed(es)
    ensures var s := Summarise(JournalOf(es));
      && s.boot == View(es) && s.slots.nextIndex == |es|
      && s.slots.validCount == |es| && (s.state.DuplicateSequence? <==> !Distinct(es))
  {
    JournalReads(es);
  }

  lemma OneRecord(e: Entry)
    ensures Distinct([e]) && Newest([e]) == Some(e)
    ensures Images([e]) == if e.kind == IMAGE_VALID then [e] else []
    ensures Followers([e], e, BOOT_ATTEMPT) == [] && Followers([e], e, APP_CONFIRMED) == []
  {
    EntryStep([], e);
    FollowerStep([], e, e, BOOT_ATTEMPT);
    FollowerStep([], e, e, APP_CONFIRMED);
    assert [] + [e] == [e];
  }

  // ---------------------------------------------------------------- an image with the last number

  /** A journal whose image has the last number. */
  function ImageAtLast(): Slots {
    JournalOf([ImageEntry(LAST_SEQUENCE, REQUEST)])
  }

  lemma ImageAtLastSummary()
    ensures var s := Summarise(ImageAtLast());
      && s.boot.metadataValid && s.boot.latestSequence == LAST_SEQUENCE && !s.state.DuplicateSequence?
      && s.boot.attemptCount == 0 && !s.boot.appConfirmed && s.boot.attemptLimit == ATTEMPT_LIMIT
      && IdentityOf(s.boot) == REQUEST.id && s.slots.nextIndex == 1
  {
    var e := ImageEntry(LAST_SEQUENCE, REQUEST);
    RecordsAreWellFormed(LAST_SEQUENCE);
    SummaryOfJournal([e]);
    OneRecord(e);
  }

  /** The next BOOT_ATTEMPT of this image is admitted, and fails its own check. */
  lemma AttemptFailsAtLast()
    ensures var j := ImageAtLast();
      && AdmitAttempt(Summarise(j), REQUEST.id).Write?
      && !AttemptWritten(Summarise(j), Summarise(Perform(j, AdmitAttempt(Summarise(j), REQUEST.id), RECORD_WORDS)))
  {
    hide Summarise, Perform, AttemptWritten;
    ImageAtLastSummary();
    AttemptRescanExactly(ImageAtLast(), REQUEST.id);
  }

  /** So is, and does, the next IMAGE_VALID. */
  lemma ImageFailsAtLast()
    ensures var j := ImageAtLast();
      && AdmitImage(Summarise(j), REQUEST).Write?
      && !ImageWritten(AdmitImage(Summarise(j), REQUEST).entry,
                       Summarise(Perform(j, AdmitImage(Summarise(j), REQUEST), RECORD_WORDS)))
  {
    hide Summarise, Perform, ImageWritten;
    ImageAtLastSummary();
    ImageRescanExactly(ImageAtLast(), REQUEST);
  }

  // ---------------------------------------------------------------- an attempt with the last number

  /** An image and an attempt for it, which has the last number. */
  function AttemptAtLast(): Slots {
    JournalOf([ImageEntry(LAST_SEQUENCE - 1, REQUEST), Attempt(LAST_SEQUENCE)])
  }

  lemma AttemptAtLastSummary()
    ensures var s := Summarise(AttemptAtLast());
      && s.boot.metadataValid && s.boot.hasImageValid && s.boot.latestSequence == LAST_SEQUENCE
      && !s.state.DuplicateSequence? && s.boot.attemptCount == 1 && !s.boot.appConfirmed
      && IdentityOf(s.boot) == REQUEST.id && s.slots.nextIndex == 2
  {
    var image, e := ImageEntry(LAST_SEQUENCE - 1, REQUEST), Attempt(LAST_SEQUENCE);
    RecordsAreWellFormed(LAST_SEQUENCE - 1);
    RecordsAreWellFormed(LAST_SEQUENCE);
    assert [image] + [e] == [image, e];
    SummaryOfJournal([image, e]);
    OneRecord(image);
    EntryStep([image], e);
    FollowerStep([image], e, image, BOOT_ATTEMPT);
    FollowerStep([image], e, image, APP_CONFIRMED);
  }

  /** The confirmation of this image is admitted, and fails its own check. */
  lemma ConfirmFailsAtLast()
    ensures var j := AttemptAtLast();
      && AdmitConfirm(Summarise(j), None).Write?
      && !ConfirmWritten(Summarise(j), Summarise(Perform(j, AdmitConfirm(Summarise(j), None), RECORD_WORDS)))
  {
    hide Summarise, Perform, ConfirmWritten;
    AttemptAtLastSummary();
    ConfirmRescanExactly(AttemptAtLast(), None);
  }

  // ---------------------------------------------------------------- no image

  /** An attempt for no image, with the last number. */
  function OnlyAttemptAtLast(): Slots {
    JournalOf([Attempt(LAST_SEQUENCE)])
  }

  /** Here the next IMAGE_VALID is numbered 0 and still passes its check. */
  lemma ImagePassesWithoutImage()
    ensures var j := OnlyAttemptAtLast();
      && Summarise(j).boot.latestSequence == LAST_SEQUENCE
      && AdmitImage(Summarise(j), REQUEST).Write?
      && ImageWritten(AdmitImage(Summarise(j), REQUEST).entry,
                      Summarise(Perform(j, AdmitImage(Summarise(j), REQUEST), RECORD_WORDS)))
  {
    hide Perform, ImageWritten;
    var j, e := OnlyAttemptAtLast(), Attempt(LAST_SEQUENCE);
    RecordsAreWellFormed(LAST_SEQUENCE);
    SummaryOfJournal([e]);
    OneRecord(e);
    JournalReads([e]);
    ImageRescanExactly(j, REQUEST);
  }
}
