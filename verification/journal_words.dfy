/** What an accepted append leaves in Flash and in the summary, word by word. */
module JournalWords {
  import opened Words
  import opened Crc
  import opened Protocol
  import opened Record
  import opened RecordLayout
  import opened Scan
  import opened ScanMeaning
  import opened Crash
  import opened Journal
  import opened Rescan
  import JR = JournalRuns
  import opened FlashPort
  import opened ServiceSpec
  import ServiceRuns
  import ServiceAnswers

  // ---------------------------------------------------------------- IMAGE_VALID

  /** The record an IMAGE_VALID payload becomes. */
  predicate PublishedWords(w: Slot, p: Payload, s: Service, sequence: U32)
    requires |p| == 16
  {
    && w[0] == 0x4D42 && w[1] == 0x4453 && w[2] == 1 && w[3] == 64 && w[4] == 1 && Holds32(w, 5, sequence)
    && w[7] == 1 && w[8] == 1 && w[9] == 0 && w[10] == 0x2400 && w[11] == 0x0008
    && w[12] == p[13] && w[13] == p[14] && w[14] == p[2] && w[15] == p[3]
    && w[16] == p[4] && w[17] == p[5] && w[18] == p[6] && w[19] == p[7]
    && w[20] == p[8] && w[21] == p[9] && w[22] == p[10] && w[23] == p[11] && w[24] == p[12]
    && w[25] == s.deviceId && w[26] == s.cpuId && w[27] == 3 && w[28] == 0
    && (forall k :: 29 <= k < 62 ==> w[k] == 0xFFFF)
    && Holds32(w, 62, Crc32Of(w[..62]))
  }

  /** What a scan then says of the image. */
  predicate PublishedSummary(b: BootView, p: Payload, s: Service, sequence: U32)
    requires |p| == 16
  {
    && b.metadataValid && b.hasImageValid && b.activeSlot == 1
    && b.latestSequence == b.imageValidSequence == sequence && b.latestRecordType == 1
    && b.entryPoint == Join(p[2], p[3]) && b.imageSizeWords == Join(p[4], p[5]) && b.imageCrc32 == Join(p[6], p[7])
    && b.versionMajor == p[8] && b.versionMinor == p[9] && b.versionPatch == p[10]
    && b.versionBuild == Join(p[11], p[12])
    && b.appStart == 0x08_2400 && b.appEnd == Join(p[13], p[14])
    && b.deviceId == s.deviceId && b.cpuId == s.cpuId
    && b.attemptLimit == 3 && b.attemptCount == 0 && !b.appConfirmed && b.appConfirmedSequence == 0
  }

  lemma ImageEntryWords(w: Slot, p: Payload, s: Service, sequence: U32)
    requires |p| == 16 && w == Encode(ImageEntry(sequence, RequestedImage(s, p)), 0)
    ensures p[0] == IMAGE_VALID ==> PublishedWords(w, p, s, sequence)
  {
    hide Encode, Crc32Of;
    RecordWords(ImageEntry(sequence, RequestedImage(s, p)), 0);
    SplitJoin(p[2], p[3]);
    SplitJoin(p[4], p[5]);
    SplitJoin(p[6], p[7]);
    SplitJoin(p[11], p[12]);
    SplitJoin(p[13], p[14]);
  }

  lemma ViewOfImage(es: seq<Entry>, sequence: U32, p: Payload, s: Service)
    requires |p| == 16 && Distinct(es) && IsLater(es, ImageEntry(sequence, RequestedImage(s, p)))
    ensures PublishedSummary(View(es + [ImageEntry(sequence, RequestedImage(s, p))]), p, s, sequence)
  {
    ViewAfterImage(es, ImageEntry(sequence, RequestedImage(s, p)));
  }

  /** The journal after a completed IMAGE_VALID append. */
  lemma ImageIsWritten(j: Slots, p: Payload, s: Service)
    requires |p| == 16 && p[0] == IMAGE_VALID && JR.Invariant(Readings(j))
    requires AdmitImage(Summarise(j), RequestedImage(s, p)).Write?
    ensures var after := Perform(j, AdmitImage(Summarise(j), RequestedImage(s, p)), RECORD_WORDS);
      var b := Summarise(j).boot;
      && b.latestSequence < LAST_SEQUENCE && FirstBlank(Readings(j)).Some?
      && var k := FirstBlank(Readings(j)).value;
      && (forall i :: 0 <= i < RECORD_COUNT && i != k ==> after[i] == j[i])
      && PublishedWords(after[k], p, s, b.latestSequence + 1)
      && PublishedSummary(Summarise(after).boot, p, s, b.latestSequence + 1)
  {
    hide Encode, Classify, View, RequestedImage, PublishedWords, PublishedSummary, JR.Invariant;
    var r := RequestedImage(s, p);
    JR.SummaryOfInvariant(j);
    var su, es := Summarise(j), Entries(Readings(j));
    var sequence := su.boot.latestSequence + 1;
    var e := ImageEntry(sequence, r);
    LatestOfNone(j);
    PlaceAccepts(j, e, 0);
    AdmittedImage(j, r);
    SequenceIsLater(es, e);
    ViewOfImage(es, sequence, p, s);
    TornWhole(Encode(e, 0));
    ImageEntryWords(Encode(e, 0), p, s, sequence);
    EntryIsWellFormed(e, r);
    CompletedAppend(j, e, 0, su.slots.nextIndex);
  }

  lemma LatestOfNone(j: Slots)
    ensures Summarise(j).slots.validCount == 0 ==> Summarise(j).boot.latestSequence == 0
    ensures Summarise(j).slots.validCount == |Entries(Readings(j))|
    ensures Entries(Readings(j)) != [] ==>
              Summarise(j).boot.latestSequence == SequenceOf(Newest(Entries(Readings(j))))
  {
  }

  lemma AdmittedImage(j: Slots, r: ImageRequest)
    requires JR.Invariant(Readings(j)) && AdmitImage(Summarise(j), r).Write?
    ensures Summarise(j).boot.latestSequence < LAST_SEQUENCE
    ensures AdmitImage(Summarise(j), r) ==
            Write(ImageEntry(Summarise(j).boot.latestSequence + 1, r), 0, Summarise(j).slots.nextIndex)
    ensures FirstBlank(Readings(j)) == Some(Summarise(j).slots.nextIndex)
    ensures ImageRequestStatus(r) == OK
  {
    JR.SummaryOfInvariant(j);
    LatestOfNone(j);
    PlaceAccepts(j, ImageEntry(Summarise(j).boot.latestSequence + 1, r), 0);
  }

  lemma EntryIsWellFormed(e: Entry, r: ImageRequest)
    requires ImageRequestStatus(r) == OK && exists sequence: U32 :: e == ImageEntry(sequence, r)
    ensures WellFormed(e)
  {
  }

  /** On the device an accepted IMAGE_VALID append writes exactly these words into the
      first free slot, leaves the rest of Flash alone, and is what the next scan reports. */
  lemma ImageAppendExactly(app: AppArea, run: seq<ServiceRuns.Event>, p: Payload, port: Port)
    requires port.initOk && port.callOk && |p| == 16 && p[0] == IMAGE_VALID
    requires AppendRecord(ServiceRuns.After(app, run).service, ServiceRuns.After(app, run).flash, p, port).status == OK
    ensures var t := ServiceRuns.After(app, run);
      var o := AppendRecord(t.service, t.flash, p, port);
      var j, after := t.flash.journal, o.flash.journal;
      && o.flash.app == t.flash.app && !o.service.verifySucceeded
      && Summarise(j).boot.latestSequence < LAST_SEQUENCE && FirstBlank(Readings(j)).Some?
      && var k := FirstBlank(Readings(j)).value;
      && (forall i :: 0 <= i < RECORD_COUNT && i != k ==> after[i] == j[i])
      && PublishedWords(after[k], p, t.service, Summarise(j).boot.latestSequence + 1)
      && PublishedSummary(Summarise(after).boot, p, t.service, Summarise(j).boot.latestSequence + 1)
  {
    hide ServiceRuns.After, Summarise, AdmitImage, Perform, RequestedImage, PublishedWords, PublishedSummary, JR.Invariant,
         FirstBlank;
    var t := ServiceRuns.After(app, run);
    ServiceAnswers.ReachableInvariant(app, run);
    ServiceAnswers.ImageExactly(t.flash.journal, RequestedImage(t.service, p));
    var r := RequestedImage(t.service, p);
    ServiceAnswers.RefusalsAreErrors(Summarise(t.flash.journal), r, r.id, None);
    ImageIsWritten(t.flash.journal, p, t.service);
  }

  // ---------------------------------------------------------------- BOOT_ATTEMPT and APP_CONFIRMED

  /** The slot that holds the image a trusted journal describes. */
  predicate HoldsCurrentImage(j: Slots, i: nat) {
    && i < RECORD_COUNT && Classify(j[i]).Written? && j[i][4] == 1
    && Join(j[i][5], j[i][6]) == Summarise(j).boot.imageValidSequence
  }

  /** A bound record repeats the image record: version, target, addresses, size, CRC and
      limit are the same words. */
  predicate RepeatsImage(w: Slot, image: Slot, kind: Word, sequence: U32, attempts: Word) {
    && w[0] == 0x4D42 && w[1] == 0x4453 && w[2] == 1 && w[3] == 64 && w[4] == kind && Holds32(w, 5, sequence)
    && w[7] == 1 && w[8] == 1 && w[9] == 0
    && (forall k :: 10 <= k <= 27 ==> w[k] == image[k])
    && w[28] == attempts
    && (forall k :: 29 <= k < 62 ==> w[k] == 0xFFFF)
    && Holds32(w, 62, Crc32Of(w[..62]))
  }

  lemma CurrentImageIsHeld(j: Slots, i: nat)
    requires Summarise(j).boot.metadataValid && HoldsCurrentImage(j, i)
    ensures Describes(Summarise(j).boot, Classify(j[i]).entry)
  {
    hide Classify;
    var es := Entries(Readings(j));
    var image := ViewImage(es);
    ClassifiedFields(j[i]);
    EntriesAreHeld(Readings(j));
    assert Readings(j)[i] == Written(Classify(j[i]).entry);
    SameNumber(es, image, Classify(j[i]).entry);
  }

  lemma ClassifiedFields(w: Slot)
    requires Classify(w).Written?
    ensures Classify(w).entry.sequence == Join(w[5], w[6]) && Classify(w).entry.slotId == 1
  {
    ParsedFields(w);
    ValidRecordMeans(w);
  }

  lemma SameNumber(es: seq<Entry>, a: Entry, b: Entry)
    requires Distinct(es) && a in es && b in es && a.sequence == b.sequence
    ensures a == b
  {
    var i :| 0 <= i < |es| && es[i] == a;
    var k :| 0 <= k < |es| && es[k] == b;
  }

  lemma BoundRecordWords(b: BootView, image: Slot, kind: Word, sequence: U32, attempts: Word)
    requires Classify(image).Written? && Describes(b, Classify(image).entry)
    ensures RepeatsImage(Encode(BoundEntry(kind, sequence, b), attempts), image, kind, sequence, attempts)
  {
    hide Encode, Crc32Of, Classify;
    RecordWords(BoundEntry(kind, sequence, b), attempts);
    ParsedFields(image);
    SplitJoin(image[10], image[11]);
    SplitJoin(image[12], image[13]);
    SplitJoin(image[14], image[15]);
    SplitJoin(image[16], image[17]);
    SplitJoin(image[18], image[19]);
    SplitJoin(image[23], image[24]);
  }

  /** An admitted BOOT_ATTEMPT writes, into the first free slot, a record that repeats the
      image it counts for, with the next number and the new count. */
  lemma AttemptRepeatsImage(j: Slots, id: Identity, i: nat)
    requires JR.Invariant(Readings(j)) && AdmitAttempt(Summarise(j), id).Write? && HoldsCurrentImage(j, i)
    ensures var after := Perform(j, AdmitAttempt(Summarise(j), id), RECORD_WORDS);
      var b := Summarise(j).boot;
      && b.latestSequence < LAST_SEQUENCE && b.attemptCount < 3 && FirstBlank(Readings(j)).Some?
      && var k := FirstBlank(Readings(j)).value;
      && (forall n :: 0 <= n < RECORD_COUNT && n != k ==> after[n] == j[n])
      && RepeatsImage(after[k], j[i], 2, b.latestSequence + 1, b.attemptCount + 1)
  {
    hide Summarise, Encode, Classify, AdmitAttempt, JR.Invariant, RepeatsImage, Describes;
    ServiceAnswers.SummaryOffers(j);
    AdmittedAttempt(j, id);
    AttemptIsBelowLimit(j, id);
    CurrentImageIsHeld(j, i);
    HeldIsWritten(j, i);
    var b := Summarise(j).boot;
    TornWhole(Encode(BoundEntry(BOOT_ATTEMPT, b.latestSequence + 1, b), b.attemptCount + 1));
    BoundRecordWords(b, j[i], BOOT_ATTEMPT, b.latestSequence + 1, b.attemptCount + 1);
  }

  lemma HeldIsWritten(j: Slots, i: nat)
    requires HoldsCurrentImage(j, i)
    ensures i < RECORD_COUNT && Classify(j[i]).Written?
  {
  }

  lemma AttemptIsBelowLimit(j: Slots, id: Identity)
    requires AdmitAttempt(Summarise(j), id).Write?
    ensures Summarise(j).boot.metadataValid && Summarise(j).boot.attemptCount < 3
  {
    hide Summarise, Place;
    LimitIsThree(j);
  }

  lemma LimitIsThree(j: Slots)
    ensures Summarise(j).boot.attemptLimit <= 3
  {
    hide Classify;
    var es := Entries(Readings(j));
    ReadingsWellFormed(j);
    if View(es).metadataValid {
      var image := ViewImage(es);
      assert WellFormed(image);
    }
  }

  /** The same for an admitted APP_CONFIRMED, which carries the count as it is. */
  lemma ConfirmRepeatsImage(j: Slots, expected: Option<Identity>, i: nat)
    requires JR.Invariant(Readings(j)) && AdmitConfirm(Summarise(j), expected).Write? && HoldsCurrentImage(j, i)
    ensures var after := Perform(j, AdmitConfirm(Summarise(j), expected), RECORD_WORDS);
      var b := Summarise(j).boot;
      && b.latestSequence < LAST_SEQUENCE && b.attemptCount < 0x1_0000 && FirstBlank(Readings(j)).Some?
      && var k := FirstBlank(Readings(j)).value;
      && (forall n :: 0 <= n < RECORD_COUNT && n != k ==> after[n] == j[n])
      && RepeatsImage(after[k], j[i], 3, b.latestSequence + 1, b.attemptCount)
  {
    hide Summarise, Encode, Classify, AdmitConfirm, JR.Invariant, RepeatsImage, Describes;
    ServiceAnswers.SummaryOffers(j);
    AdmittedConfirm(j, expected);
    CurrentImageIsHeld(j, i);
    HeldIsWritten(j, i);
    var b := Summarise(j).boot;
    TornWhole(Encode(BoundEntry(APP_CONFIRMED, b.latestSequence + 1, b), b.attemptCount));
    BoundRecordWords(b, j[i], APP_CONFIRMED, b.latestSequence + 1, b.attemptCount);
  }

  /** There always is such a slot. */
  lemma TrustedImageHasSlot(j: Slots) returns (i: nat)
    requires Summarise(j).boot.metadataValid
    ensures HoldsCurrentImage(j, i)
  {
    hide Classify;
    var es := Entries(Readings(j));
    var image := ViewImage(es);
    EntriesAreHeld(Readings(j));
    var k: nat :| k < |Readings(j)| && Readings(j)[k] == Written(image);
    i := k;
    ImageSlot(j[i], image);
  }

  lemma ImageSlot(w: Slot, image: Entry)
    requires Classify(w) == Written(image) && image.kind == IMAGE_VALID
    ensures w[4] == 1 && Join(w[5], w[6]) == image.sequence
  {
    ParsedFields(w);
  }
}
