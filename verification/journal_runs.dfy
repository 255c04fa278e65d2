/** Every run of the journal from its erased state: appends by the PC, confirmation
    by the App, appends cut short by a failing port or by power loss, and erasure. */
module JournalRuns {
  import opened Words
  import opened Protocol
  import opened Record
  import opened Scan
  import opened ScanMeaning
  import opened Crash
  import opened Journal
  import opened Rescan
  import opened Policy

  /** `cut` is the number of record words that reached Flash: all of them when the
      port succeeds, fewer when it fails or when power is lost. */
  datatype Event =
    | AppendImage(request: ImageRequest, cut: nat)
    | AppendAttempt(id: Identity, cut: nat)
    | AppendConfirm(expected: Option<Identity>, cut: nat)
    | EraseSector
    | Unrelated

  predicate EventOk(ev: Event) {
    match ev
    case AppendImage(_, cut) => cut <= RECORD_WORDS
    case AppendAttempt(_, cut) => cut <= RECORD_WORDS
    case AppendConfirm(_, cut) => cut <= RECORD_WORDS
    case _ => true
  }

  type JournalEvent = ev: Event | EventOk(ev) witness Unrelated

  function Apply(j: Slots, ev: JournalEvent): Slots {
    match ev
    case AppendImage(request, cut) => Perform(j, AdmitImage(Summarise(j), request), cut)
    case AppendAttempt(id, cut) => Perform(j, AdmitAttempt(Summarise(j), id), cut)
    case AppendConfirm(expected, cut) => Perform(j, AdmitConfirm(Summarise(j), expected), cut)
    case EraseSector => ErasedJournal()
    case Unrelated => j
  }

  /** The journal after a run from the erased journal. */
  function After(run: seq<JournalEvent>): Slots {
    if run == [] then ErasedJournal()
    else Apply(After(run[..|run| - 1]), run[|run| - 1])
  }

  // ---------------------------------------------------------------- the invariant

  /** Slots are consumed from the front. */
  predicate Prefix(rs: seq<Reading>) {
    forall i, k :: 0 <= i < k < |rs| && rs[i].Blank? ==> rs[k].Blank?
  }

  /** Valid records carry the sequence numbers 1, 2, 3, ... in slot order. */
  predicate Numbered(es: seq<Entry>) {
    forall n :: 0 <= n < |es| ==> es[n].sequence == n + 1
  }

  /** An attempt for `image` precedes the confirmation with this sequence number. */
  ghost predicate AttemptBefore(es: seq<Entry>, image: Entry, sequence: U32) {
    exists a :: a in es && a.kind == BOOT_ATTEMPT && Follows(a, image) && a.sequence < sequence
  }

  /** Every record after the image is bound to it. */
  ghost predicate OnlyFollowers(es: seq<Entry>, image: Entry) {
    forall e :: e in es && e.sequence > image.sequence ==> e.kind != IMAGE_VALID && Matches(e, image)
  }

  /** The life cycle of the current image. */
  ghost predicate Lifecycle(es: seq<Entry>) {
    match Newest(Images(es))
    case None => es == []
    case Some(image) =>
      var attempts, confirms := Followers(es, image, BOOT_ATTEMPT), Followers(es, image, APP_CONFIRMED);
      && |attempts| <= image.attemptLimit
      && OnlyFollowers(es, image)
      && (confirms != [] ==> AttemptBefore(es, image, SequenceOf(Newest(confirms))))
  }

  ghost predicate Invariant(rs: seq<Reading>) {
    && Prefix(rs)
    && Numbered(Entries(rs))
    && AllWellFormed(Entries(rs))
    && Lifecycle(Entries(rs))
  }

  lemma NumberedList(es: seq<Entry>)
    requires Numbered(es)
    ensures Distinct(es)
    ensures SequenceOf(Newest(es)) == |es|
  {
    if es != [] {
      NewestIsGreatest(es);
      var n := Newest(es).value;
      var k :| 0 <= k < |es| && es[k] == n;
      assert es[|es| - 1] in es;
    }
  }

  lemma {:induction false} BlankTail(rs: seq<Reading>)
    requires forall k :: 0 <= k < |rs| ==> rs[k].Blank?
    ensures Entries(rs) == []
  {
    if rs == [] {
    } else {
      BlankTail(rs[..|rs| - 1]);
    }
  }

  /** A write to the first free slot appends at the end. */
  lemma PrefixAppend(rs: seq<Reading>, slot: nat, r: Reading)
    requires Prefix(rs) && FirstBlank(rs) == Some(slot) && !r.Blank?
    ensures Prefix(rs[slot := r])
    ensures Entries(rs[slot := r]) == Entries(rs) + EntryOf(r)
  {
    hide Entries, FirstBlank, EntryOf;
    EntriesOfUpdate(rs, slot, r);
    EntriesOfUpdate(rs, slot, rs[slot]);
    assert rs[slot := rs[slot]] == rs;
    BlankTail(rs[slot + 1..]);
    BlankGivesNothing(rs[slot]);
  }

  lemma BlankGivesNothing(r: Reading)
    requires r.Blank?
    ensures EntryOf(r) == []
  {
  }

  lemma NumberedAppend(es: seq<Entry>, e: Entry)
    requires Numbered(es) && AllWellFormed(es)
    requires e.sequence == |es| + 1 && WellFormed(e)
    ensures Numbered(es + [e]) && AllWellFormed(es + [e])
    ensures Distinct(es) && IsLater(es, e)
  {
    NumberedList(es);
    SequenceIsLater(es, e);
  }

  /** A later image record starts over. */
  lemma LifecycleImage(es: seq<Entry>, e: Entry)
    requires Distinct(es) && IsLater(es, e) && e.kind == IMAGE_VALID
    ensures Lifecycle(es + [e])
  {
    ViewAfterImage(es, e);
    NothingFollowsLater(es + [e], e, BOOT_ATTEMPT);
    NothingFollowsLater(es + [e], e, APP_CONFIRMED);
  }

  /** What admission requires of a record that continues the life cycle of `image`. */
  predicate Continues(es: seq<Entry>, e: Entry, image: Entry) {
    && Matches(e, image)
    && ((e.kind == BOOT_ATTEMPT && |Followers(es, image, BOOT_ATTEMPT)| < image.attemptLimit) ||
        (e.kind == APP_CONFIRMED && Followers(es, image, BOOT_ATTEMPT) != []))
  }

  lemma LifecycleBound(es: seq<Entry>, e: Entry, image: Entry)
    requires Distinct(es) && IsLater(es, e) && Lifecycle(es)
    requires Newest(Images(es)) == Some(image) && Continues(es, e, image)
    ensures Lifecycle(es + [e])
  {
    hide Distinct, View, WellFormed;
    ViewAfterBound(es, e, image);
    FollowerStep(es, e, image, BOOT_ATTEMPT);
    FollowerStep(es, e, image, APP_CONFIRMED);
    NewestIsGreatest(Images(es));
    ImagesMembers(es);
    assert image in es;
    StillOnlyFollowers(es, e, image);
    if e.kind == APP_CONFIRMED {
      ConfirmAfterAttempt(es, e, image);
    } else if Followers(es, image, APP_CONFIRMED) != [] {
      AttemptStillBefore(es, e, image, SequenceOf(Newest(Followers(es, image, APP_CONFIRMED))));
    }
  }

  lemma StillOnlyFollowers(es: seq<Entry>, e: Entry, image: Entry)
    requires OnlyFollowers(es, image) && e.kind != IMAGE_VALID && Matches(e, image)
    ensures OnlyFollowers(es + [e], image)
  {
  }

  lemma AttemptStillBefore(es: seq<Entry>, e: Entry, image: Entry, sequence: U32)
    requires AttemptBefore(es, image, sequence)
    ensures AttemptBefore(es + [e], image, sequence)
  {
    var a :| a in es && a.kind == BOOT_ATTEMPT && Follows(a, image) && a.sequence < sequence;
    assert a in es + [e];
  }

  lemma ConfirmAfterAttempt(es: seq<Entry>, e: Entry, image: Entry)
    requires IsLater(es, e) && e.kind == APP_CONFIRMED && Follows(e, image)
    requires Followers(es, image, BOOT_ATTEMPT) != []
    ensures AttemptBefore(es + [e], image, SequenceOf(Newest(Followers(es + [e], image, APP_CONFIRMED))))
  {
    var confirms := Followers(es, image, APP_CONFIRMED);
    FollowerStep(es, e, image, APP_CONFIRMED);
    EntryStep(confirms, e);
    FollowersMembers(es, image, APP_CONFIRMED);
    if confirms != [] {
      NewestIsGreatest(confirms);
    }
    assert Newest(confirms + [e]) == Some(e);
    var a := Followers(es, image, BOOT_ATTEMPT)[0];
    FollowersMembers(es, image, BOOT_ATTEMPT);
    assert a in Followers(es, image, BOOT_ATTEMPT);
    assert a in es + [e];
  }

  // ---------------------------------------------------------------- steps

  /** What the invariant asks of an entry that an append writes. */
  ghost predicate Admissible(es: seq<Entry>, e: Entry) {
    && e.sequence == |es| + 1
    && WellFormed(e)
    && (e.kind == IMAGE_VALID ||
        (Newest(Images(es)).Some? && Continues(es, e, Newest(Images(es)).value)))
  }

  lemma WriteKeepsInvariant(rs: seq<Reading>, slot: nat, r: Reading, e: Entry)
    requires Invariant(rs) && FirstBlank(rs) == Some(slot)
    requires Admissible(Entries(rs), e)
    requires r.Blank? || r.Garbage? || r == Written(e)
    ensures Invariant(rs[slot := r])
  {
    var es := Entries(rs);
    if r.Blank? {
      assert rs[slot := r] == rs;
    } else {
      PrefixAppend(rs, slot, r);
      if r.Written? {
        NumberedAppend(es, e);
        if e.kind == IMAGE_VALID {
          LifecycleImage(es, e);
        } else {
          LifecycleBound(es, e, Newest(Images(es)).value);
        }
      } else {
        assert es + [] == es;
      }
    }
  }

  lemma PerformKeepsInvariant(j: Slots, a: Admission, cut: nat)
    requires Invariant(Readings(j)) && cut <= RECORD_WORDS
    requires a.Write? ==> FirstBlank(Readings(j)) == Some(a.slot) && Admissible(Entries(Readings(j)), a.entry)
    ensures Invariant(Readings(Perform(j, a, cut)))
  {
    if a.Write? {
      var t := Torn(Encode(a.entry, a.attemptCount), cut);
      TornReading(a.entry, a.attemptCount, cut);
      ReadingsUpdate(j, a.slot, t);
      WriteKeepsInvariant(Readings(j), a.slot, Classify(t), a.entry);
    }
  }

  lemma SummaryOfInvariant(j: Slots)
    requires Invariant(Readings(j))
    ensures var s, es := Summarise(j), Entries(Readings(j));
      && Distinct(es)
      && s.boot.latestSequence == s.slots.validCount == |es| <= RECORD_COUNT
      && !s.state.DuplicateSequence?
      && (s.boot.metadataValid <==> Newest(Images(es)).Some?)
  {
    NumberedList(Entries(Readings(j)));
    EntriesBounded(Readings(j));
  }

  lemma ImageAdmissible(j: Slots, r: ImageRequest)
    requires Invariant(Readings(j)) && AdmitImage(Summarise(j), r).Write?
    ensures var a := AdmitImage(Summarise(j), r);
      FirstBlank(Readings(j)) == Some(a.slot) && Admissible(Entries(Readings(j)), a.entry)
  {
    SummaryOfInvariant(j);
    var s := Summarise(j);
    PlaceAccepts(j, ImageEntry(s.boot.latestSequence + 1, r), 0);
  }

  lemma AttemptAdmissible(j: Slots, id: Identity)
    requires Invariant(Readings(j)) && AdmitAttempt(Summarise(j), id).Write?
    ensures var a := AdmitAttempt(Summarise(j), id);
      FirstBlank(Readings(j)) == Some(a.slot) && Admissible(Entries(Readings(j)), a.entry)
  {
    SummaryOfInvariant(j);
    AdmittedAttempt(j, id);
    var image := ViewImage(Entries(Readings(j)));
    BoundEntryMatches(Entries(Readings(j)), BOOT_ATTEMPT, Summarise(j).boot.latestSequence + 1, image);
  }

  lemma ConfirmAdmissible(j: Slots, expected: Option<Identity>)
    requires Invariant(Readings(j)) && AdmitConfirm(Summarise(j), expected).Write?
    ensures var a := AdmitConfirm(Summarise(j), expected);
      FirstBlank(Readings(j)) == Some(a.slot) && Admissible(Entries(Readings(j)), a.entry)
  {
    SummaryOfInvariant(j);
    AdmittedConfirm(j, expected);
    var image := ViewImage(Entries(Readings(j)));
    BoundEntryMatches(Entries(Readings(j)), APP_CONFIRMED, Summarise(j).boot.latestSequence + 1, image);
  }

  /** A completed append keeps the invariant and takes one slot. */
  ghost predicate Appended(j: Slots, after: Slots) {
    Invariant(Readings(after)) && FreeSlots(after) + 1 == FreeSlots(j)
  }

  lemma CompletedStep(j: Slots, a: Admission)
    requires Invariant(Readings(j)) && a.Write?
    requires FirstBlank(Readings(j)) == Some(a.slot) && Admissible(Entries(Readings(j)), a.entry)
    ensures Appended(j, Perform(j, a, RECORD_WORDS))
  {
    hide Invariant, Perform, FreeSlots;
    PerformKeepsInvariant(j, a, RECORD_WORDS);
    AppendTakesSlot(j, a.entry, a.attemptCount, a.slot);
  }

  lemma ErasedInvariant()
    ensures Invariant(Readings(ErasedJournal()))
  {
    var rs := Readings(ErasedJournal());
    assert forall k :: 0 <= k < |rs| ==> rs[k].Blank?;
    BlankTail(rs);
  }

  lemma StepKeepsInvariant(j: Slots, ev: JournalEvent)
    requires Invariant(Readings(j))
    ensures Invariant(Readings(Apply(j, ev)))
  {
    match ev
    case AppendImage(request, cut) =>
      if AdmitImage(Summarise(j), request).Write? { ImageAdmissible(j, request); }
      PerformKeepsInvariant(j, AdmitImage(Summarise(j), request), cut);
    case AppendAttempt(id, cut) =>
      if AdmitAttempt(Summarise(j), id).Write? { AttemptAdmissible(j, id); }
      PerformKeepsInvariant(j, AdmitAttempt(Summarise(j), id), cut);
    case AppendConfirm(expected, cut) =>
      if AdmitConfirm(Summarise(j), expected).Write? { ConfirmAdmissible(j, expected); }
      PerformKeepsInvariant(j, AdmitConfirm(Summarise(j), expected), cut);
    case EraseSector => ErasedInvariant();
    case Unrelated =>
  }

  lemma {:induction false} RunKeepsInvariant(run: seq<JournalEvent>)
    ensures Invariant(Readings(After(run)))
  {
    if run == [] {
      ErasedInvariant();
    } else {
      RunKeepsInvariant(run[..|run| - 1]);
      StepKeepsInvariant(After(run[..|run| - 1]), run[|run| - 1]);
    }
  }

  // ---------------------------------------------------------------- over every run

  /** Slots fill from the front, valid records are numbered 1, 2, 3, ... in slot
      order, and no scan ever reports a repeated sequence number. */
  lemma RunsNumberRecords(run: seq<JournalEvent>)
    ensures var j := After(run);
      var s := Summarise(j);
      && Prefix(Readings(j))
      && Numbered(Entries(Readings(j)))
      && !s.state.DuplicateSequence?
      && s.boot.latestSequence == s.slots.validCount <= RECORD_COUNT
  {
    RunKeepsInvariant(run);
    SummaryOfInvariant(After(run));
  }

  /** Boot policy: the attempt limit is never exceeded, a confirmation implies an
      attempt, and an image is bootable exactly when it is trusted and confirmed. */
  lemma RunsObeyBootPolicy(run: seq<JournalEvent>)
    ensures var s := Summarise(After(run));
      && s.boot.attemptCount <= s.boot.attemptLimit <= ATTEMPT_LIMIT
      && (s.boot.appConfirmed ==> s.boot.attemptCount >= 1)
      && (IsConfirmedBootable(s) <==> s.boot.metadataValid && s.boot.appConfirmed)
      && PreviewAutoBootDecision(s) != StayBadEntry
      && forall entryPoint: U32 :: RunStatus(s, entryPoint) != ATTEMPT_LIMIT_REACHED
  {
    var j := After(run);
    var es := Entries(Readings(j));
    RunKeepsInvariant(run);
    SummaryOfInvariant(j);
    if View(es).metadataValid {
      var image := ViewImage(es);
      assert WellFormed(image);
      if View(es).appConfirmed {
        var confirms := Followers(es, image, APP_CONFIRMED);
        var a :| a in es && a.kind == BOOT_ATTEMPT && Follows(a, image) && a.sequence < SequenceOf(Newest(confirms));
        FollowersMembers(es, image, BOOT_ATTEMPT);
        assert a in Followers(es, image, BOOT_ATTEMPT);
      }
      assert Images(es) != [];
    }
  }

  /** In a run, RUN is accepted exactly for the trusted image's entry point after at least
      one attempt, and the automatic decision is one of four, told apart by the attempts
      and the confirmation. */
  lemma RunsDecideExactly(run: seq<JournalEvent>, entryPoint: U32)
    ensures var s := Summarise(After(run));
      && (RunStatus(s, entryPoint) == OK <==>
            s.boot.metadataValid && entryPoint == s.boot.entryPoint && s.boot.attemptCount > 0)
      && PreviewAutoBootDecision(s) ==
           (if s.state == JournalEmpty then StayNoImage
            else if !s.boot.metadataValid then StayMetadataInvalid
            else if s.boot.appConfirmed then RunConfirmedApp
            else if s.boot.attemptCount > 0 then StayWaitAppConfirm
            else StayFirstTrialRequiresPcRun)
  {
    RunsObeyBootPolicy(run);
    TrustedEntryIsAligned(run);
  }

  lemma TrustedEntryIsAligned(run: seq<JournalEvent>)
    ensures var b := Summarise(After(run)).boot;
      b.metadataValid ==> b.hasImageValid && ValidAutoBootEntry(b.entryPoint)
  {
    var es := Entries(Readings(After(run)));
    RunKeepsInvariant(run);
    if View(es).metadataValid {
      var image := ViewImage(es);
      assert WellFormed(image);
    }
  }

  /** An image that boots by itself was made valid, then attempted, then confirmed. */
  ghost predicate BootHistory(es: seq<Entry>, b: BootView, image: Entry, attempt: Entry, confirm: Entry) {
    && image in es && attempt in es && confirm in es
    && image.kind == IMAGE_VALID && attempt.kind == BOOT_ATTEMPT && confirm.kind == APP_CONFIRMED
    && image.sequence < attempt.sequence < confirm.sequence
    && Matches(attempt, image) && Matches(confirm, image)
    && image.entryPoint == b.entryPoint && image.sequence == b.imageValidSequence
    && confirm.sequence == b.appConfirmedSequence
  }

  lemma AutoBootHasHistory(run: seq<JournalEvent>) returns (image: Entry, attempt: Entry, confirm: Entry)
    requires IsConfirmedBootable(Summarise(After(run)))
    ensures BootHistory(Entries(Readings(After(run))), Summarise(After(run)).boot, image, attempt, confirm)
  {
    var es := Entries(Readings(After(run)));
    RunKeepsInvariant(run);
    image := ViewImage(es);
    var confirms := Followers(es, image, APP_CONFIRMED);
    NewestIsGreatest(confirms);
    FollowersMembers(es, image, APP_CONFIRMED);
    confirm := Newest(confirms).value;
    assert AttemptBefore(es, image, confirm.sequence);
    attempt :| attempt in es && attempt.kind == BOOT_ATTEMPT && Follows(attempt, image)
               && attempt.sequence < confirm.sequence;
  }

  /** In a run, an admitted append whose record reaches Flash whole always passes the
      check on the scan that follows it. */
  lemma RunsNeverFailVerification(run: seq<JournalEvent>, r: ImageRequest, id: Identity, expected: Option<Identity>)
    ensures var j := After(run);
      var s := Summarise(j);
      && (AdmitImage(s, r).Write? ==>
            ImageWritten(AdmitImage(s, r).entry, Summarise(Perform(j, AdmitImage(s, r), RECORD_WORDS))))
      && (AdmitAttempt(s, id).Write? ==>
            AttemptWritten(s, Summarise(Perform(j, AdmitAttempt(s, id), RECORD_WORDS))))
      && (AdmitConfirm(s, expected).Write? ==>
            ConfirmWritten(s, Summarise(Perform(j, AdmitConfirm(s, expected), RECORD_WORDS))))
  {
    var j := After(run);
    RunsNumberRecords(run);
    if AdmitImage(Summarise(j), r).Write? { ImageRescanSucceeds(j, r); }
    if AdmitAttempt(Summarise(j), id).Write? { AttemptRescanSucceeds(j, id); }
    if AdmitConfirm(Summarise(j), expected).Write? { ConfirmRescanSucceeds(j, expected); }
  }

  /** Directly after a BOOT_ATTEMPT append that reports success, RUN of the journal's
      entry point is accepted; this needs no run, only an unwrapped sequence number. */
  lemma RunAcceptedAfterAttempt(j: Slots, id: Identity)
    requires !AdmitAttempt(Summarise(j), id).Refused?
    requires Summarise(j).boot.latestSequence < LAST_SEQUENCE
    ensures RunStatus(Summarise(Perform(j, AdmitAttempt(Summarise(j), id), RECORD_WORDS)),
                      Summarise(j).boot.entryPoint) == OK
  {
    var es := Entries(Readings(j));
    ReadingsWellFormed(j);
    var image := ViewImage(es);
    assert WellFormed(image);
    if AdmitAttempt(Summarise(j), id).Write? {
      AdmittedAttempt(j, id);
      BoundAppend(j, BOOT_ATTEMPT, Summarise(j).boot.attemptCount + 1);
    }
  }
}
