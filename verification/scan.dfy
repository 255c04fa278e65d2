/** The two-pass journal scan and the summary that RUN, auto-boot and every
    append are decided on. */
module Scan {
  import opened Words
  import opened Record

  const INVALID_INDEX: Word := 0xFFFF

  datatype ScanState = JournalEmpty | JournalValid | JournalInvalid | DuplicateSequence

  /** The part of a summary that boot decisions read. */
  datatype BootView = BootView(
    metadataValid: bool,
    activeSlot: Word,
    hasImageValid: bool,
    appConfirmed: bool,
    latestRecordType: Word,
    latestSequence: U32,
    imageValidSequence: U32,
    appConfirmedSequence: U32,
    appStart: U32,
    appEnd: U32,
    entryPoint: U32,
    imageSizeWords: U32,
    imageCrc32: U32,
    versionMajor: Word,
    versionMinor: Word,
    versionPatch: Word,
    versionBuild: U32,
    deviceId: Word,
    cpuId: Word,
    attemptLimit: Word,
    attemptCount: nat)

  /** The part of a summary that counts slots and picks the next one to write. */
  datatype SlotView = SlotView(
    validCount: nat,
    invalidCount: nat,
    erasedCount: nat,
    freeCount: nat,
    nextIndex: Word)

  datatype Summary = Summary(state: ScanState, boot: BootView, slots: SlotView)

  const INITIAL_VIEW := BootView(
    false, SLOT_AUTO, false, false, 0, 0, 0, 0, 0, 0, 0, 0, 0, 0, 0, 0, 0, 0, 0, ATTEMPT_LIMIT, 0)

  const INITIAL_SLOTS := SlotView(0, 0, 0, 0, INVALID_INDEX)

  // ---------------------------------------------------------------- entries

  function Readings(journal: seq<Slot>): seq<Reading> {
    seq(|journal|, k requires 0 <= k < |journal| => Classify(journal[k]))
  }

  function EntryOf(r: Reading): seq<Entry> {
    if r.Written? then [r.entry] else []
  }

  /** The valid records, in slot order. */
  function Entries(rs: seq<Reading>): seq<Entry> {
    if rs == [] then [] else Entries(rs[..|rs| - 1]) + EntryOf(rs[|rs| - 1])
  }

  function SequencesOf(es: seq<Entry>): seq<U32> {
    seq(|es|, k requires 0 <= k < |es| => es[k].sequence)
  }

  predicate Distinct(es: seq<Entry>) {
    forall a, b :: 0 <= a < b < |es| ==> es[a].sequence != es[b].sequence
  }

  /** The first entry of greatest sequence number. */
  function Newest(es: seq<Entry>): (r: Option<Entry>)
    ensures r.None? <==> es == []
  {
    if es == [] then None
    else
      var rest, last := Newest(es[..|es| - 1]), es[|es| - 1];
      if rest.None? || last.sequence > rest.value.sequence then Some(last) else rest
  }

  function Images(es: seq<Entry>): seq<Entry> {
    if es == [] then []
    else
      var rest, last := Images(es[..|es| - 1]), es[|es| - 1];
      if last.kind == IMAGE_VALID then rest + [last] else rest
  }

  /** The entry repeats the identity of `image`. */
  predicate Matches(e: Entry, image: Entry) {
    && e.slotId == image.slotId
    && e.entryPoint == image.entryPoint
    && e.imageSizeWords == image.imageSizeWords
    && e.imageCrc32 == image.imageCrc32
  }

  /** The entry was written after `image` and for it. */
  predicate Follows(e: Entry, image: Entry) {
    e.sequence > image.sequence && Matches(e, image)
  }

  /** The entries of one kind that follow `image`. */
  function Followers(es: seq<Entry>, image: Entry, kind: Word): seq<Entry> {
    if es == [] then []
    else
      var rest, last := Followers(es[..|es| - 1], image, kind), es[|es| - 1];
      if last.kind == kind && Follows(last, image) then rest + [last] else rest
  }

  function SequenceOf(e: Option<Entry>): U32 {
    match e
    case None => 0
    case Some(entry) => entry.sequence
  }

  function WithLatest(latest: Option<Entry>): BootView {
    match latest
    case None => INITIAL_VIEW
    case Some(e) => INITIAL_VIEW.(latestSequence := e.sequence, latestRecordType := e.kind)
  }

  function CopyImage(view: BootView, image: Entry): BootView {
    view.(activeSlot := image.slotId, hasImageValid := true, imageValidSequence := image.sequence,
          appStart := image.appStart, appEnd := image.appEnd, entryPoint := image.entryPoint,
          imageSizeWords := image.imageSizeWords, imageCrc32 := image.imageCrc32,
          versionMajor := image.versionMajor, versionMinor := image.versionMinor,
          versionPatch := image.versionPatch, versionBuild := image.versionBuild,
          deviceId := image.deviceId, cpuId := image.cpuId, attemptLimit := image.attemptLimit)
  }

  function WithFollowers(view: BootView, attempts: nat, confirm: Option<Entry>): BootView {
    view.(attemptCount := attempts, appConfirmed := confirm.Some?,
          appConfirmedSequence := SequenceOf(confirm), metadataValid := true)
  }

  /** The boot-relevant summary of a list of valid records. */
  function View(es: seq<Entry>): BootView {
    var latest := WithLatest(Newest(es));
    if !Distinct(es) then latest
    else match Newest(Images(es))
      case None => latest
      case Some(image) =>
        WithFollowers(CopyImage(latest, image),
                      |Followers(es, image, BOOT_ATTEMPT)|,
                      Newest(Followers(es, image, APP_CONFIRMED)))
  }

  function StateOf(es: seq<Entry>, invalidCount: nat): ScanState {
    if !Distinct(es) then DuplicateSequence
    else if Images(es) != [] then JournalValid
    else if es == [] && invalidCount == 0 then JournalEmpty
    else JournalInvalid
  }

  // ---------------------------------------------------------------- slots

  function BlankCount(rs: seq<Reading>): nat {
    if rs == [] then 0 else BlankCount(rs[..|rs| - 1]) + (if rs[|rs| - 1].Blank? then 1 else 0)
  }

  function FirstBlank(rs: seq<Reading>): (r: Option<nat>)
    ensures r.Some? ==> r.value < |rs| && rs[r.value].Blank?
    ensures r.Some? ==> forall k :: 0 <= k < r.value ==> !rs[k].Blank?
    ensures r.None? ==> forall k :: 0 <= k < |rs| ==> !rs[k].Blank?
  {
    if rs == [] then None
    else
      var rest := FirstBlank(rs[..|rs| - 1]);
      if rest.Some? then rest
      else if rs[|rs| - 1].Blank? then Some(|rs| - 1)
      else None
  }

  function SlotsOf(rs: seq<Reading>): SlotView
    requires |rs| <= RECORD_COUNT
  {
    EntriesBounded(rs);
    var blank, first := BlankCount(rs), FirstBlank(rs);
    SlotView(|Entries(rs)|, |rs| - |Entries(rs)| - blank, blank, blank,
             if first.Some? then first.value else INVALID_INDEX)
  }

  function SummaryOf(rs: seq<Reading>): Summary
    requires |rs| <= RECORD_COUNT
  {
    Summary(StateOf(Entries(rs), SlotsOf(rs).invalidCount), View(Entries(rs)), SlotsOf(rs))
  }

  /** The slots a scan looks at. */
  function Scanned(journal: seq<Slot>): seq<Slot> {
    if |journal| > RECORD_COUNT then journal[..RECORD_COUNT] else journal
  }

  /** The summary of a journal. */
  function Summarise(journal: seq<Slot>): Summary {
    SummaryOf(Readings(Scanned(journal)))
  }

  lemma {:induction false} EntriesBounded(rs: seq<Reading>)
    ensures |Entries(rs)| + BlankCount(rs) <= |rs|
  {
    if rs == [] {
    } else {
      EntriesBounded(rs[..|rs| - 1]);
    }
  }

  // ---------------------------------------------------------------- the scan itself

  /** Copies a slot into a buffer and classifies it. */
  method LoadRecord(journal: seq<Slot>, index: nat) returns (erased: bool, record: Option<Parsed>)
    requires index < |journal|
    ensures erased <==> Classify(journal[index]).Blank?
    ensures record.Some? <==> Classify(journal[index]).Written?
    ensures record.Some? ==> record.value.entry == Classify(journal[index]).entry
  {
    var words := new Word[RECORD_WORDS];
    for k := 0 to RECORD_WORDS
      invariant words[..k] == journal[index][..k]
    {
      words[k] := journal[index][k];
    }
    assert words[..] == journal[index];
    erased := IsErasedRecord(words);
    record := ValidateRecord(words);
    assert erased ==> journal[index][0] == ERASED_WORD;
  }

  /** Extending the scanned prefix by one slot extends every fold over it. */
  lemma PrefixStep(rs: seq<Reading>, index: nat)
    requires index < |rs|
    ensures Entries(rs[..index + 1]) == Entries(rs[..index]) + EntryOf(rs[index])
    ensures BlankCount(rs[..index + 1]) == BlankCount(rs[..index]) + if rs[index].Blank? then 1 else 0
    ensures FirstBlank(rs[..index + 1]) ==
            if FirstBlank(rs[..index]).Some? then FirstBlank(rs[..index])
            else if rs[index].Blank? then Some(index) else None
  {
    assert rs[..index + 1][..index] == rs[..index];
  }

  /** How one slot moves the counters. */
  function CountSlot(view: SlotView, index: nat, erased: bool, valid: bool): SlotView
    requires index < RECORD_COUNT
  {
    if erased then
      view.(erasedCount := view.erasedCount + 1, freeCount := view.freeCount + 1,
            nextIndex := if view.nextIndex == INVALID_INDEX then index else view.nextIndex)
    else if valid then view.(validCount := view.validCount + 1)
    else view.(invalidCount := view.invalidCount + 1)
  }

  lemma CountStep(rs: seq<Reading>, index: nat)
    requires index < |rs| <= RECORD_COUNT
    ensures SlotsOf(rs[..index + 1]) ==
            CountSlot(SlotsOf(rs[..index]), index, rs[index].Blank?, rs[index].Written?)
  {
    PrefixStep(rs, index);
  }

  lemma EntryStep(es: seq<Entry>, e: Entry)
    ensures Newest(es + [e]) ==
            if Newest(es).None? || e.sequence > Newest(es).value.sequence then Some(e) else Newest(es)
    ensures Images(es + [e]) == Images(es) + if e.kind == IMAGE_VALID then [e] else []
  {
    assert (es + [e])[..|es|] == es;
  }

  lemma FollowerStep(es: seq<Entry>, e: Entry, image: Entry, kind: Word)
    ensures Followers(es + [e], image, kind) ==
            Followers(es, image, kind) + if e.kind == kind && Follows(e, image) then [e] else []
  {
    assert (es + [e])[..|es|] == es;
  }

  /** First pass, any slot: count it. */
  method CountRecord(journal: seq<Slot>, index: nat, ghost rs: seq<Reading>, view: SlotView)
    returns (counted: SlotView, record: Option<Parsed>)
    requires index < |journal| <= RECORD_COUNT && rs == Readings(journal)
    requires view == SlotsOf(rs[..index])
    ensures counted == SlotsOf(rs[..index + 1])
    ensures record.Some? <==> rs[index].Written?
    ensures record.Some? ==> record.value.entry == rs[index].entry
  {
    CountStep(rs, index);
    var erased;
    erased, record := LoadRecord(journal, index);
    counted := CountSlot(view, index, erased, record.Some?);
  }

  /** First pass, one valid record: note a repeated sequence number, then keep the
      newest record and the newest image. */
  method Absorb(sequences: array<U32>, count: nat, ghost es: seq<Entry>, record: Entry,
                wasDuplicate: bool, oldLatest: Option<Entry>, oldImage: Option<Entry>)
    returns (duplicate: bool, latest: Option<Entry>, image: Option<Entry>)
    requires count == |es| < sequences.Length && sequences[..count] == SequencesOf(es)
    requires wasDuplicate <==> !Distinct(es)
    requires oldLatest == Newest(es) && oldImage == Newest(Images(es))
    modifies sequences
    ensures sequences[..count + 1] == SequencesOf(es + [record])
    ensures duplicate <==> !Distinct(es + [record])
    ensures latest == Newest(es + [record])
    ensures image == Newest(Images(es + [record]))
  {
    var repeated := IsRepeated(sequences, count, record.sequence);
    DistinctExtends(es, record);
    EntryStep(es, record);
    EntryStep(Images(es), record);
    duplicate := wasDuplicate || repeated;
    sequences[count] := record.sequence;
    latest := if oldLatest.None? || record.sequence > oldLatest.value.sequence then Some(record) else oldLatest;
    image := if record.kind == IMAGE_VALID && (oldImage.None? || record.sequence > oldImage.value.sequence)
             then Some(record) else oldImage;
  }

  lemma EntriesOfNothing()
    ensures Entries([]) == [] && Distinct([]) && Newest([]) == None && Images([]) == []
  {
  }

  /** First pass: slot counts, duplicates, the newest record and the newest image. */
  method CollectRecords(journal: seq<Slot>)
    returns (view: SlotView, duplicate: bool, latest: Option<Entry>, image: Option<Entry>)
    requires |journal| <= RECORD_COUNT
    ensures view == SlotsOf(Readings(journal))
    ensures duplicate <==> !Distinct(Entries(Readings(journal)))
    ensures latest == Newest(Entries(Readings(journal)))
    ensures image == Newest(Images(Entries(Readings(journal))))
  {
    hide Distinct, Newest, Images, Entries, Classify;
    ghost var rs := Readings(journal);
    EntriesOfNothing();
    var sequences := new U32[RECORD_COUNT];
    var sequenceCount := 0;
    view, duplicate, latest, image := INITIAL_SLOTS, false, None, None;
    ghost var es: seq<Entry> := [];

    for index := 0 to |journal|
      invariant es == Entries(rs[..index])
      invariant sequenceCount == |es| <= index
      invariant sequences[..sequenceCount] == SequencesOf(es)
      invariant duplicate <==> !Distinct(es)
      invariant latest == Newest(es)
      invariant image == Newest(Images(es))
      invariant view == SlotsOf(rs[..index])
    {
      PrefixStep(rs, index);
      var parsed: Option<Parsed>;
      view, parsed := CountRecord(journal, index, rs, view);
      if parsed.Some? {
        var record := parsed.value.entry;
        duplicate, latest, image := Absorb(sequences, sequenceCount, es, record, duplicate, latest, image);
        sequenceCount := sequenceCount + 1;
        es := es + [record];
      }
    }
    assert rs[..|journal|] == rs;
  }

  method IsRepeated(sequences: array<U32>, count: nat, sequence: U32) returns (repeated: bool)
    requires count <= sequences.Length
    ensures repeated <==> sequence in sequences[..count]
  {
    repeated := false;
    for k := 0 to count
      invariant repeated <==> sequence in sequences[..k]
    {
      if sequences[k] == sequence {
        repeated := true;
      }
    }
  }

  /** Second pass: the boot attempts and the confirmation that follow `image`. */
  method CollectFollowers(journal: seq<Slot>, image: Entry)
    returns (attempts: nat, confirmed: bool, confirmedSequence: U32)
    requires |journal| <= RECORD_COUNT
    ensures attempts == |Followers(Entries(Readings(journal)), image, BOOT_ATTEMPT)|
    ensures confirmed == Newest(Followers(Entries(Readings(journal)), image, APP_CONFIRMED)).Some?
    ensures confirmedSequence == SequenceOf(Newest(Followers(Entries(Readings(journal)), image, APP_CONFIRMED)))
  {
    ghost var rs := Readings(journal);
    attempts, confirmed, confirmedSequence := 0, false, 0;
    ghost var es, confirms: seq<Entry> := [], [];
    for index := 0 to |journal|
      invariant es == Entries(rs[..index])
      invariant attempts == |Followers(es, image, BOOT_ATTEMPT)|
      invariant confirms == Followers(es, image, APP_CONFIRMED)
      invariant confirmed == Newest(confirms).Some?
      invariant confirmedSequence == SequenceOf(Newest(confirms))
    {
      PrefixStep(rs, index);
      var _, parsed := LoadRecord(journal, index);
      if parsed.None? {
        continue;
      }
      var record := parsed.value.entry;
      FollowerStep(es, record, image, BOOT_ATTEMPT);
      FollowerStep(es, record, image, APP_CONFIRMED);
      es := es + [record];
      if record.sequence <= image.sequence {
        continue;
      }
      if !Matches(record, image) {
        continue;
      }
      if record.kind == BOOT_ATTEMPT {
        attempts := attempts + 1;
      } else if record.kind == APP_CONFIRMED {
        EntryStep(confirms, record);
        confirms := confirms + [record];
        if !confirmed || record.sequence > confirmedSequence {
          confirmed := true;
          confirmedSequence := record.sequence;
        }
      }
    }
    assert rs[..|journal|] == rs;
  }

  method ScanLoadedRecords(journal: seq<Slot>) returns (summary: Summary)
    ensures summary == Summarise(journal)
  {
    var slots := journal;
    if |journal| > RECORD_COUNT {
      slots := journal[..RECORD_COUNT];
    }
    var view, duplicate, latest, image := CollectRecords(slots);
    var boot := INITIAL_VIEW;
    if latest.Some? {
      boot := boot.(latestSequence := latest.value.sequence, latestRecordType := latest.value.kind);
    }
    if duplicate {
      return Summary(DuplicateSequence, boot, view);
    }
    if image.None? {
      return Summary(if view.validCount == 0 && view.invalidCount == 0 then JournalEmpty else JournalInvalid,
                     boot, view);
    }
    boot := CopyImage(boot, image.value);
    var attempts, confirmed, confirmedSequence := CollectFollowers(slots, image.value);
    boot := boot.(attemptCount := attempts, appConfirmed := confirmed,
                  appConfirmedSequence := confirmedSequence, metadataValid := true);
    summary := Summary(JournalValid, boot, view);
  }

  lemma DistinctExtends(es: seq<Entry>, e: Entry)
    ensures Distinct(es + [e]) <==> Distinct(es) && e.sequence !in SequencesOf(es)
  {
    if Distinct(es + [e]) {
      forall a, b | 0 <= a < b < |es|
        ensures es[a].sequence != es[b].sequence
      {
        assert (es + [e])[a] == es[a] && (es + [e])[b] == es[b];
      }
      forall k | 0 <= k < |es|
        ensures es[k].sequence != e.sequence
      {
        assert (es + [e])[k] == es[k] && (es + [e])[|es|] == e;
      }
    }
    assert forall k :: 0 <= k < |es| ==> SequencesOf(es)[k] == es[k].sequence;
  }
}
