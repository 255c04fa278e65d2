/** Power loss while a record is being programmed: the journal reads either as
    before the append or as after it. */
module Crash {
  import opened Words
  import opened Record
  import opened Scan
  import opened ScanMeaning

  /** A slot after only the first `cut` words of `w` were programmed into it. */
  function Torn(w: Slot, cut: nat): Slot
    requires cut <= RECORD_WORDS
  {
    w[..cut] + Erased()[cut..]
  }

  /** Words 27 and below: the erased attempt limit is out of range. */
  lemma TornEarly(w: Slot, cut: nat)
    requires w[0] == MAGIC0 && cut <= 27
    ensures !Classify(Torn(w, cut)).Written?
    ensures Classify(Torn(w, cut)).Blank? <==> cut == 0
  {
    var t := Torn(w, cut);
    assert Parse(t).entry.attemptLimit == ERASED_WORD;
    if cut == 0 {
      assert t == Erased();
    } else {
      assert t[0] == MAGIC0 && Erased()[0] == ERASED_WORD;
    }
  }

  /** From word 28 on, everything a scan uses is in place. */
  lemma TornLate(w: Slot, cut: nat)
    requires w[0] == MAGIC0 && 28 <= cut <= RECORD_WORDS
    ensures Parse(Torn(w, cut)).entry == Parse(w).entry
    ensures !Classify(Torn(w, cut)).Blank?
  {
    var t := Torn(w, cut);
    assert forall k :: 0 <= k < 28 ==> t[k] == w[k];
    assert t[0] == MAGIC0 && Erased()[0] == ERASED_WORD;
  }

  lemma TornWhole(w: Slot)
    ensures Torn(w, RECORD_WORDS) == w
  {
  }

  /** However far programming got, a scan finds nothing usable in the slot or
      exactly the record that was being written. The checksum alone does not
      decide this: up to word 27 the erased attempt limit is out of range, and
      from word 28 on only word 28, which a scan ignores, can still differ. */
  lemma TornReading(e: Entry, attemptCount: Word, cut: nat)
    requires cut <= RECORD_WORDS
    ensures var w := Encode(e, attemptCount);
      && (Classify(Torn(w, cut)).Written? ==> Classify(Torn(w, cut)) == Written(e) == Classify(w))
      && (Classify(Torn(w, cut)).Blank? <==> cut == 0)
      && (cut <= 27 ==> !Classify(Torn(w, cut)).Written?)
      && (cut == RECORD_WORDS ==> Torn(w, cut) == w)
  {
    hide Encode, Parse;
    var w := Encode(e, attemptCount);
    EncodeParses(e, attemptCount);
    EncodeSections(e, attemptCount);
    assert w[0] == w[..10][0] == MAGIC0;
    TornWhole(w);
    if cut <= 27 {
      TornEarly(w, cut);
    } else {
      TornLate(w, cut);
      TornLate(w, RECORD_WORDS);
    }
  }

  /** The readings of a journal after one slot was rewritten. */
  lemma ReadingsUpdate(journal: seq<Slot>, i: nat, w: Slot)
    requires i < |Scanned(journal)|
    ensures Readings(Scanned(journal[i := w])) == Readings(Scanned(journal))[i := Classify(w)]
  {
    assert Scanned(journal[i := w]) == Scanned(journal)[i := w];
  }

  /** A slot that gives no entry can be replaced by another such slot. */
  lemma EntriesOfUpdate(rs: seq<Reading>, i: nat, r: Reading)
    requires i < |rs|
    ensures Entries(rs[i := r]) == Entries(rs[..i]) + EntryOf(r) + Entries(rs[i + 1..])
    ensures EntryOf(r) == EntryOf(rs[i]) ==> Entries(rs[i := r]) == Entries(rs)
  {
    assert rs[i := r] == rs[..i] + [r] + rs[i + 1..];
    assert rs == rs[..i] + [rs[i]] + rs[i + 1..];
    SplitEntries(rs[..i], r, rs[i + 1..]);
    SplitEntries(rs[..i], rs[i], rs[i + 1..]);
  }

  /** The state of a scan, with the two states that hold no image taken as one. */
  predicate SameTrust(a: ScanState, b: ScanState) {
    a == b || (a == JournalInvalid && b == JournalEmpty)
  }

  /** An append interrupted after `cut` words leaves every boot-relevant field as
      it was or as the finished append would have left it. */
  lemma CrashAtomicity(journal: seq<Slot>, i: nat, e: Entry, attemptCount: Word, cut: nat)
    requires FirstBlank(Readings(Scanned(journal))) == Some(i)
    requires cut <= RECORD_WORDS
    ensures var w := Encode(e, attemptCount);
      var before, after, torn :=
        Summarise(journal), Summarise(journal[i := w]), Summarise(journal[i := Torn(w, cut)]);
      && ((torn.boot == before.boot && SameTrust(torn.state, before.state)) ||
          (torn.boot == after.boot && torn.state == after.state))
      && (cut <= 27 ==> torn.boot == before.boot)
      && (cut == RECORD_WORDS ==> torn == after)
  {
    hide View, Distinct, Encode, Torn, Classify, Entries, Images;
    var w := Encode(e, attemptCount);
    var rs := Readings(Scanned(journal));
    TornReading(e, attemptCount, cut);
    ReadingsUpdate(journal, i, w);
    ReadingsUpdate(journal, i, Torn(w, cut));
    EntriesOfUpdate(rs, i, Classify(Torn(w, cut)));
    if Classify(Torn(w, cut)).Written? {
      assert rs[i := Classify(w)] == rs[i := Classify(Torn(w, cut))];
    } else {
      assert Entries(rs[i := Classify(Torn(w, cut))]) == Entries(rs);
      SlotsMeaning(rs);
      InvalidGrows(rs, i, Classify(Torn(w, cut)));
    }
  }

  lemma BlanksOfUpdate(rs: seq<Reading>, i: nat, r: Reading)
    requires i < |rs| && rs[i].Blank?
    ensures BlankCount(rs[i := r]) == BlankCount(rs) - if r.Blank? then 0 else 1
  {
    assert rs[i := r] == rs[..i] + [r] + rs[i + 1..];
    assert rs == rs[..i] + [rs[i]] + rs[i + 1..];
    SplitBlanks(rs[..i], r, rs[i + 1..]);
    SplitBlanks(rs[..i], rs[i], rs[i + 1..]);
  }

  /** Turning an erased slot into garbage moves one slot between the counters. */
  lemma InvalidGrows(rs: seq<Reading>, i: nat, r: Reading)
    requires i < |rs| <= RECORD_COUNT && rs[i].Blank? && !r.Written?
    ensures SlotsOf(rs[i := r]).invalidCount == SlotsOf(rs).invalidCount + if r.Blank? then 0 else 1
  {
    EntriesOfUpdate(rs, i, r);
    BlanksOfUpdate(rs, i, r);
  }
}
