/** What a summary says about the slots, independently of how the scan walks them. */
module ScanMeaning {
  import opened Words
  import opened Record
  import opened Scan

  // ---------------------------------------------------------------- folds and membership

  lemma {:induction false} NewestIsGreatest(es: seq<Entry>)
    requires es != []
    ensures Newest(es).Some? && Newest(es).value in es
    ensures forall e :: e in es ==> e.sequence <= Newest(es).value.sequence
  {
    var rest, last := es[..|es| - 1], es[|es| - 1];
    assert es == rest + [last];
    if rest == [] {
    } else {
      NewestIsGreatest(rest);
    }
  }

  lemma {:induction false} ImagesMembers(es: seq<Entry>)
    ensures forall e :: e in Images(es) <==> e in es && e.kind == IMAGE_VALID
  {
    if es == [] {
    } else {
      ImagesMembers(es[..|es| - 1]);
      assert es == es[..|es| - 1] + [es[|es| - 1]];
    }
  }

  lemma {:induction false} FollowersMembers(es: seq<Entry>, image: Entry, kind: Word)
    ensures forall e :: e in Followers(es, image, kind) <==> e in es && e.kind == kind && Follows(e, image)
  {
    if es == [] {
    } else {
      FollowersMembers(es[..|es| - 1], image, kind);
      assert es == es[..|es| - 1] + [es[|es| - 1]];
    }
  }

  /** With distinct sequence numbers, the newest entry is the one no entry exceeds. */
  lemma NewestUnique(es: seq<Entry>, e: Entry)
    requires Distinct(es) && e in es && forall x :: x in es ==> x.sequence <= e.sequence
    ensures Newest(es) == Some(e)
  {
    NewestIsGreatest(es);
    var n := Newest(es).value;
    var i :| 0 <= i < |es| && es[i] == e;
    var k :| 0 <= k < |es| && es[k] == n;
  }

  // ---------------------------------------------------------------- slots

  /** No two slots hold valid records with one sequence number. */
  ghost predicate Unambiguous(rs: seq<Reading>) {
    forall i, k :: 0 <= i < k < |rs| && rs[i].Written? && rs[k].Written? ==>
      rs[i].entry.sequence != rs[k].entry.sequence
  }

  lemma {:induction false} EntriesAreHeld(rs: seq<Reading>)
    ensures forall e :: e in Entries(rs) <==> Written(e) in rs
  {
    if rs == [] {
    } else {
      EntriesAreHeld(rs[..|rs| - 1]);
      assert rs == rs[..|rs| - 1] + [rs[|rs| - 1]];
    }
  }

  lemma SequencesMembers(es: seq<Entry>)
    ensures forall s :: s in SequencesOf(es) <==> exists e :: e in es && e.sequence == s
  {
    forall e | e in es
      ensures e.sequence in SequencesOf(es)
    {
      var k :| 0 <= k < |es| && es[k] == e;
      assert SequencesOf(es)[k] == e.sequence;
    }
    forall s | s in SequencesOf(es)
      ensures exists e :: e in es && e.sequence == s
    {
      var k :| 0 <= k < |es| && SequencesOf(es)[k] == s;
      assert es[k] in es;
    }
  }

  lemma {:induction false} DistinctIsUnambiguous(rs: seq<Reading>)
    ensures Distinct(Entries(rs)) <==> Unambiguous(rs)
  {
    if rs == [] {
    } else {
      var rest, last := rs[..|rs| - 1], rs[|rs| - 1];
      DistinctIsUnambiguous(rest);
      assert forall k :: 0 <= k < |rest| ==> rest[k] == rs[k];
      if last.Written? {
        DistinctExtends(Entries(rest), last.entry);
        RepeatIsHeld(rest, last.entry.sequence);
      } else {
        assert Entries(rs) == Entries(rest);
      }
    }
  }

  lemma RepeatIsHeld(rs: seq<Reading>, sequence: U32)
    ensures sequence in SequencesOf(Entries(rs)) <==>
            exists k :: 0 <= k < |rs| && rs[k].Written? && rs[k].entry.sequence == sequence
  {
    EntriesAreHeld(rs);
    SequencesMembers(Entries(rs));
    if e :| e in Entries(rs) && e.sequence == sequence {
      var k :| 0 <= k < |rs| && rs[k] == Written(e);
    }
    if k :| 0 <= k < |rs| && rs[k].Written? && rs[k].entry.sequence == sequence {
      assert Written(rs[k].entry) in rs;
    }
  }

  /** A record with a greater number that repeats slot, entry point, size and CRC. */
  predicate ComesAfter(e: Entry, image: Entry) {
    && e.sequence > image.sequence
    && e.slotId == image.slotId && e.entryPoint == image.entryPoint
    && e.imageSizeWords == image.imageSizeWords && e.imageCrc32 == image.imageCrc32
  }

  /** The slots that hold a valid record of `kind` that comes after `image`. */
  ghost function FollowerSlots(rs: seq<Reading>, image: Entry, kind: Word): set<int> {
    set i | 0 <= i < |rs| && rs[i].Written? && rs[i].entry.kind == kind && ComesAfter(rs[i].entry, image)
  }

  lemma FollowsMeans(e: Entry, image: Entry)
    ensures Follows(e, image) <==> ComesAfter(e, image)
  {
  }

  ghost function ValidSlots(rs: seq<Reading>): set<int> {
    set i | 0 <= i < |rs| && rs[i].Written?
  }

  ghost function BlankSlots(rs: seq<Reading>): set<int> {
    set i | 0 <= i < |rs| && rs[i].Blank?
  }

  lemma Grown(s: set<int>, n: int)
    requires n !in s
    ensures |s + {n}| == |s| + 1
  {
  }

  lemma FollowerSlotsStep(rs: seq<Reading>, image: Entry, kind: Word)
    requires rs != []
    ensures var n := |rs| - 1;
      && n !in FollowerSlots(rs[..n], image, kind)
      && FollowerSlots(rs, image, kind) == FollowerSlots(rs[..n], image, kind) +
           if rs[n].Written? && rs[n].entry.kind == kind && ComesAfter(rs[n].entry, image) then {n} else {}
  {
    hide ComesAfter;
    assert forall i :: 0 <= i < |rs| - 1 ==> rs[..|rs| - 1][i] == rs[i];
  }

  lemma {:induction false} FollowersAreCounted(rs: seq<Reading>, image: Entry, kind: Word)
    ensures |Followers(Entries(rs), image, kind)| == |FollowerSlots(rs, image, kind)|
  {
    if rs == [] {
    } else {
      hide Follows, ComesAfter, FollowerSlots;
      var rest, last := rs[..|rs| - 1], rs[|rs| - 1];
      FollowersAreCounted(rest, image, kind);
      FollowerSlotsStep(rs, image, kind);
      Grown(FollowerSlots(rest, image, kind), |rest|);
      if last.Written? {
        FollowsMeans(last.entry, image);
        FollowerStep(Entries(rest), last.entry, image, kind);
      } else {
        assert Entries(rs) == Entries(rest);
      }
    }
  }

  lemma ValidSlotsStep(rs: seq<Reading>)
    requires rs != []
    ensures var n := |rs| - 1;
      && n !in ValidSlots(rs[..n])
      && ValidSlots(rs) == ValidSlots(rs[..n]) + if rs[n].Written? then {n} else {}
  {
  }

  lemma {:induction false} ValidSlotsAreCounted(rs: seq<Reading>)
    ensures |Entries(rs)| == |ValidSlots(rs)|
  {
    if rs == [] {
    } else {
      hide ValidSlots;
      var rest, last := rs[..|rs| - 1], rs[|rs| - 1];
      ValidSlotsAreCounted(rest);
      ValidSlotsStep(rs);
      Grown(ValidSlots(rest), |rest|);
      assert Entries(rs) == Entries(rest) + EntryOf(last);
    }
  }

  lemma {:induction false} BlankSlotsAreCounted(rs: seq<Reading>)
    ensures BlankCount(rs) == |BlankSlots(rs)|
  {
    if rs == [] {
    } else {
      var rest, last := rs[..|rs| - 1], rs[|rs| - 1];
      BlankSlotsAreCounted(rest);
      assert BlankSlots(rs) == BlankSlots(rest) + if last.Blank? then {|rest|} else {};
      Grown(BlankSlots(rest), |rest|);
    }
  }

  /** `image` is the valid IMAGE_VALID record of greatest sequence number. */
  ghost predicate CurrentImage(rs: seq<Reading>, image: Entry) {
    && Written(image) in rs
    && image.kind == IMAGE_VALID
    && forall e :: Written(e) in rs && e.kind == IMAGE_VALID ==> e.sequence <= image.sequence
  }

  /** The summary repeats every field of the image record. */
  ghost predicate Describes(b: BootView, image: Entry) {
    && b.hasImageValid && b.activeSlot == image.slotId && b.imageValidSequence == image.sequence
    && b.appStart == image.appStart && b.appEnd == image.appEnd && b.entryPoint == image.entryPoint
    && b.imageSizeWords == image.imageSizeWords && b.imageCrc32 == image.imageCrc32
    && b.versionMajor == image.versionMajor && b.versionMinor == image.versionMinor
    && b.versionPatch == image.versionPatch && b.versionBuild == image.versionBuild
    && b.deviceId == image.deviceId && b.cpuId == image.cpuId && b.attemptLimit == image.attemptLimit
  }

  /** Some slot holds a valid image record. */
  ghost predicate HasImage(rs: seq<Reading>) {
    exists e :: Written(e) in rs && e.kind == IMAGE_VALID
  }

  lemma ImagesAreHeld(rs: seq<Reading>)
    ensures Images(Entries(rs)) != [] <==> HasImage(rs)
    ensures Images(Entries(rs)) != [] ==> CurrentImage(rs, Newest(Images(Entries(rs))).value)
  {
    var images := Images(Entries(rs));
    EntriesAreHeld(rs);
    ImagesMembers(Entries(rs));
    if HasImage(rs) {
      var e :| Written(e) in rs && e.kind == IMAGE_VALID;
      assert e in images;
    }
    if images != [] {
      NewestIsGreatest(images);
      assert images[0] in images;
    }
  }

  /** Some confirmation of `image` carries this sequence number. */
  ghost predicate HeldAmong(rs: seq<Reading>, image: Entry, sequence: U32) {
    exists i :: i in FollowerSlots(rs, image, APP_CONFIRMED) && rs[i].entry.sequence == sequence
  }

  lemma ConfirmationIsNewest(rs: seq<Reading>, image: Entry)
    ensures var confirms := Followers(Entries(rs), image, APP_CONFIRMED);
      && (confirms == [] <==> FollowerSlots(rs, image, APP_CONFIRMED) == {})
      && (forall i :: i in FollowerSlots(rs, image, APP_CONFIRMED) ==>
            rs[i].entry.sequence <= SequenceOf(Newest(confirms)))
      && (confirms != [] ==> HeldAmong(rs, image, SequenceOf(Newest(confirms))))
  {
    var confirms := Followers(Entries(rs), image, APP_CONFIRMED);
    FollowersAreCounted(rs, image, APP_CONFIRMED);
    FollowersMembers(Entries(rs), image, APP_CONFIRMED);
    EntriesAreHeld(rs);
    if confirms != [] {
      NewestIsGreatest(confirms);
      var newest := Newest(confirms).value;
      var k :| 0 <= k < |rs| && rs[k] == Written(newest);
      assert k in FollowerSlots(rs, image, APP_CONFIRMED);
    }
    forall i | i in FollowerSlots(rs, image, APP_CONFIRMED)
      ensures rs[i].entry.sequence <= SequenceOf(Newest(confirms))
    {
      assert rs[i] in rs;
      assert rs[i].entry in confirms;
    }
  }

  /** What a trusted summary describes, on arbitrary slot contents. */
  ghost predicate ViewDescribes(rs: seq<Reading>, b: BootView, image: Entry) {
    && CurrentImage(rs, image)
    && Describes(b, image)
    && b.attemptCount == |FollowerSlots(rs, image, BOOT_ATTEMPT)|
    && (b.appConfirmed <==> FollowerSlots(rs, image, APP_CONFIRMED) != {})
    && (forall i :: i in FollowerSlots(rs, image, APP_CONFIRMED) ==>
          rs[i].entry.sequence <= b.appConfirmedSequence)
    && (if b.appConfirmed then HeldAmong(rs, image, b.appConfirmedSequence) else b.appConfirmedSequence == 0)
  }

  /** A journal is trusted exactly when no sequence number repeats and an image
      record exists; the summary is then that of the newest image. */
  lemma ViewMeaning(rs: seq<Reading>)
    ensures var b := View(Entries(rs));
      && (b.metadataValid <==> Unambiguous(rs) && HasImage(rs))
      && (b.metadataValid ==> exists image :: ViewDescribes(rs, b, image))
  {
    DistinctIsUnambiguous(rs);
    ImagesAreHeld(rs);
    var images := Images(Entries(rs));
    if Distinct(Entries(rs)) && images != [] {
      var image := Newest(images).value;
      FollowersAreCounted(rs, image, BOOT_ATTEMPT);
      ConfirmationIsNewest(rs, image);
      assert ViewDescribes(rs, View(Entries(rs)), image);
    }
  }

  /** A summary counts every scanned slot once and points at the first erased one. */
  lemma SlotsMeaning(rs: seq<Reading>)
    requires |rs| <= RECORD_COUNT
    ensures var v := SlotsOf(rs);
      && v.validCount == |ValidSlots(rs)|
      && v.erasedCount == |BlankSlots(rs)|
      && v.freeCount == v.erasedCount
      && v.validCount + v.invalidCount + v.erasedCount == |rs|
      && (v.nextIndex == INVALID_INDEX <==> BlankSlots(rs) == {})
      && (v.nextIndex != INVALID_INDEX ==>
            v.nextIndex in BlankSlots(rs) && forall k :: k in BlankSlots(rs) ==> v.nextIndex <= k)
  {
    ValidSlotsAreCounted(rs);
    BlankSlotsAreCounted(rs);
    if FirstBlank(rs).Some? {
      assert FirstBlank(rs).value in BlankSlots(rs);
    }
  }

  /** Nothing is claimed about any image. */
  ghost predicate ClaimsNothing(b: BootView) {
    && !b.metadataValid && !b.hasImageValid && !b.appConfirmed && b.attemptCount == 0
    && b.activeSlot == 0 && b.imageValidSequence == 0 && b.appConfirmedSequence == 0
    && b.appStart == 0 && b.appEnd == 0 && b.entryPoint == 0 && b.imageSizeWords == 0 && b.imageCrc32 == 0
    && b.versionMajor == 0 && b.versionMinor == 0 && b.versionPatch == 0 && b.versionBuild == 0
    && b.deviceId == 0 && b.cpuId == 0 && b.attemptLimit == 3
  }

  /** A valid record with this number and kind. */
  ghost predicate HeldAs(rs: seq<Reading>, sequence: U32, kind: Word) {
    exists e :: Written(e) in rs && e.sequence == sequence && e.kind == kind
  }

  /** The latest sequence number is the greatest of any valid record, trusted or not, and
      comes with that record's type; an untrusted summary claims nothing else. */
  lemma LatestMeaning(rs: seq<Reading>)
    ensures var b := View(Entries(rs));
      && (forall e :: Written(e) in rs ==> e.sequence <= b.latestSequence)
      && (ValidSlots(rs) == {} ==> b.latestSequence == 0 && b.latestRecordType == 0 && !b.metadataValid)
      && (ValidSlots(rs) != {} ==> HeldAs(rs, b.latestSequence, b.latestRecordType))
      && (!b.metadataValid ==> ClaimsNothing(b))
  {
    var es := Entries(rs);
    ValidSlotsAreCounted(rs);
    EntriesAreHeld(rs);
    if es != [] {
      NewestIsGreatest(es);
      var newest := Newest(es).value;
      assert Written(newest) in rs;
      assert View(es).latestSequence == newest.sequence && View(es).latestRecordType == newest.kind;
    }
  }

  /** The four states of a scan, in terms of the slots. */
  lemma StateMeaning(rs: seq<Reading>)
    requires |rs| <= RECORD_COUNT
    ensures var state := SummaryOf(rs).state;
      && (state == DuplicateSequence <==> !Unambiguous(rs))
      && (state == JournalValid <==> Unambiguous(rs) && HasImage(rs))
      && (state == JournalEmpty <==> forall k :: 0 <= k < |rs| ==> rs[k].Blank?)
  {
    DistinctIsUnambiguous(rs);
    ImagesAreHeld(rs);
    SlotsMeaning(rs);
    ImagesMembers(Entries(rs));
    ValidSlotsAreCounted(rs);
    AllBlank(rs);
    if forall k :: 0 <= k < |rs| ==> rs[k].Blank? {
      assert ValidSlots(rs) == {};
    }
  }

  lemma {:induction false} AllBlank(rs: seq<Reading>)
    ensures BlankCount(rs) <= |rs|
    ensures BlankCount(rs) == |rs| <==> forall k :: 0 <= k < |rs| ==> rs[k].Blank?
  {
    if rs == [] {
    } else {
      var rest := rs[..|rs| - 1];
      AllBlank(rest);
      assert forall k :: 0 <= k < |rest| ==> rest[k] == rs[k];
    }
  }

  // ---------------------------------------------------------------- slot order

  function Without<T>(s: seq<T>, i: nat): seq<T>
    requires i < |s|
  {
    s[..i] + s[i + 1..]
  }

  lemma WithoutMultiset<T>(s: seq<T>, i: nat)
    requires i < |s|
    ensures multiset(s) == multiset(Without(s, i)) + multiset{s[i]}
  {
    assert s == s[..i] + [s[i]] + s[i + 1..];
  }

  /** Takes the last element of `p` out of both of two permutations. */
  lemma MatchLast<T>(p: seq<T>, q: seq<T>) returns (i: nat)
    requires p != [] && multiset(p) == multiset(q)
    ensures i < |q| && q[i] == p[|p| - 1]
    ensures multiset(p[..|p| - 1]) == multiset(Without(q, i))
  {
    var last := p[|p| - 1];
    assert p == p[..|p| - 1] + [last];
    MembersPermute(p, q);
    assert last in p;
    i :| 0 <= i < |q| && q[i] == last;
    WithoutMultiset(q, i);
    CancelOne(multiset(p[..|p| - 1]), multiset(Without(q, i)), last);
  }

  lemma CancelOne<T>(a: multiset<T>, b: multiset<T>, x: T)
    requires a + multiset{x} == b + multiset{x}
    ensures a == b
  {
    assert a == (a + multiset{x}) - multiset{x};
    assert b == (b + multiset{x}) - multiset{x};
  }

  lemma {:induction false} EntriesConcat(a: seq<Reading>, b: seq<Reading>)
    ensures Entries(a + b) == Entries(a) + Entries(b)
    ensures BlankCount(a + b) == BlankCount(a) + BlankCount(b)
  {
    if b == [] {
      assert a + b == a;
    } else {
      assert (a + b)[..|a + b| - 1] == a + b[..|b| - 1];
      EntriesConcat(a, b[..|b| - 1]);
    }
  }

  lemma {:induction false} ImagesConcat(a: seq<Entry>, b: seq<Entry>)
    ensures Images(a + b) == Images(a) + Images(b)
  {
    if b == [] {
      assert a + b == a;
    } else {
      assert (a + b)[..|a + b| - 1] == a + b[..|b| - 1];
      ImagesConcat(a, b[..|b| - 1]);
    }
  }

  lemma {:induction false} FollowersConcat(a: seq<Entry>, b: seq<Entry>, image: Entry, kind: Word)
    ensures Followers(a + b, image, kind) == Followers(a, image, kind) + Followers(b, image, kind)
  {
    if b == [] {
      assert a + b == a;
    } else {
      assert (a + b)[..|a + b| - 1] == a + b[..|b| - 1];
      FollowersConcat(a, b[..|b| - 1], image, kind);
    }
  }

  lemma SingleEntry(r: Reading)
    ensures Entries([r]) == EntryOf(r)
  {
    assert [r][..0] == [];
    assert Entries([r][..0]) == [];
  }

  /** Splitting a journal at one slot. */
  lemma SplitEntries(a: seq<Reading>, r: Reading, b: seq<Reading>)
    ensures Entries(a + [r] + b) == Entries(a) + EntryOf(r) + Entries(b)
  {
    EntriesConcat(a + [r], b);
    EntriesConcat(a, [r]);
    SingleEntry(r);
  }

  lemma {:induction false} SplitBlanks(a: seq<Reading>, r: Reading, b: seq<Reading>)
    ensures BlankCount(a + [r] + b) == BlankCount(a) + BlankCount(b) + if r.Blank? then 1 else 0
  {
    var all := a + [r] + b;
    if b == [] {
      assert all[..|all| - 1] == a;
    } else {
      assert all[..|all| - 1] == a + [r] + b[..|b| - 1];
      SplitBlanks(a, r, b[..|b| - 1]);
    }
  }

  lemma EntriesWithout(q: seq<Reading>, i: nat)
    requires i < |q|
    ensures multiset(Entries(q)) == multiset(Entries(Without(q, i))) + multiset(EntryOf(q[i]))
    ensures BlankCount(q) == BlankCount(Without(q, i)) + if q[i].Blank? then 1 else 0
  {
    hide Entries, BlankCount, EntryOf;
    var front, back := q[..i], q[i + 1..];
    assert q == front + [q[i]] + back;
    SplitEntries(front, q[i], back);
    SplitBlanks(front, q[i], back);
    EntriesConcat(front, back);
    BlanksConcat(front, back);
  }

  lemma {:induction false} BlanksConcat(a: seq<Reading>, b: seq<Reading>)
    ensures BlankCount(a + b) == BlankCount(a) + BlankCount(b)
  {
    if b == [] {
      assert a + b == a;
    } else {
      assert (a + b)[..|a + b| - 1] == a + b[..|b| - 1];
      BlanksConcat(a, b[..|b| - 1]);
    }
  }

  lemma {:induction false} EntriesPermute(p: seq<Reading>, q: seq<Reading>)
    requires multiset(p) == multiset(q)
    ensures multiset(Entries(p)) == multiset(Entries(q))
    ensures BlankCount(p) == BlankCount(q)
    decreases |p|
  {
    if p == [] {
      assert |multiset(q)| == |q|;
      assert |multiset(p)| == 0;
    } else {
      var i := MatchLast(p, q);
      EntriesPermute(p[..|p| - 1], Without(q, i));
      EntriesWithout(q, i);
    }
  }

  lemma {:induction false} ImagesPermute(p: seq<Entry>, q: seq<Entry>)
    requires multiset(p) == multiset(q)
    ensures multiset(Images(p)) == multiset(Images(q))
    decreases |p|
  {
    if p == [] {
      assert |multiset(q)| == |q|;
    } else {
      var i := MatchLast(p, q);
      ImagesPermute(p[..|p| - 1], Without(q, i));
      assert q == q[..i] + [q[i]] + q[i + 1..];
      assert [q[i]][..0] == [];
      ImagesConcat(q[..i] + [q[i]], q[i + 1..]);
      ImagesConcat(q[..i], [q[i]]);
      ImagesConcat(q[..i], q[i + 1..]);
    }
  }

  lemma {:induction false} FollowersPermute(p: seq<Entry>, q: seq<Entry>, image: Entry, kind: Word)
    requires multiset(p) == multiset(q)
    ensures multiset(Followers(p, image, kind)) == multiset(Followers(q, image, kind))
    decreases |p|
  {
    if p == [] {
      assert |multiset(q)| == |q|;
    } else {
      var i := MatchLast(p, q);
      FollowersPermute(p[..|p| - 1], Without(q, i), image, kind);
      assert q == q[..i] + [q[i]] + q[i + 1..];
      assert [q[i]][..0] == [];
      FollowersConcat(q[..i] + [q[i]], q[i + 1..], image, kind);
      FollowersConcat(q[..i], [q[i]], image, kind);
      FollowersConcat(q[..i], q[i + 1..], image, kind);
    }
  }

  /** Among distinct sequence numbers the newest entry does not depend on the order. */
  lemma NewestPermutes(p: seq<Entry>, q: seq<Entry>)
    requires multiset(p) == multiset(q) && Distinct(p)
    ensures Newest(p) == Newest(q)
  {
    MembersPermute(p, q);
    if q == [] {
      assert |multiset(p)| == |p|;
    } else {
      NewestIsGreatest(q);
      NewestUnique(p, Newest(q).value);
    }
  }

  lemma MembersPermute<T>(p: seq<T>, q: seq<T>)
    requires multiset(p) == multiset(q)
    ensures forall x :: x in p <==> x in q
  {
    forall x
      ensures x in p <==> x in q
    {
      assert x in p <==> x in multiset(p);
      assert x in q <==> x in multiset(q);
    }
  }

  lemma {:induction false} DistinctPermutes(p: seq<Entry>, q: seq<Entry>)
    requires multiset(p) == multiset(q) && Distinct(p)
    ensures Distinct(q)
    decreases |p|
  {
    if p == [] {
      assert |multiset(q)| == |q|;
    } else {
      var i := MatchLast(p, q);
      var front, rest := p[..|p| - 1], Without(q, i);
      assert p == front + [q[i]];
      DistinctExtends(front, q[i]);
      DistinctPermutes(front, rest);
      SequencesMembers(front);
      MembersPermute(front, rest);
      forall a, b | 0 <= a < b < |q|
        ensures q[a].sequence != q[b].sequence
      {
        var a', b' := if a < i then a else a - 1, if b < i then b else b - 1;
        if a == i {
          assert rest[b'] == q[b] && q[b] in rest;
        } else if b == i {
          assert rest[a'] == q[a] && q[a] in rest;
        } else {
          assert rest[a'] == q[a] && rest[b'] == q[b];
        }
      }
    }
  }

  lemma {:induction false} FiltersKeepDistinct(es: seq<Entry>, image: Entry, kind: Word)
    requires Distinct(es)
    ensures Distinct(Images(es)) && Distinct(Followers(es, image, kind))
  {
    if es == [] {
    } else {
      var rest, last := es[..|es| - 1], es[|es| - 1];
      assert es == rest + [last];
      DistinctExtends(rest, last);
      FiltersKeepDistinct(rest, image, kind);
      ImagesMembers(rest);
      FollowersMembers(rest, image, kind);
      SequencesMembers(rest);
      SequencesMembers(Images(rest));
      SequencesMembers(Followers(rest, image, kind));
      DistinctExtends(Images(rest), last);
      DistinctExtends(Followers(rest, image, kind), last);
    }
  }

  /** Moving records around changes nothing a boot decision reads, as long as no
      sequence number is repeated. */
  lemma ViewPermutes(p: seq<Entry>, q: seq<Entry>)
    requires multiset(p) == multiset(q) && Distinct(p)
    ensures View(p) == View(q)
    ensures Images(p) == [] <==> Images(q) == []
  {
    DistinctPermutes(p, q);
    NewestPermutes(p, q);
    ImagesPermute(p, q);
    if p != [] {
      FiltersKeepDistinct(p, p[0], 0);
    }
    NewestPermutes(Images(p), Images(q));
    if Newest(Images(p)).Some? {
      var image := Newest(Images(p)).value;
      FollowersPermute(p, q, image, BOOT_ATTEMPT);
      assert |multiset(Followers(p, image, BOOT_ATTEMPT))| == |Followers(p, image, BOOT_ATTEMPT)|;
      assert |multiset(Followers(q, image, BOOT_ATTEMPT))| == |Followers(q, image, BOOT_ATTEMPT)|;
      FollowersPermute(p, q, image, APP_CONFIRMED);
      FiltersKeepDistinct(p, image, APP_CONFIRMED);
      NewestPermutes(Followers(p, image, APP_CONFIRMED), Followers(q, image, APP_CONFIRMED));
    }
  }

  /** Everything but the next free index survives a permutation of the slots. */
  lemma SlotOrderIsIrrelevant(p: seq<Reading>, q: seq<Reading>)
    requires |p| <= RECORD_COUNT && multiset(p) == multiset(q) && Unambiguous(p)
    ensures |q| == |p|
    ensures SummaryOf(q) == SummaryOf(p).(slots := SummaryOf(p).slots.(nextIndex := SummaryOf(q).slots.nextIndex))
  {
    assert |multiset(p)| == |p| && |multiset(q)| == |q|;
    DistinctIsUnambiguous(p);
    EntriesPermute(p, q);
    ViewPermutes(Entries(p), Entries(q));
    DistinctPermutes(Entries(p), Entries(q));
    assert |multiset(Entries(p))| == |Entries(p)| && |multiset(Entries(q))| == |Entries(q)|;
  }
}
