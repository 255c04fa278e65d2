/** The life of an image on the device: upgraded, attempted, run, confirmed, and from then
    on booted by itself. */
module LifeCycle {
  import opened Words
  import opened Protocol
  import opened Firmware
  import opened Packets
  import opened Record
  import opened Scan
  import opened Crash
  import opened Journal
  import opened Rescan
  import opened Policy
  import JR = JournalRuns
  import opened FlashPort
  import opened ServiceSpec
  import ServiceRuns
  import ServiceAnswers
  import opened FlashTransfer
  import opened Sectors
  import opened PcPackets
  import opened Upgrade

  // ---------------------------------------------------------------- requests

  /** The BOOT_ATTEMPT request of the PC. */
  function AttemptRequest(id: Identity): Payload {
    [BOOT_ATTEMPT, SLOT_A, Low(id.entryPoint), High(id.entryPoint), Low(id.imageSizeWords), High(id.imageSizeWords),
     Low(id.imageCrc32), High(id.imageCrc32)] + [0, 0, 0, 0, 0, 0, 0, 0]
  }

  function RunRequest(entry: U32): Payload {
    [TARGET_FLASH_APP, Low(entry), High(entry), 0]
  }

  lemma AttemptRequestReads(id: Identity)
    ensures var p := AttemptRequest(id);
      && |p| == 16 && p[0] == BOOT_ATTEMPT && BoundPayloadStatus(p) == OK && RequestIdentity(p) == id
  {
    var p := AttemptRequest(id);
    assert forall k :: 8 <= k <= 15 ==> p[k] == 0;
    JoinSplit(id.entryPoint);
    JoinSplit(id.imageSizeWords);
    JoinSplit(id.imageCrc32);
  }

  lemma RunRequestReads(s: Summary, entry: U32)
    ensures HandleRun(s, RunRequest(entry)) == RunStatus(s, entry)
  {
    hide RunStatus;
    JoinSplit(entry);
  }

  // ---------------------------------------------------------------- one record after the other

  /** A completed commit, spelled out. */
  lemma Committed(s: Service, flash: Flash, kind: AppendKind, a: Admission, port: Port)
    requires Works(port) && a.Write? && !kind.ImageAppend?
    requires PassesRescan(kind, a.entry, Summarise(flash.journal), Summarise(Perform(flash.journal, a, RECORD_WORDS)))
    ensures Commit(s, flash, kind, a, port) ==
            Outcome(s.(flashInitialized := true), flash.(journal := Perform(flash.journal, a, RECORD_WORDS)), OK)
  {
    hide Summarise, Perform, PassesRescan;
  }

  /** In a reachable journal that trusts a fresh image, BOOT_ATTEMPT is accepted exactly
      when a slot is free; then one attempt is counted and RUN is accepted. */
  lemma AttemptIsTaken(s: Service, flash: Flash, id: Identity, port: Port)
    requires Works(port) && JR.Invariant(Readings(flash.journal)) && Trusts(Summarise(flash.journal).boot, id)
    ensures var b := Summarise(flash.journal).boot;
      var o := AppendRecord(s, flash, AttemptRequest(id), port);
      && (o.status == OK <==> FreeSlots(flash.journal) > 0)
      && (o.status == OK ==>
            && o.service.initialized == s.initialized && o.flash.app == flash.app
            && b.latestSequence < LAST_SEQUENCE
            && Summarise(o.flash.journal).boot == ServiceAnswers.AfterAttempt(b)
            && JR.Appended(flash.journal, o.flash.journal)
            && HandleRun(Summarise(o.flash.journal), RunRequest(id.entryPoint)) == OK)
  {
    hide Summarise, Perform, Commit, AdmitAttempt, AttemptRequest, RunRequest, HandleRun, RunStatus, AttemptWritten,
         JR.Invariant, JR.Appended, JR.Admissible, FirstBlank, FreeSlots, ServiceAnswers.AfterAttempt;
    var j, a := flash.journal, AdmitAttempt(Summarise(flash.journal), id);
    AttemptRequestReads(id);
    FreeMeansSlot(j);
    ServiceAnswers.AttemptExactly(j, id);
    ServiceAnswers.RefusalsAreErrors(Summarise(j), ImageRequest(id, 0, 0, 0, 0, 0, 0, 0), id, None);
    if a.Write? {
      AttemptRescanSucceeds(j, id);
      Committed(s, flash, AttemptAppend, a, port);
      JR.AttemptAdmissible(j, id);
      JR.CompletedStep(j, a);
      JR.RunAcceptedAfterAttempt(j, id);
      RunRequestReads(Summarise(Perform(j, a, RECORD_WORDS)), id.entryPoint);
    } else {
      RefusedCommit(s, flash, AttemptAppend, a, port);
    }
  }

  lemma FreeMeansSlot(j: Slots)
    ensures ServiceAnswers.HasFreeSlot(j) <==> FreeSlots(j) > 0
  {
    BlanksAreFound(Readings(j));
  }

  lemma RefusedCommit(s: Service, flash: Flash, kind: AppendKind, a: Admission, port: Port)
    requires a.Refused?
    ensures Commit(s, flash, kind, a, port) == Outcome(s, flash, a.status)
  {
  }

  /** After an attempt the App's own confirmation is accepted exactly when a slot is free. */
  lemma ConfirmIsTaken(s: Service, flash: Flash, port: Port)
    requires Works(port) && s.initialized && JR.Invariant(Readings(flash.journal))
    requires var b := Summarise(flash.journal).boot;
      b.metadataValid && b.attemptCount > 0 && !b.appConfirmed
    ensures var b := Summarise(flash.journal).boot;
      var o := ConfirmJournal(s, flash, None, port);
      && (o.status == OK <==> FreeSlots(flash.journal) > 0)
      && (o.status == OK ==>
            && o.flash.app == flash.app && b.latestSequence < LAST_SEQUENCE
            && Summarise(o.flash.journal).boot == ServiceAnswers.AfterConfirm(b))
  {
    hide Summarise, Perform, Commit, AdmitConfirm, ConfirmWritten, JR.Invariant, FirstBlank, FreeSlots,
         ServiceAnswers.AfterConfirm;
    var j, a := flash.journal, AdmitConfirm(Summarise(flash.journal), None);
    var none := Identity(0, 0, 0);
    FreeMeansSlot(j);
    ServiceAnswers.ConfirmExactly(j, None);
    ServiceAnswers.RefusalsAreErrors(Summarise(j), ImageRequest(none, 0, 0, 0, 0, 0, 0, 0), none, None);
    if a.Write? {
      ConfirmRescanSucceeds(j, None);
      Committed(s, flash, ConfirmAppend, a, port);
    } else {
      RefusedCommit(s, flash, ConfirmAppend, a, port);
    }
  }

  /** A trusted, attempted and confirmed image with an App entry point boots by itself. */
  lemma ConfirmedBoots(j: Slots)
    requires var b := Summarise(j).boot;
      b.metadataValid && b.appConfirmed && b.attemptCount > 0 && AppEntry(b.entryPoint)
    ensures PreviewAutoBootDecision(Summarise(j)) == RunConfirmedApp
  {
  }

  // ---------------------------------------------------------------- attempt, run, confirm

  /** BOOT_ATTEMPT and RUN by the PC, then the confirmation by the App that was started;
      stops at the first refusal. */
  function TryAndConfirm(s: Service, flash: Flash, id: Identity, port: Port): Outcome {
    var attempted := AppendRecord(s, flash, AttemptRequest(id), port);
    if attempted.status != OK then attempted
    else
      var run := HandleRun(Summarise(attempted.flash.journal), RunRequest(id.entryPoint));
      if run != OK then Outcome(attempted.service, attempted.flash, run)
      else ConfirmJournal(attempted.service, attempted.flash, None, port)
  }

  lemma FreshImageIsConfirmed(s: Service, flash: Flash, id: Identity, port: Port)
    requires Works(port) && s.initialized && JR.Invariant(Readings(flash.journal))
    requires Trusts(Summarise(flash.journal).boot, id) && AppEntry(id.entryPoint)
    ensures var o := TryAndConfirm(s, flash, id, port);
      && (o.status == OK <==> FreeSlots(flash.journal) >= 2)
      && (o.status == OK ==>
            && o.flash.app == flash.app
            && IdentityOf(Summarise(o.flash.journal).boot) == id
            && PreviewAutoBootDecision(Summarise(o.flash.journal)) == RunConfirmedApp)
  {
    hide Summarise, AppendRecord, ConfirmJournal, AttemptRequest, RunRequest, HandleRun, PreviewAutoBootDecision,
         JR.Invariant, FreeSlots, AppEntry;
    AttemptIsTaken(s, flash, id, port);
    var attempted := AppendRecord(s, flash, AttemptRequest(id), port);
    if attempted.status == OK {
      ConfirmIsTaken(attempted.service, attempted.flash, port);
      var o := ConfirmJournal(attempted.service, attempted.flash, None, port);
      if o.status == OK {
        ConfirmedBoots(o.flash.journal);
      }
    }
  }

  // ---------------------------------------------------------------- the whole life cycle

  /** Upgrade, attempt, run, confirm; stops at the first refusal. */
  function Live(s: Service, flash: Flash, mask: U32, ps: seq<Packet>, entry: U32, port: Port): Outcome
    requires Encodable(ps)
  {
    var upgraded := Dfu(s, flash, mask, ps, entry, port);
    if upgraded.status != OK then upgraded
    else TryAndConfirm(upgraded.service, upgraded.flash, PacketsIdentity(entry, ps), port)
  }

  /** From any state a device can reach, on a working port: upgrading to an image, trying
      it, and the App's confirmation all answer OK exactly when every merged block fits the
      sectors and the erase leaves three free journal slots. Then Flash holds every padded
      word of the image, the journal trusts the identity the PC computed from them, and
      the automatic decision is to run that App. */
  lemma UpgradedAppBoots(app: AppArea, run: seq<ServiceRuns.Event>, image: FirmwareImage, mask: U32, port: Port)
    requires Ready(ServiceRuns.After(app, run), image, mask) && ServiceAnswers.Works(port)
    ensures var t := ServiceRuns.After(app, run);
      var ps := PacketsOfImage(image, t.service.maxDataWords);
      var o := Live(t.service, t.flash, mask, ps, image.entryPoint, port);
      && (o.status == OK <==>
            && AllBlocksFit(MergedBlocks(image), t.service.maxDataWords)
            && SlotsAfterErase(t.flash.journal, mask) >= 3)
      && (o.status == OK ==>
            && AllPlaced(ps) && AllHeld(o.flash, ps)
            && IdentityOf(Summarise(o.flash.journal).boot) == PacketsIdentity(image.entryPoint, ps)
            && PreviewAutoBootDecision(Summarise(o.flash.journal)) == RunConfirmedApp)
  {
    hide ServiceRuns.After, PacketsOfImage, MergedBlocks, AllBlocksFit, AllSized, AllPlaced, AllHeld, Trusts, Summarise,
         Dfu, TryAndConfirm, JR.Invariant, FreeSlots, SlotsAfterErase, PreviewAutoBootDecision, AppEntry, MaskCovers,
         AllErased, MaxEnd, Carried;
    var t := ServiceRuns.After(app, run);
    var ps := PacketsOfImage(image, t.service.maxDataWords);
    UpgradeSucceeds(app, run, image, mask, port);
    var upgraded := Dfu(t.service, t.flash, mask, ps, image.entryPoint, port);
    if upgraded.status == OK {
      var id := PacketsIdentity(image.entryPoint, ps);
      FreshImageIsConfirmed(upgraded.service, upgraded.flash, id, port);
      var o := TryAndConfirm(upgraded.service, upgraded.flash, id, port);
      if o.status == OK {
        HeldByApp(upgraded.flash, o.flash, ps);
      }
    }
  }
}
