/** What a run of the Flash Service does to the journal is a run of the journal, so
    everything proved of journal runs holds of the device. */
module ServiceJournal {
  import opened Words
  import opened Protocol
  import opened Record
  import opened Scan
  import opened Crash
  import opened Journal
  import opened Rescan
  import opened Policy
  import JR = JournalRuns
  import opened FlashPort
  import opened ServiceSpec
  import opened ServiceRuns

  /** The journal event of an ERASE: sector B holds the journal. */
  function EraseEvent(s: Service, p: Payload, port: Port): JR.JournalEvent {
    if |p| == 3 && p[2] == 0 && Join(p[0], p[1]) != 0 && FlashReady(s, port) &&
       MaskAllowed(Join(p[0], p[1])) && Selected(Join(p[0], p[1]), 1) && port.stop > 1
    then JR.EraseSector else JR.Unrelated
  }

  function ConfirmEvent(s: Service, expected: Option<Identity>, port: Port): JR.JournalEvent {
    if s.initialized && FlashReady(s, port) then JR.AppendConfirm(expected, Cut(port)) else JR.Unrelated
  }

  function AppendEvent(s: Service, p: Payload, port: Port): JR.JournalEvent {
    if !FlashReady(s, port) then JR.Unrelated
    else if |p| == 16 && p[0] == BOOT_ATTEMPT then
      if BoundPayloadStatus(p) == OK then JR.AppendAttempt(RequestIdentity(p), Cut(port)) else JR.Unrelated
    else if |p| == 16 && p[0] == APP_CONFIRMED then
      if BoundPayloadStatus(p) == OK then ConfirmEvent(s, Some(RequestIdentity(p)), port) else JR.Unrelated
    else if ImagePayloadStatus(s, p) == OK then JR.AppendImage(RequestedImage(s, p), Cut(port))
    else JR.Unrelated
  }

  function CommandEvent(s: Service, r: Request, port: Port): JR.JournalEvent {
    if !s.initialized then JR.Unrelated
    else if r.command == CMD_ERASE then EraseEvent(s, r.payload, port)
    else if r.command == CMD_METADATA_APPEND_RECORD then AppendEvent(s, r.payload, port)
    else JR.Unrelated
  }

  function JournalEventOf(s: Service, ev: Event): JR.JournalEvent {
    match ev
    case Boot(_, _, _) => JR.Unrelated
    case Command(r, port) => CommandEvent(s, r, port)
    case AppConfirm(port) => ConfirmEvent(s, None, port)
    case LostCommand(r, port) => CommandEvent(s, r, port)
    case LostConfirm(port) => ConfirmEvent(s, None, port)
  }

  lemma CommitJournal(s: Service, flash: Flash, kind: AppendKind, a: Admission, port: Port)
    ensures Commit(s, flash, kind, a, port).flash.journal ==
            if FlashReady(s, port) then Perform(flash.journal, a, Cut(port)) else flash.journal
  {
  }

  lemma ConfirmJournalEvent(s: Service, flash: Flash, expected: Option<Identity>, port: Port)
    ensures ConfirmJournal(s, flash, expected, port).flash.journal ==
            JR.Apply(flash.journal, ConfirmEvent(s, expected, port))
  {
    CommitJournal(s, flash, ConfirmAppend, AdmitConfirm(Summarise(flash.journal), expected), port);
  }

  lemma AppendJournalEvent(s: Service, flash: Flash, p: Payload, port: Port)
    ensures AppendRecord(s, flash, p, port).flash.journal == JR.Apply(flash.journal, AppendEvent(s, p, port))
  {
    if |p| == 16 && p[0] == BOOT_ATTEMPT {
      CommitJournal(s, flash, AttemptAppend, AdmitAttempt(Summarise(flash.journal), RequestIdentity(p)), port);
    } else if |p| == 16 && p[0] == APP_CONFIRMED {
      ConfirmJournalEvent(s, flash, Some(RequestIdentity(p)), port);
    } else if ImagePayloadStatus(s, p) == OK {
      CommitJournal(s, flash, ImageAppend, AdmitImage(Summarise(flash.journal), RequestedImage(s, p)), port);
    }
  }

  lemma EraseJournalEvent(s: Service, flash: Flash, p: Payload, port: Port)
    ensures Erase(s, flash, p, port).flash.journal == JR.Apply(flash.journal, EraseEvent(s, p, port))
  {
  }

  lemma DataKeepsJournal(s: Service, flash: Flash, kind: SessionKind, p: Payload, port: Port)
    ensures Data(s, flash, kind, p, port).flash.journal == flash.journal
  {
  }

  lemma CommandJournalEvent(s: Service, flash: Flash, r: Request, port: Port)
    ensures HandleCommand(s, flash, r, port).flash.journal == JR.Apply(flash.journal, CommandEvent(s, r, port))
  {
    var o := HandleCommand(s, flash, r, port);
    if !s.initialized {
    } else if r.command == CMD_ERASE {
      EraseJournalEvent(s, flash, r.payload, port);
    } else if r.command == CMD_PROGRAM_DATA {
      DataKeepsJournal(s, flash, ProgramSession, r.payload, port);
    } else if r.command == CMD_VERIFY_DATA {
      DataKeepsJournal(s, flash, VerifySession, r.payload, port);
    } else if r.command == CMD_METADATA_APPEND_RECORD {
      AppendJournalEvent(s, flash, r.payload, port);
    } else {
      assert o.flash == flash;
    }
  }

  lemma StepJournalEvent(t: Tracked, ev: Event)
    ensures Step(t, ev).flash.journal == JR.Apply(t.flash.journal, JournalEventOf(t.service, ev))
  {
    match ev
    case Boot(_, _, _) =>
    case Command(r, port) => CommandJournalEvent(t.service, t.flash, r, port);
    case AppConfirm(port) => ConfirmJournalEvent(t.service, t.flash, None, port);
    case LostCommand(r, port) => CommandJournalEvent(t.service, t.flash, r, port);
    case LostConfirm(port) => ConfirmJournalEvent(t.service, t.flash, None, port);
  }

  /** The journal events of a service run. */
  function JournalRun(app: AppArea, run: seq<Event>): seq<JR.JournalEvent> {
    if run == [] then []
    else
      var before := run[..|run| - 1];
      JournalRun(app, before) + [JournalEventOf(ServiceRuns.After(app, before).service, run[|run| - 1])]
  }

  lemma {:induction false} ServiceRunIsJournalRun(app: AppArea, run: seq<Event>)
    ensures ServiceRuns.After(app, run).flash.journal == JR.After(JournalRun(app, run))
  {
    if run == [] {
    } else {
      var before := run[..|run| - 1];
      ServiceRunIsJournalRun(app, before);
      StepJournalEvent(ServiceRuns.After(app, before), run[|run| - 1]);
      var events := JournalRun(app, run);
      assert events[..|events| - 1] == JournalRun(app, before);
    }
  }

  /** On the device: slots fill from the front, records are numbered in order, no scan
      reports a repeated number, the attempt limit holds, and a confirmed image was
      attempted. */
  lemma DeviceKeepsJournal(app: AppArea, run: seq<Event>)
    ensures var j := ServiceRuns.After(app, run).flash.journal;
      var s := Summarise(j);
      && JR.Prefix(Readings(j)) && JR.Numbered(Entries(Readings(j)))
      && !s.state.DuplicateSequence?
      && s.boot.latestSequence == s.slots.validCount <= RECORD_COUNT
      && s.boot.attemptCount <= s.boot.attemptLimit <= ATTEMPT_LIMIT
      && (s.boot.appConfirmed ==> s.boot.attemptCount >= 1)
      && (IsConfirmedBootable(s) <==> s.boot.metadataValid && s.boot.appConfirmed)
      && PreviewAutoBootDecision(s) != StayBadEntry
  {
    ServiceRunIsJournalRun(app, run);
    JR.RunsNumberRecords(JournalRun(app, run));
    JR.RunsObeyBootPolicy(JournalRun(app, run));
  }

  lemma CommitSucceeds(s: Service, flash: Flash, kind: AppendKind, a: Admission, port: Port)
    requires port.initOk && port.callOk
    requires a.Write? ==> PassesRescan(kind, a.entry, Summarise(flash.journal),
                                       Summarise(Perform(flash.journal, a, RECORD_WORDS)))
    ensures Commit(s, flash, kind, a, port).status == if a.Refused? then a.status else OK
  {
  }

  lemma AttemptPassesRescan(app: AppArea, run: seq<Event>, id: Identity, port: Port)
    requires port.initOk && port.callOk
    ensures var t := ServiceRuns.After(app, run);
      Commit(t.service, t.flash, AttemptAppend, AdmitAttempt(Summarise(t.flash.journal), id), port).status
        != METADATA_WRITE_FAILED
  {
    var t := ServiceRuns.After(app, run);
    DeviceKeepsJournal(app, run);
    var a := AdmitAttempt(Summarise(t.flash.journal), id);
    if a.Write? {
      AttemptRescanSucceeds(t.flash.journal, id);
    }
    CommitSucceeds(t.service, t.flash, AttemptAppend, a, port);
  }

  lemma ConfirmPassesRescan(app: AppArea, run: seq<Event>, expected: Option<Identity>, port: Port)
    requires port.initOk && port.callOk
    ensures var t := ServiceRuns.After(app, run);
      ConfirmJournal(t.service, t.flash, expected, port).status != METADATA_WRITE_FAILED
  {
    var t := ServiceRuns.After(app, run);
    DeviceKeepsJournal(app, run);
    var a := AdmitConfirm(Summarise(t.flash.journal), expected);
    if a.Write? {
      ConfirmRescanSucceeds(t.flash.journal, expected);
    }
    CommitSucceeds(t.service, t.flash, ConfirmAppend, a, port);
  }

  lemma ImagePassesRescan(app: AppArea, run: seq<Event>, r: ImageRequest, port: Port)
    requires port.initOk && port.callOk
    ensures var t := ServiceRuns.After(app, run);
      Commit(t.service, t.flash, ImageAppend, AdmitImage(Summarise(t.flash.journal), r), port).status
        != METADATA_WRITE_FAILED
  {
    var t := ServiceRuns.After(app, run);
    DeviceKeepsJournal(app, run);
    var a := AdmitImage(Summarise(t.flash.journal), r);
    if a.Write? {
      ImageRescanSucceeds(t.flash.journal, r);
    }
    CommitSucceeds(t.service, t.flash, ImageAppend, a, port);
  }

  /** On the device, an append whose port calls succeed never reports that its record
      could not be written: the scan after the write always finds it. */
  lemma AppendsPassTheirRescan(app: AppArea, run: seq<Event>, p: Payload, port: Port)
    requires port.initOk && port.callOk
    ensures var t := ServiceRuns.After(app, run);
      && AppendRecord(t.service, t.flash, p, port).status != METADATA_WRITE_FAILED
      && ConfirmJournal(t.service, t.flash, None, port).status != METADATA_WRITE_FAILED
  {
    hide Commit, Summarise, ServiceRuns.After;
    ConfirmPassesRescan(app, run, None, port);
    if |p| == 16 && p[0] == BOOT_ATTEMPT {
      AttemptPassesRescan(app, run, RequestIdentity(p), port);
    } else if |p| == 16 && p[0] == APP_CONFIRMED {
      ConfirmPassesRescan(app, run, Some(RequestIdentity(p)), port);
    } else if |p| == 16 {
      ImagePassesRescan(app, run, RequestedImage(ServiceRuns.After(app, run).service, p), port);
    }
  }

  /** Directly after a BOOT_ATTEMPT append that answers OK, RUN of the journal's entry
      point is accepted. */
  lemma RunFollowsAttempt(app: AppArea, run: seq<Event>, p: Payload, port: Port)
    requires |p| == 16 && p[0] == BOOT_ATTEMPT
    ensures var t := ServiceRuns.After(app, run);
      var o := AppendRecord(t.service, t.flash, p, port);
      o.status == OK ==> RunStatus(Summarise(o.flash.journal), Summarise(t.flash.journal).boot.entryPoint) == OK
  {
    var t := ServiceRuns.After(app, run);
    var o := AppendRecord(t.service, t.flash, p, port);
    DeviceKeepsJournal(app, run);
    if o.status == OK {
      var a := AdmitAttempt(Summarise(t.flash.journal), RequestIdentity(p));
      assert o == Commit(t.service, t.flash, AttemptAppend, a, port);
      JR.RunAcceptedAfterAttempt(t.flash.journal, RequestIdentity(p));
      CommitJournal(t.service, t.flash, AttemptAppend, a, port);
      assert a.Write? ==> Cut(port) == RECORD_WORDS;
    }
  }

  /** An image the device boots by itself was made valid, then attempted, then confirmed,
      all three records of one identity and in this order. */
  lemma DeviceBootHasHistory(app: AppArea, run: seq<Event>) returns (image: Entry, attempt: Entry, confirm: Entry)
    requires IsConfirmedBootable(Summarise(ServiceRuns.After(app, run).flash.journal))
    ensures var j := ServiceRuns.After(app, run).flash.journal;
      JR.BootHistory(Entries(Readings(j)), Summarise(j).boot, image, attempt, confirm)
  {
    ServiceRunIsJournalRun(app, run);
    image, attempt, confirm := JR.AutoBootHasHistory(JournalRun(app, run));
  }

  /** No RUN on the device is ever refused because the attempt limit was exceeded. */
  lemma DeviceNeverExceedsLimit(app: AppArea, run: seq<Event>, entryPoint: U32)
    ensures RunStatus(Summarise(ServiceRuns.After(app, run).flash.journal), entryPoint) != ATTEMPT_LIMIT_REACHED
  {
    ServiceRunIsJournalRun(app, run);
    JR.RunsObeyBootPolicy(JournalRun(app, run));
  }
}
