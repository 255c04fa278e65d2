/** What is decided on a summary: automatic boot and explicit RUN. */
module Policy {
  import opened Words
  import opened Protocol
  import opened Record
  import opened Scan

  datatype AutoBootDecision =
    | StayNoImage
    | StayMetadataInvalid
    | StayBadEntry
    | StayFirstTrialRequiresPcRun
    | StayWaitAppConfirm
    | RunConfirmedApp

  predicate ValidAutoBootEntry(entryPoint: U32) {
    APP_START <= entryPoint < APP_END && entryPoint % 8 == 0
  }

  function PreviewAutoBootDecision(s: Summary): AutoBootDecision {
    if s.state.JournalEmpty? then StayNoImage
    else if !s.boot.metadataValid || !s.boot.hasImageValid then StayMetadataInvalid
    else if !ValidAutoBootEntry(s.boot.entryPoint) then StayBadEntry
    else if s.boot.attemptCount == 0 then StayFirstTrialRequiresPcRun
    else if !s.boot.appConfirmed then StayWaitAppConfirm
    else RunConfirmedApp
  }

  predicate IsConfirmedBootable(s: Summary) {
    PreviewAutoBootDecision(s) == RunConfirmedApp
  }

  /** The answer to a RUN command, on the summary of the journal. */
  function HandleRun(s: Summary, p: Payload): Status {
    if |p| != 4 then BAD_PAYLOAD_LENGTH
    else if p[0] != TARGET_FLASH_APP then TARGET_MISMATCH
    else RunStatus(s, Join(p[1], p[2]))
  }

  /** The status of an explicit RUN of `entryPoint`; the App starts when it is OK. */
  function RunStatus(s: Summary, entryPoint: U32): Status {
    if entryPoint % 8 != 0 then BAD_ALIGNMENT
    else if !s.boot.metadataValid || s.boot.entryPoint != entryPoint then METADATA_INVALID
    else if !s.boot.appConfirmed && (s.boot.attemptCount == 0 || s.boot.attemptCount > s.boot.attemptLimit) then
      if s.boot.attemptCount > s.boot.attemptLimit then ATTEMPT_LIMIT_REACHED else INVALID_STATE
    else OK
  }

  /** RUN starts the App exactly for four words that name Flash and the aligned entry
      point of the trusted image, once it was confirmed or has an attempt within its
      limit; the words p[1] and p[2] hold the address, p[3] is not looked at. */
  lemma RunExactly(s: Summary, p: Payload)
    ensures var b, answer := s.boot, HandleRun(s, p);
      var named := |p| == 4 && p[0] == 1 && p[1] % 8 == 0 && b.metadataValid && b.entryPoint == Join(p[1], p[2]);
      && (answer == 0 <==>
            && |p| == 4 && p[0] == 1 && p[1] % 8 == 0
            && b.metadataValid && b.entryPoint == Join(p[1], p[2])
            && (b.appConfirmed || 1 <= b.attemptCount <= b.attemptLimit))
      && (answer == 0x0106 <==> |p| != 4)
      && (answer == 0x0803 <==> |p| == 4 && p[0] != 1)
      && (answer == 0x0303 <==> |p| == 4 && p[0] == 1 && p[1] % 8 != 0)
      && (answer == 0x0804 <==>
            |p| == 4 && p[0] == 1 && p[1] % 8 == 0 && (!b.metadataValid || b.entryPoint != Join(p[1], p[2])))
      && (answer == 0x0807 <==> named && !b.appConfirmed && b.attemptCount > b.attemptLimit)
      && (answer == 0x0203 <==> named && !b.appConfirmed && b.attemptCount == 0)
  {
    if |p| == 4 {
      AlignmentIsLow(p[1], p[2]);
    }
  }

  /** The image can be started: trusted, with an aligned entry point in the App area. */
  predicate Startable(b: BootView) {
    b.metadataValid && b.hasImageValid && 0x08_2400 <= b.entryPoint < 0x0C_0000 && b.entryPoint % 8 == 0
  }

  /** The automatic decision: the confirmed App is started exactly for a trusted, attempted
      and confirmed image with an aligned entry point in the App area; and when which of the
      other decisions is taken. */
  lemma AutoBootExactly(s: Summary)
    ensures var b, empty := s.boot, s.state == JournalEmpty;
      var trusted := b.metadataValid && b.hasImageValid;
      && (PreviewAutoBootDecision(s) == StayNoImage <==> empty)
      && (PreviewAutoBootDecision(s) == StayMetadataInvalid <==> !empty && !trusted)
      && (PreviewAutoBootDecision(s) == StayBadEntry <==> !empty && trusted && !Startable(b))
      && (PreviewAutoBootDecision(s) == StayFirstTrialRequiresPcRun <==>
            !empty && Startable(b) && b.attemptCount == 0)
      && (PreviewAutoBootDecision(s) == StayWaitAppConfirm <==>
            !empty && Startable(b) && b.attemptCount > 0 && !b.appConfirmed)
      && (PreviewAutoBootDecision(s) == RunConfirmedApp <==>
            !empty && Startable(b) && b.attemptCount > 0 && b.appConfirmed)
  {
  }
}
