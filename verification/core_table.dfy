/** The RAM commands of the boot core in numbers: which answer belongs to which request and
    state, and what each command leaves in the core. */
module CoreTable {
  import opened Words
  import opened Crc
  import opened Protocol
  import opened Blocks
  import opened RamMap
  import opened CoreSpec
  import CoreRuns
  import CoreAnswers

  /** The write regions. */
  lemma RegionsInNumbers(address: U32, count: U32)
    requires count < 0x1_0000
    ensures IsInWriteRegion(address, count) <==>
      && count > 0
      && var end := address + count;
      || end <= 0x2
      || (0x123 <= address && end <= 0x400)
      || (0x8000 <= address && end <= 0xC000)
      || (0x1_0000 <= address && end <= 0x1_BFF8)
      || (0x3_F800 <= address && end <= 0x4_0000)
      || (0x4_9000 <= address && end <= 0x4_9800)
      || (0x4_B000 <= address && end <= 0x4_B800)
  {
  }

  // ---------------------------------------------------------------- RAM_LOAD

  /** RAM_LOAD_BEGIN: the answers, and the load that an accepted one opens. */
  lemma BeginAnswers(c: Core, ram: Ram, p: Payload)
    ensures var o := LoadBegin(c, ram, p);
      && (o.status == 0x0106 <==> |p| != 9)
      && (o.status == 0x0204 <==> |p| == 9 && c.load.active)
      && (o.status == 0x0803 <==> |p| == 9 && !c.load.active && p[0] != 2)
      && (o.status == 0x0304 <==>
            |p| == 9 && !c.load.active && p[0] == 2 && (p[1] == 0 || (p[2] == 0 && p[3] == 0)))
      && (o.status == 0x0703 <==>
            && |p| == 9 && !c.load.active && p[0] == 2 && p[1] != 0 && (p[2] != 0 || p[3] != 0)
            && !IsInWriteRegion(Join(p[4], p[5]), 1))
      && (o.status == 0 || o.status == 0x0106 || o.status == 0x0204 || o.status == 0x0803 || o.status == 0x0304 ||
          o.status == 0x0703)
      && (o.status == 0 ==>
            && o.core.load.active && o.core.load.target == 2
            && o.core.load.expectedPackets == p[1] && o.core.load.expectedWords == Join(p[2], p[3])
            && o.core.load.processedPackets == 0 && o.core.load.processedWords == 0 && o.core.load.expectedBlock == 0
            && o.core.load.entryPoint == Join(p[4], p[5])
            && o.core.load.loadedStart == 0xFFFF_FFFF && o.core.load.loadedEnd == 0
            && o.core.load.crc32 == 0xFFFF_FFFF && !o.core.load.imageReady && !o.core.load.crcChecked
            && o.core.service == c.service)
      && (o.status != 0 ==> o.core == c)
      && o.ram == ram
  {
    hide IsInWriteRegion;
  }

  /** The range touches the window of the service. */
  predicate TouchesWindow(address: int, count: nat) {
    count > 0 && address < 0x01_6000 && address + count > 0x01_3000
  }

  /** Nothing is loaded and none is in progress. */
  predicate NothingLoaded(load: RamLoad) {
    && !load.active && !load.imageReady && !load.crcChecked && load.target == 0
    && load.expectedPackets == load.processedPackets == 0 && load.expectedWords == load.processedWords == 0
    && load.expectedBlock == 0 && load.entryPoint == 0 && load.loadedStart == 0 && load.loadedEnd == 0
    && load.crc32 == 0xFFFF_FFFF
  }

  /** The service was let go: no handler, not active, detached; what was loaded last and
      how the last attach went is remembered. */
  predicate LetGo(before: Service, after: Service) {
    && after.handler.None? && !after.active && after.state.Detached? && after.capabilities == 0
    && after.lastAttachStatus == before.lastAttachStatus
    && after.loadedCrc32 == before.loadedCrc32 && after.loadedWords == before.loadedWords
  }

  /** RAM_LOAD_DATA after every run: the answers; a refused block ends the load; a block
      that passes the checks lets an overlapped service go, even when its range is then
      refused. */
  lemma DataAnswers(ram: Ram, init: Init, run: seq<CoreRuns.Event>, p: Payload)
    requires |p| >= 5
    ensures var t := CoreRuns.After(ram, init, run);
      var load, o, address := t.core.load, LoadData(t.core, t.ram, p), Join(p[0], p[1]);
      var fits := |p| == 5 + p[2] as int && p[2] != 0;
      var next := Join(p[3], p[4]) == |t.blocks|;
      var counted := |t.blocks| < load.expectedPackets && |WordsOf(t.blocks)| + |p| - 5 <= load.expectedWords;
      && (o.status == 0x0205 <==> !load.active)
      && (o.status == 0x0106 <==> load.active && |p| != 5 + p[2] as int)
      && (o.status == 0x0304 <==> load.active && |p| == 5 && p[2] == 0)
      && (o.status == 0x0207 <==> load.active && fits && !next)
      && (o.status == 0x0208 <==> load.active && fits && next && !counted)
      && (o.status == 0x0703 <==> load.active && fits && next && counted && !IsInWriteRegion(address, |p| - 5))
      && (o.status == 0x0205 ==> o.core == t.core && o.ram == t.ram)
      && (o.status != 0 && o.status != 0x0205 ==> NothingLoaded(o.core.load))
      && (if (o.status == 0 || o.status == 0x0703) && TouchesWindow(address, |p| - 5) then
            LetGo(t.core.service, o.core.service) && !Published(o.ram)
          else o.core.service == t.core.service)
  {
    hide IsInWriteRegion, CoreRuns.After, Crc32Fold, Crc32Of, WordsOf, InOrder, LoadWrite, LoadDataStatus, AdvanceLoad,
         Join, TouchesWindow, OverlapsWindow, Published;
    var t := CoreRuns.After(ram, init, run);
    CoreRuns.RunsKeepLoad(ram, init, run);
    StatusOfData(t.core.load, p);
    var address, data := Join(p[0], p[1]), p[5..];
    if 0 < |data| {
      WindowInNumbers(address, |data|);
      if OverlapsWindow(address, |data|) {
        CoreAnswers.WindowWriteUnpublishes(t.ram, address, data);
      }
    }
  }

  /** A data command without its five leading words ends the load. */
  lemma ShortDataAnswers(c: Core, ram: Ram, p: Payload)
    requires |p| < 5
    ensures var o := LoadData(c, ram, p);
      && o.status == (if c.load.active then 0x0106 else 0x0205)
      && (if c.load.active then NothingLoaded(o.core.load) else o.core.load == c.load)
      && o.core.service == c.service && o.ram == ram
  {
  }

  lemma WindowInNumbers(address: U32, count: U32)
    requires 0 < count < 0x1_0000
    ensures OverlapsWindow(address, count) <==> TouchesWindow(address, count)
  {
  }

  /** The checks in front of a block. */
  lemma StatusOfData(load: RamLoad, p: Payload)
    requires |p| >= 5 && (load.active ==> load.processedWords <= load.expectedWords)
    ensures var status := LoadDataStatus(load, p);
      var fits := |p| == 5 + p[2] as int && p[2] != 0;
      var next := Join(p[3], p[4]) == load.expectedBlock;
      var counted := load.processedPackets < load.expectedPackets && load.processedWords + |p| - 5 <= load.expectedWords;
      && (status == 0x0205 <==> !load.active)
      && (status == 0x0106 <==> load.active && |p| != 5 + p[2] as int)
      && (status == 0x0304 <==> load.active && |p| == 5 && p[2] == 0)
      && (status == 0x0207 <==> load.active && fits && !next)
      && (status == 0x0208 <==> load.active && fits && next && !counted)
      && (status == 0 <==> load.active && fits && next && counted)
  {
    hide Join;
    assert p[2] <= 251 ==> (5 + p[2] as int) % 0x1_0000 == 5 + p[2] as int;
    assert load.active ==>
      (load.expectedWords - load.processedWords) % 0x1_0000_0000 == load.expectedWords - load.processedWords;
  }

  /** What a completed load keeps of the open one. */
  predicate Completes(before: RamLoad, after: RamLoad) {
    && !after.active && after.imageReady && !after.crcChecked && after.crc32 == Crc32Finalize(before.crc32)
    && after.expectedPackets == before.expectedPackets && after.processedPackets == before.processedPackets
    && after.expectedWords == before.expectedWords && after.processedWords == before.processedWords
    && after.entryPoint == before.entryPoint && after.target == before.target
    && after.loadedStart == before.loadedStart && after.loadedEnd == before.loadedEnd
  }

  /** RAM_LOAD_END: the answers and what is left. */
  lemma EndAnswers(c: Core, ram: Ram, p: Payload)
    ensures var o := LoadEnd(c, ram, p);
      && (o.status == 0x0205 <==> !c.load.active)
      && (o.status == 0x0106 <==> c.load.active && |p| != 6)
      && (o.status == 0 || o.status == 0x0205 || o.status == 0x0106 || o.status == 0x0208)
      && (o.status == 0x0205 ==> o.core.load == c.load)
      && (o.status == 0x0106 || o.status == 0x0208 ==> NothingLoaded(o.core.load))
      && (o.status == 0 ==> Completes(c.load, o.core.load))
      && o.core.service == c.service && o.ram == ram
  {
  }

  /** RAM_CHECK_CRC: the answers; a well-formed one over a completed load decides whether
      the image counts as checked. */
  lemma CheckAnswers(c: Core, ram: Ram, p: Payload)
    ensures var o := CheckCrc(c, ram, p);
      && (o.status == 0x0106 <==> |p| != 5)
      && (o.status == 0x0109 <==> |p| == 5 && p[4] != 0)
      && (o.status == 0x0203 <==> |p| == 5 && p[4] == 0 && !c.load.imageReady)
      && (o.status == 0x0602 <==>
            && |p| == 5 && p[4] == 0 && c.load.imageReady
            && (Join(p[0], p[1]) != c.load.crc32 || Join(p[2], p[3]) != c.load.expectedWords))
      && (o.status == 0 || o.status == 0x0106 || o.status == 0x0109 || o.status == 0x0203 || o.status == 0x0602)
      && (o.status == 0 ==> o.core.load == c.load.(crcChecked := true))
      && (o.status == 0x0602 ==> o.core.load == c.load.(crcChecked := false))
      && (o.status != 0 && o.status != 0x0602 ==> o.core.load == c.load)
      && o.core.service == c.service && o.ram == ram
  {
  }

  // ---------------------------------------------------------------- validation and attaching

  /** The header names itself and carries its own CRC. */
  predicate Identified(h: seq<Word>)
    requires |h| == HEADER_WORDS
  {
    h[0] == 0x4832 && h[1] == 0x4653 && h[2] == 1 && h[3] == 28 && Crc32Of(h[..26]) == Join(h[26], h[27])
  }

  predicate Supported(h: seq<Word>)
    requires |h| == HEADER_WORDS
  {
    h[4] == 2 && h[5] == 0 && h[22] == 1
  }

  predicate Placed(h: seq<Word>)
    requires |h| == HEADER_WORDS
  {
    && Join(h[10], h[11]) == 0x01_3020 && Join(h[12], h[13]) == 0x01_3022 && Join(h[14], h[15]) == 0x01_3080
    && Join(h[6], h[7]) == 0x01_3080
  }

  /** The immutable range ends in RAM and holds the three entry points. */
  predicate InRange(ram: Ram, h: seq<Word>)
    requires |h| == HEADER_WORDS
  {
    var end := Join(h[8], h[9]);
    && 0x01_3080 < end <= 0x01_BFF8
    && 0x01_3080 <= Join(h[16], h[17]) < end && 0x01_3080 <= Join(h[18], h[19]) < end
    && 0x01_3080 <= Join(ram[0x01_3080], ram[0x01_3081]) < end
  }

  /** The answers of the validation, one for each group of checks, the first that fails. */
  lemma ValidationAnswers(ram: Ram)
    ensures var h, status := Header(ram), ValidationStatus(ram);
      && (status == 0x0804 <==> !Identified(h) || (Supported(h) && !Placed(h)))
      && (status == 0x0104 <==> Identified(h) && !Supported(h))
      && (status == 0x0703 <==> Identified(h) && Supported(h) && Placed(h) && !InRange(ram, h))
      && (status == 0x0801 <==>
            Identified(h) && Supported(h) && Placed(h) && InRange(ram, h) && h[20] % 16 != 15)
      && (status == 0x0602 <==>
            && Identified(h) && Supported(h) && Placed(h) && InRange(ram, h) && h[20] % 16 == 15
            && Crc32Of(ram[0x01_3080..Join(h[8], h[9])]) != Join(h[24], h[25]))
      && (status == 0 || status == 0x0804 || status == 0x0104 || status == 0x0703 || status == 0x0801 || status == 0x0602)
  {
    hide Crc32Of, Header, CapabilitiesComplete, RangesValid, IsInWriteRegion, Join, Identified, InRange,
         ConfirmPointerValid;
    var h := Header(ram);
    IdentifiedMeans(h);
    CoreAnswers.CapabilityBits(h);
    if Placed(h) {
      InRangeMeans(ram, h);
    }
  }

  lemma IdentifiedMeans(h: seq<Word>)
    requires |h| == HEADER_WORDS
    ensures HeaderIntact(h) <==> Identified(h)
  {
    hide Crc32Of, Join;
    CoreAnswers.MagicWords(h);
  }

  lemma InRangeMeans(ram: Ram, h: seq<Word>)
    requires |h| == HEADER_WORDS && Placed(h)
    ensures RangesValid(h) && ConfirmPointerValid(ram, Field(h, 6), Field(h, 8)) <==> InRange(ram, h)
  {
    hide Join, IsInWriteRegion;
    CoreAnswers.RangesMean(h);
  }

  /** The service that an accepted attach installs: the command entry of the header, its
      capabilities, and the CRC and size of the image that was loaded. */
  predicate Installed(service: Service, ram: Ram, load: RamLoad) {
    && service.active && service.state.Attached? && service.lastAttachStatus == 0
    && service.handler == Some(Join(ram[0x01_3012], ram[0x01_3013]))
    && service.capabilities == Join(ram[0x01_3014], ram[0x01_3015])
    && service.loadedCrc32 == load.crc32 && service.loadedWords == load.expectedWords
  }

  /** SERVICE_ATTACH: the answers to the request itself, and what is left: an accepted one
      installs the service found in RAM, a refused one notes its status and is an error
      only for a core without a service. */
  lemma AttachAnswers(c: Core, ram: Ram, p: Payload, init: Init)
    ensures var o, status := Attach(c, ram, p, init), AttachStatus(c.load, p);
      && (status == 0x0106 <==> |p| != 7)
      && (status == 0x0109 <==> |p| == 7 && p[6] != 0)
      && (status == 0x0203 <==> |p| == 7 && p[6] == 0 && !(c.load.imageReady && c.load.crcChecked))
      && (status == 0x0602 <==>
            && |p| == 7 && p[6] == 0 && c.load.imageReady && c.load.crcChecked
            && (Join(p[2], p[3]) != c.load.crc32 || Join(p[4], p[5]) != c.load.expectedWords))
      && (status == 0x0703 <==>
            && |p| == 7 && p[6] == 0 && c.load.imageReady && c.load.crcChecked
            && Join(p[2], p[3]) == c.load.crc32 && Join(p[4], p[5]) == c.load.expectedWords
            && !(Join(p[0], p[1]) == 0x01_3000 && c.load.loadedStart <= 0x01_3000 && 0x01_3020 <= c.load.loadedEnd))
      && (status == 0 || status == 0x0106 || status == 0x0109 || status == 0x0203 || status == 0x0602 || status == 0x0703)
      && (status != 0 ==> o.status == status && o.ram == ram)
      && (status == 0 && ValidationStatus(ram) != 0 ==> o.status == ValidationStatus(ram))
      && (status == 0 && ValidationStatus(ram) == 0 ==> o.status == init.status)
      && (o.status == 0 ==> Installed(o.core.service, o.ram, c.load))
      && (o.status != 0 ==>
            o.core.service == c.service.(lastAttachStatus := o.status,
                                         state := if c.service.active then c.service.state else AttachError))
      && o.core.load == c.load
  {
    hide ValidationStatus, Published, Store, Join;
    CoreRuns.ValidateKeepsValidity(ram, init);
    HeaderEntries(Validate(ram, init).0);
  }

  lemma HeaderEntries(ram: Ram)
    ensures Field(Header(ram), 18) == Join(ram[0x01_3012], ram[0x01_3013])
    ensures Field(Header(ram), 20) == Join(ram[0x01_3014], ram[0x01_3015])
  {
  }

  /** Restoring after a restart: the same installation without a load, or a core without a
      service and with the publish words cleared. */
  lemma RestoreAnswers(c: Core, ram: Ram, init: Init)
    ensures var o := Restore(c, ram, init);
      && o.status == (if ValidationStatus(ram) != 0 then ValidationStatus(ram) else init.status)
      && (o.status == 0 ==>
            && o.core.service.active && o.core.service.state.Attached?
            && o.core.service.handler == Some(Join(o.ram[0x01_3012], o.ram[0x01_3013]))
            && o.core.service.capabilities == Join(o.ram[0x01_3014], o.ram[0x01_3015]))
      && (o.status != 0 ==> LetGo(c.service, o.core.service) && !Published(o.ram))
      && o.core.load == c.load
  {
    hide ValidationStatus, Store, Join;
    CoreRuns.ValidateKeepsValidity(ram, init);
    HeaderEntries(Validate(ram, init).0);
  }

  /** Validation touches the publish words and the service's runtime words only, and in the
      end the publish words hold VALID and its inverse exactly when it answers OK. */
  lemma ValidationWrites(ram: Ram, init: Init, a: nat)
    requires a < RAM_SIZE
    ensures var v := Validate(ram, init);
      && v.1 == (if ValidationStatus(ram) != 0 then ValidationStatus(ram) else init.status)
      && (v.1 == 0 ==> v.0[0x01_3020] == 0xA55A && v.0[0x01_3021] == 0x5AA5)
      && (v.1 != 0 ==> v.0[0x01_3020] == 0 && v.0[0x01_3021] == 0)
      && (0x01_3022 <= a < 0x01_3060 && ValidationStatus(ram) == 0 ==> v.0[a] == init.runtime[a - 0x01_3022])
      && (!(0x01_3020 <= a < 0x01_3060) ==> v.0[a] == ram[a])
  {
    hide ValidationStatus;
    CoreRuns.ValidateKeepsValidity(ram, init);
  }
}
