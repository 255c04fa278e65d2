/** A whole upgrade: sectors are erased, the padded image is programmed, verified and
    published, and the journal then trusts exactly the image that Flash holds. */
module Upgrade {
  import opened Words
  import opened Crc
  import opened Protocol
  import opened Firmware
  import opened Packets
  import opened Record
  import opened Scan
  import opened ScanMeaning
  import opened Crash
  import opened Journal
  import opened Rescan
  import JR = JournalRuns
  import opened FlashPort
  import ServiceSpec
  import ServiceRuns
  import ServiceAnswers
  import opened ImageLoading
  import opened FlashTransfer
  import opened Sectors
  import opened PcPackets

  // ---------------------------------------------------------------- the packets of an image

  /** Numbered in turn, and sized in units of eight words. */
  predicate InTurn(ps: seq<Packet>, first: nat, size: nat) {
    forall k :: 0 <= k < |ps| ==>
      ps[k].index == first + k && 0 < |ps[k].words| <= size && |ps[k].words| % ALIGNMENT == 0
  }

  lemma InTurnConcat(x: seq<Packet>, y: seq<Packet>, size: nat)
    requires InTurn(x, 0, size) && InTurn(y, |x|, size)
    ensures InTurn(x + y, 0, size)
  {
  }

  /** The padded packets of a block list are numbered in turn and fit the packet size. */
  lemma {:induction false} PaddedPacketsSized(bs: seq<FirmwareBlock>, size: nat)
    requires size > 0 && size % ALIGNMENT == 0
    ensures InTurn(PaddedPacketsOf(bs, size), 0, size)
  {
    if bs == [] {
    } else {
      hide PaddedChunks;
      var before, last := PaddedPacketsOf(bs[..|bs| - 1], size), bs[|bs| - 1];
      var chunks := PaddedChunks(last.address, last.words, size, |before|);
      PaddedPacketsSized(bs[..|bs| - 1], size);
      forall k | 0 <= k < |chunks|
        ensures chunks[k].index == |before| + k && 0 < |chunks[k].words| <= size && |chunks[k].words| % ALIGNMENT == 0
      {
        ChunkSpan(last.address, last.words, size, |before|, k);
      }
      InTurnConcat(before, chunks, size);
    }
  }

  // ---------------------------------------------------------------- publishing

  /** The IMAGE_VALID request of the PC; versions are zero. */
  function ImageRecordRequest(id: Identity, appEnd: U32): Payload {
    [IMAGE_VALID, SLOT_A, Low(id.entryPoint), High(id.entryPoint), Low(id.imageSizeWords), High(id.imageSizeWords),
     Low(id.imageCrc32), High(id.imageCrc32)] + [0, 0, 0, 0, 0, Low(appEnd), High(appEnd), 0]
  }

  function ImageRequestOf(s: ServiceSpec.Service, id: Identity, appEnd: U32): ImageRequest {
    ImageRequest(id, 0, 0, 0, 0, appEnd, s.deviceId, s.cpuId)
  }

  lemma ImageRecordRequestReads(s: ServiceSpec.Service, id: Identity, appEnd: U32)
    ensures var p := ImageRecordRequest(id, appEnd);
      && |p| == 16 && p[0] == IMAGE_VALID && p[1] == SLOT_A && p[15] == 0
      && ServiceSpec.RequestedImage(s, p) == ImageRequestOf(s, id, appEnd)
  {
    var p := ImageRecordRequest(id, appEnd);
    assert p[11] == 0 && p[12] == 0 && p[13] == Low(appEnd) && p[14] == High(appEnd);
    JoinSplit(id.entryPoint);
    JoinSplit(id.imageSizeWords);
    JoinSplit(id.imageCrc32);
    JoinSplit(appEnd);
  }

  /** What the journal says of an image that was just published. */
  predicate Trusts(boot: BootView, id: Identity) {
    && boot.metadataValid && IdentityOf(boot) == id
    && boot.attemptCount == 0 && !boot.appConfirmed && boot.attemptLimit == ATTEMPT_LIMIT
  }

  /** A completed IMAGE_VALID append starts a life cycle with no attempts. */
  lemma ImageAppendStartsOver(j: Slots, r: ImageRequest)
    requires AdmitImage(Summarise(j), r).Write? && Summarise(j).boot.latestSequence < LAST_SEQUENCE
    ensures Trusts(Summarise(Perform(j, AdmitImage(Summarise(j), r), RECORD_WORDS)).boot, r.id)
  {
    hide Encode, Classify;
    var s, es := Summarise(j), Entries(Readings(j));
    var sequence := if s.slots.validCount == 0 then 1 else Increment(s.boot.latestSequence);
    var e := ImageEntry(sequence, r);
    PlaceAccepts(j, e, 0);
    SequenceIsLater(es, e);
    ViewAfterImage(es, e);
    CompletedAppend(j, e, 0, s.slots.nextIndex);
  }

  /** On a working port a verified service publishes whenever a slot is free. */
  lemma PublishSucceeds(s: ServiceSpec.Service, flash: Flash, id: Identity, appEnd: U32, port: Port)
    requires s.verifySucceeded && Works(port) && ImageRequestStatus(ImageRequestOf(s, id, appEnd)) == OK
    requires JR.Invariant(Readings(flash.journal)) && FirstBlank(Readings(flash.journal)).Some?
    ensures var o := ServiceSpec.AppendImageRecord(s, flash, ImageRecordRequest(id, appEnd), port);
      && o.status == OK && o.flash.app == flash.app && !o.service.verifySucceeded
      && o.service.initialized == s.initialized
      && Trusts(Summarise(o.flash.journal).boot, id) && JR.Appended(flash.journal, o.flash.journal)
  {
    hide AdmitImage, Summarise, Perform, ImageRecordRequest, Trusts, ImageRequestStatus, ServiceSpec.RequestedImage,
         JR.Invariant, JR.Appended, JR.Admissible, FirstBlank;
    var j, r := flash.journal, ImageRequestOf(s, id, appEnd);
    ImageRecordRequestReads(s, id, appEnd);
    JR.SummaryOfInvariant(j);
    AdmittedImage(j, r);
    ImageRescanSucceeds(j, r);
    ImageAppendStartsOver(j, r);
    JR.ImageAdmissible(j, r);
    JR.CompletedStep(j, AdmitImage(Summarise(j), r));
    CommitsImage(s, flash, r, port);
  }

  /** Without a free slot nothing is published. */
  lemma FullJournalRefuses(s: ServiceSpec.Service, flash: Flash, p: Payload, port: Port)
    requires JR.Invariant(Readings(flash.journal)) && FirstBlank(Readings(flash.journal)).None?
    ensures ServiceSpec.AppendImageRecord(s, flash, p, port).status != OK
  {
    hide AdmitImage, Summarise, JR.Invariant, FirstBlank, ServiceSpec.RequestedImage;
    if ServiceSpec.ImagePayloadStatus(s, p) == OK {
      var r := ServiceSpec.RequestedImage(s, p);
      ServiceAnswers.ImageExactly(flash.journal, r);
      ServiceAnswers.RefusalsAreErrors(Summarise(flash.journal), r, r.id, None);
    }
  }

  lemma AdmittedImage(j: Slots, r: ImageRequest)
    requires ImageRequestStatus(r) == OK && JR.Invariant(Readings(j)) && FirstBlank(Readings(j)).Some?
    ensures AdmitImage(Summarise(j), r).Write?
    ensures AdmitImage(Summarise(j), r).slot < RECORD_COUNT
  {
    hide Encode, Classify;
    JR.SummaryOfInvariant(j);
    var s := Summarise(j);
    PlaceAccepts(j, ImageEntry(if s.slots.validCount == 0 then 1 else Increment(s.boot.latestSequence), r), 0);
  }

  lemma CommitsImage(s: ServiceSpec.Service, flash: Flash, r: ImageRequest, port: Port)
    requires Works(port) && AdmitImage(Summarise(flash.journal), r).Write?
    requires ImageWritten(AdmitImage(Summarise(flash.journal), r).entry,
                          Summarise(Perform(flash.journal, AdmitImage(Summarise(flash.journal), r), RECORD_WORDS)))
    ensures var a := AdmitImage(Summarise(flash.journal), r);
      var o := ServiceSpec.Commit(s, flash, ServiceSpec.ImageAppend, a, port);
      && o.status == OK && o.flash.app == flash.app && !o.service.verifySucceeded
      && o.service.initialized == s.initialized
      && o.flash.journal == Perform(flash.journal, a, RECORD_WORDS)
  {
    hide AdmitImage, Summarise, Perform;
  }

  // ---------------------------------------------------------------- the upgrade

  /** An image the PC can transfer: its padded packets fit the layout and one another. */
  predicate Transferable(ps: seq<Packet>, maxDataWords: Word) {
    && AllSized(ps, MAX_DATA) && AllSized(ps, maxDataWords) && 0 < |ps| < 0x1_0000
    && 0 < |Carried(ps)| < 0x1_0000_0000
    && AllPlaced(ps) && Consistent(ps)
  }

  lemma {:induction false} CarriedGrows(ps: seq<Packet>, size: nat)
    requires forall k :: 0 <= k < |ps| ==> 0 < |ps[k].words| <= size
    ensures |ps| <= |Carried(ps)| <= |ps| * size
  {
    if ps == [] {
    } else {
      CarriedGrows(ps[..|ps| - 1], size);
      assert (|ps| - 1) * size + size == |ps| * size;
    }
  }

  lemma {:induction false} SomePackets(bs: seq<FirmwareBlock>, size: nat)
    requires size > 0 && bs != []
    ensures PaddedPacketsOf(bs, size) != []
  {
  }

  lemma FitIsPlaced(ps: seq<Packet>)
    requires AllSized(ps, MAX_DATA)
    ensures AllPlaced(ps) <==> AllFit(ps)
  {
    hide Placed;
    assert forall k :: 0 <= k < |ps| ==> Sized(ps[k], MAX_DATA);
  }

  /** The packets of an image whose blocks fit: in turn, aligned and apart. */
  lemma FittingPackets(image: FirmwareImage, size: nat, maxDataWords: Word)
    requires 0 < size <= MAX_DATA && size % ALIGNMENT == 0 && size <= maxDataWords
    requires AllBlocksFit(MergedBlocks(image), size)
    ensures Transferable(PacketsOfImage(image, size), maxDataWords)
  {
    hide MergedBlocks, PaddedPacketsOf, BlockFits, Placed, Consistent, PacketsApart, Ascending;
    var ps := PacketsOfImage(image, size);
    PlacementExactly(MergedBlocks(image), size);
    PaddedPacketsSized(MergedBlocks(image), size);
    forall k | 0 <= k < |ps|
      ensures ps[k].address % ALIGNMENT == 0
    {
      assert Fits(ps[k]);
      PlacedIsAligned(ps[k]);
    }
    ImagePacketsApart(image, size);
    ApartIsConsistent(ps);
    FewPackets(ps);
    MergedIsSome(image);
    SomePackets(MergedBlocks(image), size);
    SizedInTurn(ps, size, maxDataWords);
    FitIsPlaced(ps);
  }

  lemma PlacedIsAligned(p: Packet)
    requires Fits(p)
    ensures p.address % ALIGNMENT == 0
  {
  }

  lemma MergedIsSome(image: FirmwareImage)
    ensures MergedBlocks(image) != []
  {
    hide SortByAddress;
    ImageInSequence(image);
    SortOrders(image.blocks);
  }

  /** What the PC's packetiser makes of an image can be transferred exactly when every
      merged block fits the sectors: padding never gets in the way. */
  lemma PcImageIsTransferable(image: FirmwareImage, size: nat, maxDataWords: Word)
    requires 0 < size <= MAX_DATA && size % ALIGNMENT == 0 && size <= maxDataWords
    ensures Transferable(PacketsOfImage(image, size), maxDataWords) <==> AllBlocksFit(MergedBlocks(image), size)
  {
    hide MergedBlocks, PaddedPacketsOf, BlockFits, Placed, Consistent, Carried;
    var ps := PacketsOfImage(image, size);
    if AllBlocksFit(MergedBlocks(image), size) {
      FittingPackets(image, size, maxDataWords);
    }
    if Transferable(ps, maxDataWords) {
      FitIsPlaced(ps);
      PlacementExactly(MergedBlocks(image), size);
    }
  }

  lemma SizedInTurn(ps: seq<Packet>, size: nat, maxDataWords: Word)
    requires InTurn(ps, 0, size) && size <= MAX_DATA && size <= maxDataWords && 0 < |ps| <= MAX_PACKETS
    requires forall k :: 0 <= k < |ps| ==> ps[k].address < 0x1_0000_0000
    ensures AllSized(ps, MAX_DATA) && AllSized(ps, maxDataWords) && 0 < |Carried(ps)| < 0x1_0000_0000
  {
    CarriedGrows(ps, MAX_DATA);
    assert |ps| * MAX_DATA <= MAX_PACKETS * MAX_DATA;
  }

  lemma ProgramStage(s: ServiceSpec.Service, flash: Flash, ps: seq<Packet>, entry: U32, port: Port)
    requires Transferable(ps, s.maxDataWords) && s.session == ServiceSpec.IDLE && Works(port)
    ensures var o := Transfer(s, flash, ServiceSpec.ProgramSession, ps, entry, port);
      && o.status == OK && o.service == s.(flashInitialized := true, verifySucceeded := false)
      && AllTaken(ServiceSpec.ProgramSession, flash, ps)
      && o.flash == FlashAfterAll(ServiceSpec.ProgramSession, flash, ps)
  {
    hide Carried, AllSized, AllPlaced, Consistent, AllTaken, FlashAfterAll;
    ProgramTakes(flash, ps);
    TransferAcceptsExactly(s, flash, ServiceSpec.ProgramSession, ps, entry, port);
  }

  lemma VerifyStage(s: ServiceSpec.Service, flash: Flash, ps: seq<Packet>, entry: U32, port: Port)
    requires Transferable(ps, s.maxDataWords) && s.session == ServiceSpec.IDLE && Works(port)
    requires AllTaken(ServiceSpec.ProgramSession, flash, ps)
    ensures var programmed := FlashAfterAll(ServiceSpec.ProgramSession, flash, ps);
      var o := Transfer(s, programmed, ServiceSpec.VerifySession, ps, entry, port);
      && o.status == OK && o.service == s.(flashInitialized := true, verifySucceeded := true)
      && o.flash == programmed
  {
    hide Carried, AllSized, AllPlaced, Consistent, AllTaken, FlashAfterAll;
    var programmed := FlashAfterAll(ServiceSpec.ProgramSession, flash, ps);
    ProgramThenVerify(flash, ps);
    VerifyTakes(programmed, ps);
    TransferAcceptsExactly(s, programmed, ServiceSpec.VerifySession, ps, entry, port);
  }

  lemma ProgrammedJournal(flash: Flash, ps: seq<Packet>)
    requires AllSized(ps, MAX_DATA) && AllTaken(ServiceSpec.ProgramSession, flash, ps)
    ensures FlashAfterAll(ServiceSpec.ProgramSession, flash, ps).journal == flash.journal
  {
    ProgrammedMemory(flash, ps, APP_START);
  }

  // ---------------------------------------------------------------- the whole upgrade

  /** The identity the PC computes from the packets. */
  function PacketsIdentity(entry: U32, ps: seq<Packet>): Identity
    requires |Carried(ps)| < 0x1_0000_0000
  {
    Identity(entry, |Carried(ps)|, Crc32Of(Carried(ps)))
  }

  /** What the PC can put into requests; otherwise it raises. */
  predicate Encodable(ps: seq<Packet>) {
    AllSized(ps, MAX_DATA) && |ps| <= MAX_PACKETS && |Carried(ps)| < 0x1_0000_0000 && MaxEnd(ps) < 0x1_0000_0000
  }

  function EraseRequest(mask: U32): Payload {
    [Low(mask), High(mask), 0]
  }

  /** PROGRAM, VERIFY and IMAGE_VALID; stops at the first refusal. */
  function TransferAndPublish(s: ServiceSpec.Service, flash: Flash, ps: seq<Packet>, entry: U32, port: Port)
    : ServiceSpec.Outcome
    requires Encodable(ps)
  {
    var programmed := Transfer(s, flash, ServiceSpec.ProgramSession, ps, entry, port);
    if programmed.status != OK then programmed
    else
      var verified := Transfer(programmed.service, programmed.flash, ServiceSpec.VerifySession, ps, entry, port);
      if verified.status != OK then verified
      else
        ServiceSpec.AppendImageRecord(verified.service, verified.flash,
                                      ImageRecordRequest(PacketsIdentity(entry, ps), MaxEnd(ps)), port)
  }

  /** The upgrade as the PC drives it: ERASE first. */
  function Dfu(s: ServiceSpec.Service, flash: Flash, mask: U32, ps: seq<Packet>, entry: U32, port: Port)
    : ServiceSpec.Outcome
    requires Encodable(ps)
  {
    var erased := ServiceSpec.Erase(s, flash, EraseRequest(mask), port);
    if erased.status != OK then erased else TransferAndPublish(erased.service, erased.flash, ps, entry, port)
  }

  predicate AppEntry(entry: U32) {
    APP_START <= entry < APP_END && entry % 8 == 0
  }

  /** What the PC checks of an erase mask. */
  predicate EraseAllowed(mask: U32) {
    mask != 0 && MaskAllowed(mask)
  }

  /** Every word of the image lies in a sector that the mask selects. */
  ghost predicate MaskCovers(mask: U32, image: FirmwareImage) {
    forall a: nat :: Lookup(image.blocks, a).Some? ==> Selected(mask, SectorOf(a))
  }

  /** Every word that the packets are stored over is erased. */
  ghost predicate AllErased(flash: Flash, ps: seq<Packet>)
    requires AllSized(ps, MAX_DATA) && AllPlaced(ps)
  {
    forall k, i :: 0 <= k < |ps| && 0 <= i < |ps[k].words| ==> ErasedAtPacket(flash, ps[k], i)
  }

  predicate ErasedAtPacket(flash: Flash, p: Packet, i: nat)
    requires p.address < 0x1_0000_0000 && Placed(p) && i < |p.words|
  {
    PlacedInApp(p);
    AppWord(flash, p.address + i) == ERASED_WORD
  }

  // ---------------------------------------------------------------- transfer and publish

  lemma {:induction false} MaxEndBelow(ps: seq<Packet>, limit: nat)
    requires forall k :: 0 <= k < |ps| ==> PacketEnd(ps[k]) <= limit
    ensures MaxEnd(ps) <= limit
    ensures forall k :: 0 <= k < |ps| ==> PacketEnd(ps[k]) <= MaxEnd(ps)
  {
    if ps == [] {
    } else {
      MaxEndBelow(ps[..|ps| - 1], limit);
      assert forall k :: 0 <= k < |ps| - 1 ==> ps[..|ps| - 1][k] == ps[k];
    }
  }

  /** The end of the image lies in the App area. */
  lemma EndInApp(ps: seq<Packet>)
    requires AllSized(ps, MAX_DATA) && AllPlaced(ps) && ps != []
    ensures APP_START < MaxEnd(ps) <= APP_END
  {
    hide Placed, MaxEnd;
    forall k | 0 <= k < |ps|
      ensures APP_START < PacketEnd(ps[k]) <= APP_END
    {
      assert Sized(ps[k], MAX_DATA);
      PlacedInApp(ps[k]);
    }
    MaxEndBelow(ps, APP_END);
    assert PacketEnd(ps[0]) <= MaxEnd(ps);
  }

  /** On a working port the packets are programmed, verified and, exactly when a journal
      slot is free, published; Flash then holds them and the journal trusts them. */
  lemma TransferPublishes(s: ServiceSpec.Service, flash: Flash, ps: seq<Packet>, entry: U32, port: Port)
    requires Transferable(ps, s.maxDataWords) && Encodable(ps) && s.session == ServiceSpec.IDLE
    requires Works(port) && AppEntry(entry) && JR.Invariant(Readings(flash.journal))
    ensures var o := TransferAndPublish(s, flash, ps, entry, port);
      && (o.status == OK <==> FirstBlank(Readings(flash.journal)).Some?)
      && (o.status == OK ==>
            && o.service.initialized == s.initialized && AllHeld(o.flash, ps)
            && Trusts(Summarise(o.flash.journal).boot, PacketsIdentity(entry, ps))
            && JR.Appended(flash.journal, o.flash.journal))
  {
    hide Carried, AllSized, AllPlaced, Consistent, AllTaken, FlashAfterAll, Transfer, Trusts, ImageRecordRequest, Summarise,
         Crc32Of, Held, Placed, JR.Invariant, JR.Appended, FirstBlank, MaxEnd, ServiceSpec.AppendImageRecord;
    var id := PacketsIdentity(entry, ps);
    ProgramStage(s, flash, ps, entry, port);
    var programmed := FlashAfterAll(ServiceSpec.ProgramSession, flash, ps);
    VerifyStage(s.(flashInitialized := true, verifySucceeded := false), flash, ps, entry, port);
    ProgrammedJournal(flash, ps);
    EndInApp(ps);
    var verified := s.(flashInitialized := true, verifySucceeded := true);
    var p := ImageRecordRequest(id, MaxEnd(ps));
    if FirstBlank(Readings(flash.journal)).Some? {
      PublishSucceeds(verified, programmed, id, MaxEnd(ps), port);
      ProgramThenVerify(flash, ps);
      VerifyTakes(programmed, ps);
      HeldByApp(programmed, ServiceSpec.AppendImageRecord(verified, programmed, p, port).flash, ps);
    } else {
      FullJournalRefuses(verified, programmed, p, port);
    }
  }

  /** Packets that do not all fit are refused while they are programmed. */
  lemma MisplacedIsRefused(s: ServiceSpec.Service, flash: Flash, ps: seq<Packet>, entry: U32, port: Port)
    requires Encodable(ps) && AllSized(ps, s.maxDataWords) && ps != [] && |Carried(ps)| > 0 && !AllPlaced(ps)
    requires s.session == ServiceSpec.IDLE && Works(port)
    ensures TransferAndPublish(s, flash, ps, entry, port).status != OK
  {
    hide Carried, AllSized, AllPlaced, AllTaken, FlashAfterAll, Transfer, MaxEnd;
    ProgramTakes(flash, ps);
    TransferAcceptsExactly(s, flash, ServiceSpec.ProgramSession, ps, entry, port);
  }

  /** The journal is not part of what packets are compared with. */
  lemma HeldByApp(a: Flash, b: Flash, ps: seq<Packet>)
    requires AllSized(ps, MAX_DATA) && AllPlaced(ps) && AllHeld(a, ps) && b.app == a.app
    ensures AllHeld(b, ps)
  {
  }

  // ---------------------------------------------------------------- the erase

  lemma EraseStage(s: ServiceSpec.Service, flash: Flash, mask: U32, port: Port, a: int)
    requires ServiceAnswers.Works(port) && EraseAllowed(mask) && APP_START <= a < APP_END
    ensures var o := ServiceSpec.Erase(s, flash, EraseRequest(mask), port);
      && o.status == OK && o.service == s.(flashInitialized := true, session := ServiceSpec.IDLE, verifySucceeded := false)
      && o.flash.journal == (if Selected(mask, 1) then ErasedJournal() else flash.journal)
      && AppWord(o.flash, a) == if Selected(mask, SectorOf(a)) then ERASED_WORD else AppWord(flash, a)
  {
    hide Selected, EraseSectors;
    JoinSplit(mask);
    ServiceAnswers.EraseBySector(s, flash, EraseRequest(mask), port, a);
    JournalSector();
  }

  lemma JournalSector()
    ensures SectorOf(METADATA_START) == 1
  {
  }

  /** The slots an erase leaves free. */
  function SlotsAfterErase(j: Slots, mask: U32): nat {
    if Selected(mask, 1) then RECORD_COUNT else FreeSlots(j)
  }

  lemma JournalAfterErase(s: ServiceSpec.Service, flash: Flash, mask: U32, port: Port)
    requires ServiceAnswers.Works(port) && EraseAllowed(mask) && JR.Invariant(Readings(flash.journal))
    ensures var j := ServiceSpec.Erase(s, flash, EraseRequest(mask), port).flash.journal;
      && JR.Invariant(Readings(j)) && FreeSlots(j) == SlotsAfterErase(flash.journal, mask)
      && (FirstBlank(Readings(j)).Some? <==> SlotsAfterErase(flash.journal, mask) > 0)
  {
    hide Selected, ServiceSpec.Erase, JR.Invariant;
    EraseStage(s, flash, mask, port, APP_START);
    JR.ErasedInvariant();
    ErasedIsFree();
    BlanksAreFound(Readings(ServiceSpec.Erase(s, flash, EraseRequest(mask), port).flash.journal));
  }

  /** A packet starts at a word of its image. */
  lemma {:induction false} PacketStartsInBlock(bs: seq<FirmwareBlock>, size: nat, k: nat)
    requires size > 0 && size % ALIGNMENT == 0 && k < |PaddedPacketsOf(bs, size)|
    ensures exists b :: b in bs && Covers(b, PaddedPacketsOf(bs, size)[k].address)
  {
    hide PaddedChunks;
    var front, last := bs[..|bs| - 1], bs[|bs| - 1];
    var before := PaddedPacketsOf(front, size);
    if k < |before| {
      PacketStartsInBlock(front, size, k);
      var b :| b in front && Covers(b, before[k].address);
      assert b in bs;
    } else {
      ChunkSpan(last.address, last.words, size, |before|, k - |before|);
      ProductGrows(0, k - |before|, size);
      assert last in bs && Covers(last, PaddedPacketsOf(bs, size)[k].address);
    }
  }

  lemma PacketStartsInImage(image: FirmwareImage, size: nat, k: nat)
    requires size > 0 && size % ALIGNMENT == 0 && k < |PacketsOfImage(image, size)|
    ensures Lookup(image.blocks, PacketsOfImage(image, size)[k].address).Some?
  {
    hide PaddedPacketsOf, SortByAddress, Merge;
    var a := PacketsOfImage(image, size)[k].address;
    PacketStartsInBlock(MergedBlocks(image), size, k);
    LookupNone(MergedBlocks(image), a);
    MergeKeepsMemory(SortByAddress(image.blocks), a);
    SortKeepsMemory(image.blocks, a);
  }

  /** A mask that covers the image erases everything its packets are stored over, padding
      included. */
  lemma EraseClearsPackets(s: ServiceSpec.Service, flash: Flash, mask: U32, image: FirmwareImage, size: nat, port: Port)
    requires ServiceAnswers.Works(port) && EraseAllowed(mask) && MaskCovers(mask, image)
    requires size > 0 && size % ALIGNMENT == 0
    requires AllSized(PacketsOfImage(image, size), MAX_DATA) && AllPlaced(PacketsOfImage(image, size))
    ensures AllErased(ServiceSpec.Erase(s, flash, EraseRequest(mask), port).flash, PacketsOfImage(image, size))
  {
    hide Selected, ServiceSpec.Erase, PaddedPacketsOf, MergedBlocks, SectorOf, AppWord;
    var ps := PacketsOfImage(image, size);
    var erased := ServiceSpec.Erase(s, flash, EraseRequest(mask), port).flash;
    forall k, i | 0 <= k < |ps| && 0 <= i < |ps[k].words|
      ensures ErasedAtPacket(erased, ps[k], i)
    {
      PlacedInApp(ps[k]);
      PacketStartsInImage(image, size, k);
      SectorsAscend(ps[k].address, ps[k].address + i);
      SectorsAscend(ps[k].address + i, ps[k].address + |ps[k].words| - 1);
      EraseStage(s, flash, mask, port, ps[k].address + i);
    }
  }

  // ---------------------------------------------------------------- the upgrade of an image

  /** What the device and the PC need besides an image that fits: an initialised service
      with a packet size in units of eight words, an entry point in the App area, and a
      legal erase mask. */
  predicate Ready(t: ServiceRuns.Tracked, image: FirmwareImage, mask: U32) {
    && t.service.initialized
    && 0 < t.service.maxDataWords <= MAX_DATA && t.service.maxDataWords % ALIGNMENT == 0
    && AppEntry(image.entryPoint) && EraseAllowed(mask)
    && Encodable(PacketsOfImage(image, t.service.maxDataWords))
  }

  /** The upgrade of an image, from any state a device can reach, on a working port: every
      stage answers OK exactly when every merged block fits the sectors and the erase leaves
      a free journal slot. Then Flash holds every padded word of the image, the journal
      trusts exactly the identity the PC computed from them, and with a mask that covers
      the image nothing was stored over words that were not erased. */
  lemma UpgradeSucceeds(app: AppArea, run: seq<ServiceRuns.Event>, image: FirmwareImage, mask: U32, port: Port)
    requires Ready(ServiceRuns.After(app, run), image, mask) && ServiceAnswers.Works(port)
    ensures var t := ServiceRuns.After(app, run);
      var ps := PacketsOfImage(image, t.service.maxDataWords);
      var o := Dfu(t.service, t.flash, mask, ps, image.entryPoint, port);
      && (o.status == OK <==>
            && AllBlocksFit(MergedBlocks(image), t.service.maxDataWords)
            && SlotsAfterErase(t.flash.journal, mask) > 0)
      && (o.status == OK ==>
            && o.service.initialized && AllPlaced(ps) && AllHeld(o.flash, ps)
            && Trusts(Summarise(o.flash.journal).boot, PacketsIdentity(image.entryPoint, ps))
            && JR.Invariant(Readings(o.flash.journal))
            && FreeSlots(o.flash.journal) + 1 == SlotsAfterErase(t.flash.journal, mask)
            && (MaskCovers(mask, image) ==>
                  AllErased(ServiceSpec.Erase(t.service, t.flash, EraseRequest(mask), port).flash, ps)))
  {
    hide ServiceRuns.After, PacketsOfImage, MergedBlocks, AllBlocksFit, AllSized, AllPlaced, AllHeld, AllErased, Carried,
         Consistent, Trusts, Summarise, Selected, ServiceSpec.Erase, TransferAndPublish, JR.Invariant, MaskCovers, MaxEnd,
         EraseRequest, FreeSlots, SlotsAfterErase, FirstBlank;
    var t := ServiceRuns.After(app, run);
    var size := t.service.maxDataWords;
    var ps := PacketsOfImage(image, size);
    ServiceAnswers.ReachableInvariant(app, run);
    EraseStage(t.service, t.flash, mask, port, APP_START);
    JournalAfterErase(t.service, t.flash, mask, port);
    var erased := ServiceSpec.Erase(t.service, t.flash, EraseRequest(mask), port);
    PcImageIsTransferable(image, size, size);
    EncodedPackets(image, size);
    if AllBlocksFit(MergedBlocks(image), size) {
      TransferPublishes(erased.service, erased.flash, ps, image.entryPoint, port);
      if MaskCovers(mask, image) {
        EraseClearsPackets(t.service, t.flash, mask, image, size, port);
      }
    } else {
      MisplacedIsRefused(erased.service, erased.flash, ps, image.entryPoint, port);
    }
  }

  /** Encodable packets of an image are transferable exactly when they are placed. */
  lemma EncodedPackets(image: FirmwareImage, size: nat)
    requires 0 < size <= MAX_DATA && size % ALIGNMENT == 0 && Encodable(PacketsOfImage(image, size))
    ensures var ps := PacketsOfImage(image, size);
      && ps != [] && |Carried(ps)| > 0 && AllSized(ps, size)
      && (AllPlaced(ps) <==> Transferable(ps, size))
  {
    hide MergedBlocks, PaddedPacketsOf, Placed, Consistent, BlockFits;
    var ps := PacketsOfImage(image, size);
    MergedIsSome(image);
    SomePackets(MergedBlocks(image), size);
    PlacementExactly(MergedBlocks(image), size);
    FitIsPlaced(ps);
    PcImageIsTransferable(image, size, size);
    PaddedPacketsSized(MergedBlocks(image), size);
    CarriedGrows(ps, MAX_DATA);
  }

  // ---------------------------------------------------------------- the premises can be met

  /** A fresh device after one boot. */
  const FIRST_BOOT: seq<ServiceRuns.Event> := [ServiceRuns.Boot(DEVICE_F28377D, CPU1, 248)]

  lemma AfterFirstBoot(app: AppArea)
    ensures var t := ServiceRuns.After(app, FIRST_BOOT);
      t.service.initialized && t.service.session == ServiceSpec.IDLE && t.service.maxDataWords == 248
  {
    assert FIRST_BOOT[..0] == [];
  }

  /** Eight words at the start of the App area. */
  function SmallImage(): FirmwareImage {
    var block: FirmwareBlock := BlockData(APP_START, [0, 0, 0, 0, 0, 0, 0, 0]);
    ImageData(APP_START, [block])
  }

  lemma SmallBlockFits(b: FirmwareBlock, size: nat)
    requires b.address == APP_START && |b.words| == 8 && size > 0
    ensures BlockFits(b, size)
  {
    hide StartsSector;
    forall x: nat | b.address < x < End(b)
      ensures !StartsSector(x)
    {
      NoStartInFirstSector(x);
    }
  }

  lemma SmallImageFits()
    ensures AllBlocksFit(MergedBlocks(SmallImage()), 248) && Encodable(PacketsOfImage(SmallImage(), 248))
  {
    hide MaxEnd, PaddedPacketsOf, MergedBlocks, BlockFits, AllSized, AllPlaced, Carried, Consistent;
    SmallImageIsMerged();
    SmallBlockFits(SmallImage().blocks[0], 248);
    PcImageIsTransferable(SmallImage(), 248, 248);
    EndInApp(PacketsOfImage(SmallImage(), 248));
  }

  lemma SmallImageIsMerged()
    ensures MergedBlocks(SmallImage()) == SmallImage().blocks
  {
    var b := SmallImage().blocks[0];
    assert [b][..0] == [];
    assert SortByAddress([b]) == Insert([], b) == [b];
    MergeOne(b);
  }

  lemma SelectsSectorB(mask: U32)
    requires mask == 2
    ensures Selected(mask, 1)
  {
  }

  lemma SmallImageIsReady(t: ServiceRuns.Tracked, image: FirmwareImage, mask: U32, size: nat)
    requires t.service.initialized && t.service.maxDataWords == size == 248 && image == SmallImage() && mask == 2
    ensures Ready(t, image, mask)
    ensures AllBlocksFit(MergedBlocks(image), size)
    ensures SlotsAfterErase(t.flash.journal, mask) == RECORD_COUNT
  {
    hide Encodable, FirstBlank, Readings, MergedBlocks, PacketsOfImage, Selected, AllBlocksFit;
    SelectsSectorB(mask);
    SmallImageFits();
  }

  /** Every fresh device, whatever its App area holds, is ready for a small image. */
  lemma FirstUpgradeIsReady(app: AppArea)
    ensures Ready(ServiceRuns.After(app, FIRST_BOOT), SmallImage(), 2)
    ensures AllBlocksFit(MergedBlocks(SmallImage()), 248)
    ensures SlotsAfterErase(ServiceRuns.After(app, FIRST_BOOT).flash.journal, 2) == RECORD_COUNT
  {
    hide Ready, ServiceRuns.After, SlotsAfterErase, MergedBlocks, AllBlocksFit, SmallImage;
    AfterFirstBoot(app);
    SmallImageIsReady(ServiceRuns.After(app, FIRST_BOOT), SmallImage(), 2, 248);
  }
}
