/** A firmware upgrade as the PC drives it: program, verify, publish. On a working port
    the service accepts exactly the transfers whose packets fit the Flash layout. */
module FlashTransfer {
  import opened Words
  import opened Crc
  import opened Protocol
  import opened Packets
  import opened Record
  import opened Scan
  import opened Crash
  import opened Journal
  import opened Rescan
  import opened FlashPort
  import opened ServiceSpec

  /** A port on which every call succeeds. */
  predicate Works(port: Port) {
    port.initOk && port.callOk
  }

  // ---------------------------------------------------------------- requests

  function BeginRequest(packets: Word, words: U32, entry: U32): Payload {
    [TARGET_FLASH_APP, packets, Low(words), High(words), Low(entry), High(entry), 0, 0, 0]
  }

  function EndRequest(packets: U32, words: U32): Payload {
    [Low(packets), High(packets), Low(words), High(words), 0, 0]
  }

  /** A padded packet of at most `size` words. */
  predicate Sized(p: Packet, size: nat) {
    Sendable(p) && 0 < |p.words| <= size && |p.words| % ALIGNMENT == 0
  }

  predicate AllSized(ps: seq<Packet>, size: nat) {
    forall k :: 0 <= k < |ps| ==> ps[k].index == k && Sized(ps[k], size)
  }

  // ---------------------------------------------------------------- one packet

  /** The packet lies in one sector of the App area, aligned as both commands need it. */
  predicate Placed(p: Packet)
    requires p.address < 0x1_0000_0000
  {
    AddressAllowed(p.address, |p.words|, true)
  }

  /** Flash holds the packet. */
  predicate Held(flash: Flash, p: Packet)
    requires p.address < 0x1_0000_0000 && Placed(p)
  {
    AppMatches(flash, p.address, p.words)
  }

  /** What the service needs to take a packet. */
  predicate Takes(kind: SessionKind, flash: Flash, p: Packet)
    requires p.address < 0x1_0000_0000
  {
    Placed(p) && (kind.VerifySession? ==> Held(flash, p))
  }

  function FlashAfter(kind: SessionKind, flash: Flash, p: Packet): Flash
    requires p.address < 0x1_0000_0000 && Placed(p)
  {
    if kind.ProgramSession? then StoreApp(flash, p.address, p.words, |p.words|) else flash
  }

  /** The session after `n` packets with `words` words, of those declared. */
  predicate Progress(s: Service, kind: SessionKind, packets: Word, words: U32, entry: U32, n: nat, sent: nat) {
    && n < 0x1_0000_0000 && sent < 0x1_0000_0000
    && s.session == Session(kind, TARGET_FLASH_APP, packets, n, words, sent, n, entry)
  }

  /** Only the session changed, and the verify flag when programming cleared it. */
  predicate Evolved(before: Service, after: Service, cleared: bool) {
    after == before.(session := after.session, verifySucceeded := before.verifySucceeded && !cleared)
  }

  lemma EvolvedTwice(a: Service, b: Service, c: Service, x: bool, y: bool)
    requires Evolved(a, b, x) && Evolved(b, c, y)
    ensures Evolved(a, c, x || y)
  {
  }

  lemma EvolvedKeeps(a: Service, b: Service, x: bool)
    requires Evolved(a, b, x)
    ensures b.maxDataWords == a.maxDataWords
  {
  }

  /** On a working port a packet that comes in turn is taken exactly when it fits. */
  lemma SendOne(s: Service, flash: Flash, kind: SessionKind, port: Port, packets: Word, words: U32, entry: U32,
                n: nat, sent: nat, p: Packet)
    requires Works(port) && !kind.NoSession? && Sized(p, MAX_DATA) && |p.words| <= s.maxDataWords
    requires Progress(s, kind, packets, words, entry, n, sent) && p.index == n < packets && sent + |p.words| <= words
    ensures var o := Data(s, flash, kind, DataRequest(p), port);
      && (o.status == OK <==> Takes(kind, flash, p))
      && (o.status == OK ==>
            && Evolved(s, o.service, kind.ProgramSession?)
            && Progress(o.service, kind, packets, words, entry, n + 1, sent + |p.words|)
            && o.flash == FlashAfter(kind, flash, p))
  {
    hide DataRequest, FlashCall, AddressAllowed, DataStatus, Advance, Placed, Takes;
    DataRequestReads(p);
    InTurnStatus(s, kind, packets, words, entry, n, sent, p);
    AddressIsEnough(p, kind);
    if DataStatus(s, kind, DataRequest(p)) == OK {
      FlashCallWorks(flash, kind, port, p);
      AdvanceCounts(s.session, kind, packets, words, entry, n, sent, |p.words|);
    }
    TakesMeans(kind, flash, p);
  }

  lemma TakesMeans(kind: SessionKind, flash: Flash, p: Packet)
    requires p.address < 0x1_0000_0000
    ensures Takes(kind, flash, p) ==> Placed(p)
  {
  }

  /** In turn and within the declared counts only the address check can refuse. */
  lemma InTurnStatus(s: Service, kind: SessionKind, packets: Word, words: U32, entry: U32, n: nat, sent: nat, p: Packet)
    requires !kind.NoSession? && Sized(p, MAX_DATA) && |p.words| <= s.maxDataWords
    requires Progress(s, kind, packets, words, entry, n, sent) && p.index == n < packets && sent + |p.words| <= words
    ensures DataStatus(s, kind, DataRequest(p)) == OK <==>
            AddressAllowed(p.address, |p.words|, kind.ProgramSession?)
  {
    hide DataRequest, AddressAllowed, Join;
    DataRequestReads(p);
    SmallModulo(words - sent, 0x1_0000_0000);
    SmallModulo(5 + |p.words|, 0x1_0000);
  }

  lemma SmallModulo(value: int, limit: int)
    requires 0 <= value < limit
    ensures value % limit == value
  {
  }

  lemma AddressIsEnough(p: Packet, kind: SessionKind)
    requires Sized(p, MAX_DATA)
    ensures Placed(p) ==> AddressAllowed(p.address, |p.words|, kind.ProgramSession?)
    ensures AddressAllowed(p.address, |p.words|, kind.ProgramSession?) && p.address % 8 == 0 ==> Placed(p)
    ensures AddressAllowed(p.address, |p.words|, true) ==> p.address % 8 == 0
    ensures AddressAllowed(p.address, |p.words|, kind.ProgramSession?) ==>
              APP_START <= p.address && p.address + |p.words| <= APP_END
  {
    hide SectorOf;
  }

  /** On a working port the Flash call answers OK exactly when the packet fits. */
  lemma FlashCallWorks(flash: Flash, kind: SessionKind, port: Port, p: Packet)
    requires Works(port) && !kind.NoSession? && Sized(p, MAX_DATA)
    requires AddressAllowed(p.address, |p.words|, kind.ProgramSession?)
    ensures APP_START <= p.address && p.address + |p.words| <= APP_END
    ensures var call := FlashCall(flash, kind, p.address, p.words, port);
      && (call.0 == FlashOk <==> Takes(kind, flash, p))
      && (Takes(kind, flash, p) ==> call.1 == FlashAfter(kind, flash, p))
  {
    hide AddressAllowed, AppMatches, StoreApp;
    AddressIsEnough(p, kind);
  }

  lemma AdvanceCounts(session: Session, kind: SessionKind, packets: Word, words: U32, entry: U32,
                      n: nat, sent: nat, count: Word)
    requires n < packets && sent + count <= words
    requires session == Session(kind, TARGET_FLASH_APP, packets, n, words, sent, n, entry)
    ensures Advance(session, count) ==
            Session(kind, TARGET_FLASH_APP, packets, n + 1, words, sent + count, n + 1, entry)
  {
  }

  // ---------------------------------------------------------------- all packets

  /** Sends the packets; stops at the first refusal. */
  function SendAll(s: Service, flash: Flash, kind: SessionKind, ps: seq<Packet>, port: Port): Outcome
    requires AllSized(ps, MAX_DATA)
  {
    if ps == [] then Outcome(s, flash, OK)
    else
      var o := SendAll(s, flash, kind, ps[..|ps| - 1], port);
      if o.status != OK then o else Data(o.service, o.flash, kind, DataRequest(ps[|ps| - 1]), port)
  }

  /** Flash after all packets were taken in turn; None when one does not fit. */
  function Delivered(kind: SessionKind, flash: Flash, ps: seq<Packet>): Option<Flash>
    requires AllSized(ps, MAX_DATA)
  {
    if ps == [] then Some(flash)
    else
      var before, last := Delivered(kind, flash, ps[..|ps| - 1]), ps[|ps| - 1];
      if before.Some? && Takes(kind, before.value, last) then Some(FlashAfter(kind, before.value, last)) else None
  }

  predicate AllTaken(kind: SessionKind, flash: Flash, ps: seq<Packet>)
    requires AllSized(ps, MAX_DATA)
  {
    Delivered(kind, flash, ps).Some?
  }

  function FlashAfterAll(kind: SessionKind, flash: Flash, ps: seq<Packet>): Flash
    requires AllSized(ps, MAX_DATA) && AllTaken(kind, flash, ps)
  {
    Delivered(kind, flash, ps).value
  }

  lemma CarriedStep(ps: seq<Packet>)
    requires ps != []
    ensures |Carried(ps)| == |Carried(ps[..|ps| - 1])| + |ps[|ps| - 1].words|
  {
  }

  /** What a run of data commands answers and leaves behind. */
  predicate Sent(s: Service, flash: Flash, kind: SessionKind, ps: seq<Packet>,
                 packets: Word, words: U32, entry: U32, o: Outcome)
    requires AllSized(ps, MAX_DATA)
  {
    && (o.status == OK <==> AllTaken(kind, flash, ps))
    && (o.status == OK ==>
          && Evolved(s, o.service, ps != [] && kind.ProgramSession?)
          && Progress(o.service, kind, packets, words, entry, |ps|, |Carried(ps)|)
          && o.flash == FlashAfterAll(kind, flash, ps))
  }

  lemma SendStep(s: Service, flash: Flash, kind: SessionKind, ps: seq<Packet>, port: Port,
                 packets: Word, words: U32, entry: U32, o: Outcome)
    requires ps != [] && AllSized(ps, MAX_DATA) && AllSized(ps, s.maxDataWords) && Works(port) && !kind.NoSession?
    requires |ps| <= packets && |Carried(ps)| <= words
    requires Sent(s, flash, kind, ps[..|ps| - 1], packets, words, entry, o) && o.status == OK
    ensures Sent(s, flash, kind, ps, packets, words, entry,
                 Data(o.service, o.flash, kind, DataRequest(ps[|ps| - 1]), port))
  {
    hide Data, DataRequest, Carried, Takes, FlashAfter, Progress, Evolved;
    var front, last := ps[..|ps| - 1], ps[|ps| - 1];
    var after := Data(o.service, o.flash, kind, DataRequest(last), port);
    CarriedStep(ps);
    EvolvedKeeps(s, o.service, front != [] && kind.ProgramSession?);
    SendOne(o.service, o.flash, kind, port, packets, words, entry, |front|, |Carried(front)|, last);
    if after.status == OK {
      EvolvedTwice(s, o.service, after.service, front != [] && kind.ProgramSession?, kind.ProgramSession?);
    }
  }

  lemma RefusedStaysRefused(kind: SessionKind, flash: Flash, ps: seq<Packet>)
    requires ps != [] && AllSized(ps, MAX_DATA) && !AllTaken(kind, flash, ps[..|ps| - 1])
    ensures !AllTaken(kind, flash, ps)
  {
  }

  lemma {:induction false} SendsAll(s: Service, flash: Flash, kind: SessionKind, ps: seq<Packet>, port: Port,
                                    packets: Word, words: U32, entry: U32)
    requires AllSized(ps, MAX_DATA) && AllSized(ps, s.maxDataWords) && Works(port) && !kind.NoSession?
    requires Progress(s, kind, packets, words, entry, 0, 0)
    requires |ps| <= packets && |Carried(ps)| <= words
    ensures Sent(s, flash, kind, ps, packets, words, entry, SendAll(s, flash, kind, ps, port))
  {
    if ps == [] {
    } else {
      hide Data, DataRequest, Carried, Progress, Delivered, Evolved;
      CarriedStep(ps);
      SendsAll(s, flash, kind, ps[..|ps| - 1], port, packets, words, entry);
      var o := SendAll(s, flash, kind, ps[..|ps| - 1], port);
      if o.status == OK {
        SendStep(s, flash, kind, ps, port, packets, words, entry, o);
      } else {
        RefusedStaysRefused(kind, flash, ps);
      }
    }
  }

  // ---------------------------------------------------------------- a transfer

  /** BEGIN, all data commands, END; stops at the first refusal. */
  function Transfer(s: Service, flash: Flash, kind: SessionKind, ps: seq<Packet>, entry: U32, port: Port): Outcome
    requires AllSized(ps, MAX_DATA) && |ps| < 0x1_0000 && |Carried(ps)| < 0x1_0000_0000
  {
    var begun := Begin(s, flash, kind, BeginRequest(|ps|, |Carried(ps)|, entry), port);
    if begun.status != OK then begun
    else
      var sent := SendAll(begun.service, begun.flash, kind, ps, port);
      if sent.status != OK then sent
      else End(sent.service, sent.flash, kind, EndRequest(|ps|, |Carried(ps)|))
  }

  lemma BeginAccepts(s: Service, flash: Flash, kind: SessionKind, packets: Word, words: U32, entry: U32, port: Port)
    requires s.session == IDLE && Works(port) && packets > 0 && words > 0
    ensures var o := Begin(s, flash, kind, BeginRequest(packets, words, entry), port);
      && o.status == OK && o.flash == flash
      && o.service == s.(flashInitialized := true, session := o.service.session)
      && Progress(o.service, kind, packets, words, entry, 0, 0)
  {
    JoinSplit(words);
    JoinSplit(entry);
  }

  lemma EndAccepts(s: Service, flash: Flash, kind: SessionKind, packets: Word, words: U32, entry: U32)
    requires !kind.NoSession? && Progress(s, kind, packets, words, entry, packets, words)
    ensures var o := End(s, flash, kind, EndRequest(packets, words));
      && o.status == OK && o.flash == flash
      && o.service == s.(session := IDLE, verifySucceeded := s.verifySucceeded || kind.VerifySession?)
  {
    JoinSplit(packets);
    JoinSplit(words);
  }

  /** A transfer of the PC from an idle service on a working port succeeds exactly when
      every packet fits; then Flash is what the packets make of it, and the verify flag
      is set by a VERIFY and cleared by a PROGRAM transfer. */
  lemma TransferAcceptsExactly(s: Service, flash: Flash, kind: SessionKind, ps: seq<Packet>, entry: U32, port: Port)
    requires AllSized(ps, MAX_DATA) && AllSized(ps, s.maxDataWords) && 0 < |ps| < 0x1_0000
    requires 0 < |Carried(ps)| < 0x1_0000_0000 && s.session == IDLE && Works(port) && !kind.NoSession?
    ensures var o := Transfer(s, flash, kind, ps, entry, port);
      && (o.status == OK <==> AllTaken(kind, flash, ps))
      && (o.status == OK ==>
            && o.service == s.(flashInitialized := true, verifySucceeded := kind.VerifySession?)
            && o.flash == FlashAfterAll(kind, flash, ps))
  {
    hide Begin, End, SendAll, BeginRequest, EndRequest, Carried, AllTaken, FlashAfterAll, AllSized;
    var words := |Carried(ps)|;
    BeginAccepts(s, flash, kind, |ps|, words, entry, port);
    var begun := Begin(s, flash, kind, BeginRequest(|ps|, words, entry), port);
    SendsAll(begun.service, flash, kind, ps, port, |ps|, words, entry);
    var sent := SendAll(begun.service, flash, kind, ps, port);
    if sent.status == OK {
      EndAccepts(sent.service, sent.flash, kind, |ps|, words, entry);
    }
  }

  // ---------------------------------------------------------------- what is in Flash

  predicate AllPlaced(ps: seq<Packet>)
    requires AllSized(ps, MAX_DATA)
  {
    forall k :: 0 <= k < |ps| ==> Placed(ps[k])
  }

  predicate AllHeld(flash: Flash, ps: seq<Packet>)
    requires AllSized(ps, MAX_DATA) && AllPlaced(ps)
  {
    forall k :: 0 <= k < |ps| ==> Held(flash, ps[k])
  }

  /** A PROGRAM transfer succeeds exactly when every packet lies in one sector of the
      App area. */
  lemma {:induction false} ProgramTakes(flash: Flash, ps: seq<Packet>)
    requires AllSized(ps, MAX_DATA)
    ensures AllTaken(ProgramSession, flash, ps) <==> AllPlaced(ps)
  {
    if ps == [] {
    } else {
      hide Placed;
      var front, last := ps[..|ps| - 1], ps[|ps| - 1];
      ProgramTakes(flash, front);
      assert forall k :: 0 <= k < |front| ==> front[k] == ps[k];
    }
  }

  /** A VERIFY transfer succeeds exactly when Flash also holds every packet, and it
      changes nothing. */
  lemma {:induction false} VerifyTakes(flash: Flash, ps: seq<Packet>)
    requires AllSized(ps, MAX_DATA)
    ensures AllTaken(VerifySession, flash, ps) <==> AllPlaced(ps) && AllHeld(flash, ps)
    ensures AllTaken(VerifySession, flash, ps) ==> FlashAfterAll(VerifySession, flash, ps) == flash
  {
    if ps == [] {
    } else {
      hide Placed, Held;
      var front, last := ps[..|ps| - 1], ps[|ps| - 1];
      VerifyTakes(flash, front);
      assert forall k :: 0 <= k < |front| ==> front[k] == ps[k];
    }
  }

  function WordAfter(flash: Flash, ps: seq<Packet>, a: int): Word
    requires APP_START <= a < APP_END
  {
    if StoredAt(ps, a).Some? then StoredAt(ps, a).value else AppWord(flash, a)
  }

  lemma PlacedInApp(p: Packet)
    requires p.address < 0x1_0000_0000 && Placed(p)
    ensures APP_START <= p.address && p.address + |p.words| <= APP_END
  {
  }

  lemma {:induction false} ProgrammedMemory(flash: Flash, ps: seq<Packet>, a: int)
    requires AllSized(ps, MAX_DATA) && AllTaken(ProgramSession, flash, ps) && APP_START <= a < APP_END
    ensures AppWord(FlashAfterAll(ProgramSession, flash, ps), a) == WordAfter(flash, ps, a)
    ensures FlashAfterAll(ProgramSession, flash, ps).journal == flash.journal
  {
    if ps == [] {
    } else {
      hide Placed, AppWord;
      var front, last := ps[..|ps| - 1], ps[|ps| - 1];
      ProgrammedMemory(flash, front, a);
      PlacedInApp(last);
      var before := FlashAfterAll(ProgramSession, flash, front);
      StoredWord(before, last, a);
    }
  }

  lemma StoredWord(flash: Flash, p: Packet, a: int)
    requires APP_START <= p.address && p.address + |p.words| <= APP_END && APP_START <= a < APP_END
    ensures AppWord(StoreApp(flash, p.address, p.words, |p.words|), a) ==
            if p.address <= a < p.address + |p.words| then p.words[a - p.address] else AppWord(flash, a)
  {
  }

  /** No packet is overwritten by a later one with other words. */
  predicate Consistent(ps: seq<Packet>) {
    forall k, i :: 0 <= k < |ps| && 0 <= i < |ps[k].words| ==> StoredAt(ps, ps[k].address + i) == Some(ps[k].words[i])
  }

  lemma HeldMeans(flash: Flash, p: Packet)
    requires p.address < 0x1_0000_0000 && Placed(p)
    ensures Held(flash, p) <==> forall i :: 0 <= i < |p.words| ==> AppWord(flash, p.address + i) == p.words[i]
  {
    hide AddressAllowed, SectorOf;
    PlacedInApp(p);
    var at := p.address - APP_START;
    var slice := flash.app[at..at + |p.words|];
    assert forall i :: 0 <= i < |p.words| ==> slice[i] == AppWord(flash, p.address + i);
    if forall i :: 0 <= i < |p.words| ==> AppWord(flash, p.address + i) == p.words[i] {
      assert slice == p.words;
    }
  }

  lemma {:induction false} StoredIsSome(ps: seq<Packet>, k: nat, a: int)
    requires k < |ps| && ps[k].address <= a < ps[k].address + |ps[k].words|
    ensures StoredAt(ps, a).Some?
  {
    if k < |ps| - 1 {
      assert ps[..|ps| - 1][k] == ps[k];
      StoredIsSome(ps[..|ps| - 1], k, a);
    }
  }

  /** Programming and then verifying the same packets succeeds exactly when the packets
      agree with one another. */
  lemma ProgramThenVerify(flash: Flash, ps: seq<Packet>)
    requires AllSized(ps, MAX_DATA) && AllPlaced(ps)
    ensures AllTaken(ProgramSession, flash, ps)
    ensures AllTaken(VerifySession, FlashAfterAll(ProgramSession, flash, ps), ps) <==> Consistent(ps)
  {
    hide Placed, Held, AppWord, AllTaken, Consistent, StoredAt;
    ProgramTakes(flash, ps);
    var after := FlashAfterAll(ProgramSession, flash, ps);
    VerifyTakes(after, ps);
    if Consistent(ps) {
      forall k | 0 <= k < |ps|
        ensures Held(after, ps[k])
      {
        HeldAfterProgram(flash, ps, k);
      }
    }
    if AllHeld(after, ps) {
      ConsistentIfHeld(flash, ps);
    }
  }

  lemma ConsistentIfHeld(flash: Flash, ps: seq<Packet>)
    requires AllSized(ps, MAX_DATA) && AllPlaced(ps) && AllTaken(ProgramSession, flash, ps)
    requires AllHeld(FlashAfterAll(ProgramSession, flash, ps), ps)
    ensures Consistent(ps)
  {
    hide Placed, Held, AppWord, AllTaken;
    var after := FlashAfterAll(ProgramSession, flash, ps);
    forall k, i | 0 <= k < |ps| && 0 <= i < |ps[k].words|
      ensures StoredAt(ps, ps[k].address + i) == Some(ps[k].words[i])
    {
      HeldMeans(after, ps[k]);
      PlacedInApp(ps[k]);
      ProgrammedMemory(flash, ps, ps[k].address + i);
      StoredIsSome(ps, k, ps[k].address + i);
    }
  }

  lemma HeldAfterProgram(flash: Flash, ps: seq<Packet>, k: nat)
    requires AllSized(ps, MAX_DATA) && AllPlaced(ps) && k < |ps| && Consistent(ps)
    requires AllTaken(ProgramSession, flash, ps)
    ensures Held(FlashAfterAll(ProgramSession, flash, ps), ps[k])
  {
    hide Placed, Held, AppWord, AllTaken, WordAfter, StoredAt;
    var after := FlashAfterAll(ProgramSession, flash, ps);
    HeldMeans(after, ps[k]);
    PlacedInApp(ps[k]);
    forall i | 0 <= i < |ps[k].words|
      ensures AppWord(after, ps[k].address + i) == ps[k].words[i]
    {
      ProgrammedMemory(flash, ps, ps[k].address + i);
      assert StoredAt(ps, ps[k].address + i) == Some(ps[k].words[i]);
      WordAfterStored(flash, ps, ps[k].address + i);
    }
  }

  lemma WordAfterStored(flash: Flash, ps: seq<Packet>, a: int)
    requires APP_START <= a < APP_END && StoredAt(ps, a).Some?
    ensures WordAfter(flash, ps, a) == StoredAt(ps, a).value
  {
  }

  /** The packets share no address. */
  predicate PacketsApart(ps: seq<Packet>) {
    forall i, k :: 0 <= i < k < |ps| ==>
      ps[i].address + |ps[i].words| <= ps[k].address || ps[k].address + |ps[k].words| <= ps[i].address
  }

  lemma {:induction false} StoredFinds(ps: seq<Packet>, k: nat, a: int)
    requires PacketsApart(ps) && k < |ps| && ps[k].address <= a < ps[k].address + |ps[k].words|
    ensures StoredAt(ps, a) == Some(ps[k].words[a - ps[k].address])
  {
    var front := ps[..|ps| - 1];
    if k < |front| {
      assert forall i :: 0 <= i < |front| ==> front[i] == ps[i];
      StoredFinds(front, k, a);
    }
  }

  /** Packets that share no address always agree. */
  lemma ApartIsConsistent(ps: seq<Packet>)
    requires PacketsApart(ps)
    ensures Consistent(ps)
  {
    forall k, i | 0 <= k < |ps| && 0 <= i < |ps[k].words|
      ensures StoredAt(ps, ps[k].address + i) == Some(ps[k].words[i])
    {
      StoredFinds(ps, k, ps[k].address + i);
    }
  }
}
