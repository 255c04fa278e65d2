/** Every run of the boot core over RAM: what a load session has consumed, and when
    the publish words may be trusted. */
module CoreRuns {
  import opened Words
  import opened Crc
  import opened Protocol
  import opened Blocks
  import opened RamMap
  import opened CoreSpec

  /** A core, its RAM, and the data commands accepted since the last BEGIN. */
  datatype Tracked = Tracked(core: Core, ram: Ram, blocks: seq<Block>)

  datatype Event =
    | Startup(init: Init)
    | Restart(init: Init)
    | Begin(p: Payload)
    | Data(p: Payload)
    | End(p: Payload)
    | Check(p: Payload)
    | ServiceAttach(p: Payload, init: Init)
    | ServiceCall(runtime: seq<Word>, data: seq<Word>)

  function BlockOf(p: Payload): Block
    requires |p| >= 5
  {
    Block(Field(p, 3), Field(p, 0), p[5..])
  }

  function Take(t: Tracked, o: Outcome, blocks: seq<Block>): Tracked {
    Tracked(o.core, o.ram, if o.status == OK then blocks else t.blocks)
  }

  /** `Startup` is the validation before the core runs, `Restart` a fresh core that
      restores the service found in RAM, `ServiceCall` a call of the service by the
      core or by the App, which changes its runtime state and its mutable data. */
  function Step(t: Tracked, ev: Event): Tracked {
    match ev
    case Startup(init) => t.(ram := Validate(t.ram, init).0)
    case Restart(init) => Take(t, Restore(Core(NO_LOAD, NO_SERVICE), t.ram, init), t.blocks)
    case Begin(p) => Take(t, LoadBegin(t.core, t.ram, p), [])
    case Data(p) => Take(t, LoadData(t.core, t.ram, p), if |p| < 5 then t.blocks else t.blocks + [BlockOf(p)])
    case End(p) => Take(t, LoadEnd(t.core, t.ram, p), t.blocks)
    case Check(p) => Take(t, CheckCrc(t.core, t.ram, p), t.blocks)
    case ServiceAttach(p, init) => Take(t, Attach(t.core, t.ram, p, init), t.blocks)
    case ServiceCall(runtime, data) =>
      if |runtime| != RUNTIME_WORDS || |data| != DATA_WORDS then t else t.(ram := AfterCall(t.ram, runtime, data))
  }

  /** What a call of the service leaves in RAM. */
  function AfterCall(ram: Ram, runtime: seq<Word>, data: seq<Word>): Ram
    requires |runtime| == RUNTIME_WORDS && |data| == DATA_WORDS
  {
    Store(Store(ram, RUNTIME_ADDRESS, runtime), DATA_ADDRESS, data)
  }

  function After(ram: Ram, init: Init, run: seq<Event>): Tracked {
    if run == [] then Tracked(Core(NO_LOAD, NO_SERVICE), Validate(ram, init).0, [])
    else Step(After(ram, init, run[..|run| - 1]), run[|run| - 1])
  }

  // ---------------------------------------------------------------- session conservation

  /** An open session describes exactly the blocks it accepted; a finished image carries
      the CRC-32 of all their words. */
  predicate LoadInvariant(load: RamLoad, blocks: seq<Block>) {
    && (load.active || load.imageReady ==>
          && load.processedPackets == |blocks| <= load.expectedPackets < 0x1_0000
          && load.processedWords == |WordsOf(blocks)| <= load.expectedWords
          && InOrder(blocks))
    && (load.active ==>
          && !load.imageReady
          && load.expectedBlock == |blocks|
          && load.crc32 == Crc32Fold(CRC32_INIT, WordsOf(blocks)))
    && (load.imageReady ==>
          && load.processedPackets == load.expectedPackets
          && load.processedWords == load.expectedWords
          && load.crc32 == Crc32Of(WordsOf(blocks)))
  }

  lemma AcceptedBlock(load: RamLoad, p: Payload)
    requires LoadDataStatus(load, p) == OK && load.processedWords <= load.expectedWords
    ensures |BlockOf(p).data| == p[2] <= load.expectedWords - load.processedWords
    ensures BlockOf(p).index == load.expectedBlock
    ensures load.processedPackets < load.expectedPackets
  {
  }

  lemma SmallSum(a: U32, b: nat, limit: U32)
    requires a + b <= limit
    ensures (a + b) % 0x1_0000_0000 == a + b
  {
  }

  lemma AdvanceKeepsLoad(load: RamLoad, b: Block, blocks: seq<Block>)
    requires LoadInvariant(load, blocks) && load.active && |b.data| < 0x1_0000
    requires b.index == load.expectedBlock && load.processedPackets < load.expectedPackets
    requires |b.data| <= load.expectedWords - load.processedWords
    ensures LoadInvariant(AdvanceLoad(load, b.address, b.data), blocks + [b])
  {
    WordsOfStep(blocks, b);
    InOrderStep(blocks, b);
    Crc32FoldConcat(CRC32_INIT, WordsOf(blocks), b.data);
    SmallSum(load.processedPackets, 1, load.expectedPackets);
    SmallSum(load.processedWords, |b.data|, load.expectedWords);
  }

  lemma DataKeepsLoad(t: Tracked, p: Payload)
    requires LoadInvariant(t.core.load, t.blocks)
    ensures LoadInvariant(Step(t, Data(p)).core.load, Step(t, Data(p)).blocks)
  {
    var o := LoadData(t.core, t.ram, p);
    if o.status == OK {
      AcceptedBlock(t.core.load, p);
      AdvanceKeepsLoad(t.core.load, BlockOf(p), t.blocks);
    } else {
      assert o.core.load == NO_LOAD || o.core.load == t.core.load;
    }
  }

  lemma StepKeepsLoad(t: Tracked, ev: Event)
    requires LoadInvariant(t.core.load, t.blocks)
    ensures LoadInvariant(Step(t, ev).core.load, Step(t, ev).blocks)
  {
    if ev.Data? {
      DataKeepsLoad(t, ev.p);
    }
  }

  lemma {:induction false} RunsKeepLoad(ram: Ram, init: Init, run: seq<Event>)
    ensures LoadInvariant(After(ram, init, run).core.load, After(ram, init, run).blocks)
  {
    if run == [] {
    } else {
      RunsKeepLoad(ram, init, run[..|run| - 1]);
      StepKeepsLoad(After(ram, init, run[..|run| - 1]), run[|run| - 1]);
    }
  }

  /** END answers OK exactly when the declared packets and words all arrived, in order,
      and the entry point lies in the loaded span. */
  lemma EndAcceptsExactly(ram: Ram, init: Init, run: seq<Event>, p: Payload)
    requires |p| == 6
    ensures var t := After(ram, init, run);
      var load := t.core.load;
      LoadEnd(t.core, t.ram, p).status == OK <==>
        && load.active
        && Field(p, 0) == load.expectedPackets == |t.blocks|
        && Field(p, 2) == load.expectedWords == |WordsOf(t.blocks)|
        && InOrder(t.blocks)
        && load.loadedStart <= load.entryPoint < load.loadedEnd
  {
    RunsKeepLoad(ram, init, run);
  }

  /** CHECK_CRC answers OK exactly for the CRC-32 and the length of the concatenated
      payloads of a completed session. */
  lemma CheckAcceptsExactly(ram: Ram, init: Init, run: seq<Event>, p: Payload)
    requires |p| == 5 && p[4] == 0
    ensures var t := After(ram, init, run);
      CheckCrc(t.core, t.ram, p).status == OK <==>
        && t.core.load.imageReady
        && Field(p, 0) == Crc32Of(WordsOf(t.blocks))
        && Field(p, 2) == |WordsOf(t.blocks)|
  {
    RunsKeepLoad(ram, init, run);
  }

  // ---------------------------------------------------------------- publish words

  /** The range a valid service describes starts at the export table. */
  lemma ValidRange(ram: Ram)
    requires ServiceValid(ram)
    ensures Field(Header(ram), 6) == EXPORT_ADDRESS < Field(Header(ram), 8) <= RAM_SIZE
  {
    hide Crc32Of, Join, HeaderIntact, HeaderSupported, CapabilitiesComplete, ConfirmPointerValid, IsInWriteRegion;
    var h := Header(ram);
    WriteRegionMeaning(Field(h, 6), Field(h, 8) - Field(h, 6));
  }

  lemma SameSlice(a: Ram, b: Ram, lo: nat, hi: nat, end: nat)
    requires lo <= end <= hi <= RAM_SIZE && a[lo..hi] == b[lo..hi]
    ensures a[lo..end] == b[lo..end]
    ensures forall k :: lo <= k < hi ==> a[k] == b[k]
  {
    assert forall k :: lo <= k < hi ==> a[k] == a[lo..hi][k - lo] && b[k] == b[lo..hi][k - lo];
  }

  /** The checks read only the header and RAM from the export table on. */
  lemma ValidityIsLocal(a: Ram, b: Ram, hi: nat)
    requires Header(a) == Header(b) && EXPORT_ADDRESS + 2 <= hi <= RAM_SIZE
    requires a[EXPORT_ADDRESS..hi] == b[EXPORT_ADDRESS..hi]
    requires ServiceValid(a) && ImmutableEnd(a) <= hi
    ensures ServiceValid(b) && ImmutableEnd(b) == ImmutableEnd(a)
  {
    hide Crc32Of, Join, Header, HeaderIntact, HeaderSupported, LayoutMatches, RangesValid, CapabilitiesComplete;
    ValidRange(a);
    SameSlice(a, b, EXPORT_ADDRESS, hi, ImmutableEnd(a));
    assert a[Field(Header(a), 6)..Field(Header(a), 8)] == b[Field(Header(b), 6)..Field(Header(b), 8)];
    assert ConfirmPointerValid(b, Field(Header(b), 6), Field(Header(b), 8)) ==
           ConfirmPointerValid(a, Field(Header(a), 6), Field(Header(a), 8));
  }

  /** Writes between the header and the export table change no check. */
  lemma FrontWriteKeepsValidity(ram: Ram, address: nat, data: seq<Word>)
    requires HEADER_ADDRESS + HEADER_WORDS <= address && address + |data| <= EXPORT_ADDRESS
    ensures ValidationStatus(Store(ram, address, data)) == ValidationStatus(ram)
    ensures ImmutableEnd(Store(ram, address, data)) == ImmutableEnd(ram)
  {
    var written := Store(ram, address, data);
    StoreKeepsRange(ram, address, data, HEADER_ADDRESS, HEADER_ADDRESS + HEADER_WORDS);
    var h := Header(ram);
    if LayoutMatches(h) && RangesValid(h) {
      StoreKeepsRange(ram, address, data, Field(h, 6), Field(h, 8));
    }
  }

  /** Published means valid, with the immutable range ending by `limit`. */
  predicate PublishSafe(ram: Ram, limit: nat) {
    Published(ram) ==> ServiceValid(ram) && ImmutableEnd(ram) <= limit
  }

  /** A valid service in RAM ends by `limit`. */
  predicate EndsBy(ram: Ram, limit: nat) {
    ServiceValid(ram) ==> ImmutableEnd(ram) <= limit
  }

  /** Nothing the events of a run write past `limit` goes unnoticed: the core guards the
      window, the service itself writes only its mutable data at the end of it. */
  predicate Guarded(run: seq<Event>, limit: nat) {
    limit <= WINDOW_END && forall k :: 0 <= k < |run| ==> run[k].ServiceCall? ==> limit <= DATA_ADDRESS
  }

  lemma FrontWriteKeepsHeader(ram: Ram, address: nat, data: seq<Word>)
    requires HEADER_ADDRESS + HEADER_WORDS <= address && address + |data| <= EXPORT_ADDRESS
    ensures Header(Store(ram, address, data)) == Header(ram)
  {
    StoreKeepsRange(ram, address, data, HEADER_ADDRESS, HEADER_ADDRESS + HEADER_WORDS);
  }

  function Initialised(ram: Ram, init: Init): Ram {
    Store(Unpublish(ram), RUNTIME_ADDRESS, init.runtime)
  }

  lemma ValidateKeepsValidity(ram: Ram, init: Init)
    ensures ValidationStatus(Unpublish(ram)) == ValidationStatus(ram)
    ensures ValidationStatus(Initialised(ram, init)) == ValidationStatus(ram)
    ensures ValidationStatus(Publish(Initialised(ram, init))) == ValidationStatus(ram)
  {
    FrontWriteKeepsValidity(ram, PUBLISH_ADDRESS, [PUBLISH_INVALID, PUBLISH_INVALID]);
    FrontWriteKeepsValidity(Unpublish(ram), RUNTIME_ADDRESS, init.runtime);
    FrontWriteKeepsValidity(Initialised(ram, init), PUBLISH_ADDRESS, [PUBLISH_VALID, PUBLISH_VALID_INVERSE]);
  }

  lemma ValidateKeepsHeader(ram: Ram, init: Init)
    ensures Header(Validate(ram, init).0) == Header(ram)
  {
    FrontWriteKeepsHeader(ram, PUBLISH_ADDRESS, [PUBLISH_INVALID, PUBLISH_INVALID]);
    FrontWriteKeepsHeader(Unpublish(ram), RUNTIME_ADDRESS, init.runtime);
    FrontWriteKeepsHeader(Initialised(ram, init), PUBLISH_ADDRESS, [PUBLISH_VALID, PUBLISH_VALID_INVERSE]);
  }

  /** What a validation publishes. */
  lemma ValidatePublishes(ram: Ram, init: Init)
    ensures var v := Validate(ram, init);
      && (v.1 == OK <==> ServiceValid(ram) && init.status == OK)
      && (v.1 == OK <==> Published(v.0))
      && (v.1 == OK ==> ServiceValid(v.0))
  {
    ValidateKeepsValidity(ram, init);
  }

  lemma ValidateIsSafe(ram: Ram, init: Init, limit: nat)
    requires EndsBy(ram, limit)
    ensures PublishSafe(Validate(ram, init).0, limit)
  {
    ValidatePublishes(ram, init);
    ValidateKeepsHeader(ram, init);
  }

  /** A write that ends before the header or starts at or behind `limit` changes no check
      of a service that ends by `limit`. */
  lemma OutsideWriteKeepsValidity(ram: Ram, address: nat, data: seq<Word>, limit: nat)
    requires EXPORT_ADDRESS + 2 <= limit <= RAM_SIZE
    requires address + |data| <= RAM_SIZE && (address + |data| <= HEADER_ADDRESS || limit <= address)
    requires ServiceValid(ram) && ImmutableEnd(ram) <= limit
    ensures ServiceValid(Store(ram, address, data))
    ensures ImmutableEnd(Store(ram, address, data)) == ImmutableEnd(ram)
  {
    StoreKeepsRange(ram, address, data, HEADER_ADDRESS, HEADER_ADDRESS + HEADER_WORDS);
    StoreKeepsRange(ram, address, data, EXPORT_ADDRESS, limit);
    ValidityIsLocal(ram, Store(ram, address, data), limit);
  }

  lemma WriteIsSafe(ram: Ram, address: U32, data: seq<Word>, limit: nat)
    requires 0 < |data| < 0x1_0000 && PublishSafe(ram, limit) && limit <= WINDOW_END
    ensures PublishSafe(LoadWrite(ram, address, data), limit)
  {
    WriteRegionMeaning(address, |data|);
    if IsInWriteRegion(address, |data|) && !OverlapsWindow(address, |data|) && Published(ram) {
      OutsideWriteKeepsValidity(ram, address, data, WINDOW_END);
    }
  }

  lemma CallIsSafe(ram: Ram, runtime: seq<Word>, data: seq<Word>, limit: nat)
    requires |runtime| == RUNTIME_WORDS && |data| == DATA_WORDS && PublishSafe(ram, limit) && limit <= DATA_ADDRESS
    ensures PublishSafe(AfterCall(ram, runtime, data), limit)
  {
    hide ServiceValid, ImmutableEnd;
    FrontWriteKeepsValidity(ram, RUNTIME_ADDRESS, runtime);
    CallKeepsWords(ram, runtime, data);
    if Published(ram) {
      ValidAfterFrontWrite(ram, runtime);
      OutsideWriteKeepsValidity(Store(ram, RUNTIME_ADDRESS, runtime), DATA_ADDRESS, data, DATA_ADDRESS);
    }
  }

  lemma ValidAfterFrontWrite(ram: Ram, runtime: seq<Word>)
    requires |runtime| == RUNTIME_WORDS && ServiceValid(ram)
    ensures ServiceValid(Store(ram, RUNTIME_ADDRESS, runtime))
  {
    FrontWriteKeepsValidity(ram, RUNTIME_ADDRESS, runtime);
  }

  lemma CallKeepsWords(ram: Ram, runtime: seq<Word>, data: seq<Word>)
    requires |runtime| == RUNTIME_WORDS && |data| == DATA_WORDS
    ensures Published(AfterCall(ram, runtime, data)) == Published(ram)
  {
  }

  /** Events that validate the service in RAM. */
  predicate Validates(ev: Event) {
    ev.Startup? || ev.Restart? || ev.ServiceAttach?
  }

  lemma StepIsSafe(t: Tracked, ev: Event, limit: nat)
    requires PublishSafe(t.ram, limit) && (Validates(ev) ==> EndsBy(t.ram, limit)) && Guarded([ev], limit)
    ensures PublishSafe(Step(t, ev).ram, limit)
  {
    hide ServiceValid, ImmutableEnd, LoadWrite, AfterCall;
    assert [ev][0] == ev;
    match ev
    case Startup(init) => ValidateIsSafe(t.ram, init, limit);
    case Restart(init) => ValidateIsSafe(t.ram, init, limit);
    case Data(p) =>
      if LoadDataStatus(t.core.load, p) == OK {
        WriteIsSafe(t.ram, Field(p, 0), p[5..], limit);
      }
    case ServiceAttach(p, init) => ValidateIsSafe(t.ram, init, limit);
    case ServiceCall(runtime, data) =>
      if |runtime| == RUNTIME_WORDS && |data| == DATA_WORDS {
        CallIsSafe(t.ram, runtime, data, limit);
      }
    case _ =>
  }

  /** From the first validation on, whatever RAM held before it: the publish words read
      VALID only while the service in RAM passes every check, if each service that a
      validation meets ends by the limit. The limit is the end of the window, or the start
      of the mutable data in runs that call the service. */
  lemma {:induction false} PublishedIsValid(ram: Ram, init: Init, run: seq<Event>, limit: nat)
    requires EndsBy(ram, limit) && Guarded(run, limit)
    requires forall k :: 0 <= k < |run| ==> Validates(run[k]) ==> EndsBy(After(ram, init, run[..k]).ram, limit)
    ensures PublishSafe(After(ram, init, run).ram, limit)
  {
    if run == [] {
      ValidateIsSafe(ram, init, limit);
    } else {
      var before := run[..|run| - 1];
      forall k | 0 <= k < |before| && Validates(before[k])
        ensures EndsBy(After(ram, init, before[..k]).ram, limit)
      {
        assert before[..k] == run[..k] && before[k] == run[k];
      }
      PublishedIsValid(ram, init, before, limit);
      assert Guarded([run[|run| - 1]], limit);
      StepIsSafe(After(ram, init, before), run[|run| - 1], limit);
    }
  }

  // ---------------------------------------------------------------- images past the limits

  const CHANGED: Word := 0

  function Different(value: Word): Word {
    if value == CHANGED then 1 else CHANGED
  }

  lemma ImmutableRange(ram: Ram)
    requires ServiceValid(ram)
    ensures EXPORT_ADDRESS == Field(Header(ram), 6) < ImmutableEnd(ram) <= RAM_SIZE
    ensures Crc32Of(ram[EXPORT_ADDRESS..ImmutableEnd(ram)]) == Field(Header(ram), 24)
  {
    hide Crc32Of, Join, HeaderIntact, HeaderSupported, LayoutMatches, RangesValid, CapabilitiesComplete,
         ConfirmPointerValid;
    ValidRange(ram);
  }

  lemma ChangedRange(ram: Ram, address: nat, word: Word, lo: nat, hi: nat)
    requires lo <= address < hi <= RAM_SIZE
    ensures Store(ram, address, [word])[lo..hi] == ram[lo..hi][address - lo := word]
  {
  }

  /** Any changed word of the immutable range breaks its CRC. */
  lemma ImmutableChangeIsFound(ram: Ram, a: nat, word: Word)
    requires ServiceValid(ram) && EXPORT_ADDRESS <= a < ImmutableEnd(ram) <= RAM_SIZE && word != ram[a]
    ensures !ServiceValid(Store(ram, a, [word]))
  {
    hide ServiceValid, Crc32Of;
    var changed, end := Store(ram, a, [word]), ImmutableEnd(ram);
    ImmutableRange(ram);
    StoreKeepsRange(ram, a, [word], HEADER_ADDRESS, HEADER_ADDRESS + HEADER_WORDS);
    assert Header(changed) == Header(ram);
    ChangedRange(ram, a, word, EXPORT_ADDRESS, end);
    Crc32DetectsOneWord(ram[EXPORT_ADDRESS..end], a - EXPORT_ADDRESS, word);
    if ServiceValid(changed) {
      ImmutableRange(changed);
    }
  }

  lemma WriteAtWindowEnd(ram: Ram, word: Word)
    ensures LoadWrite(ram, WINDOW_END, [word]) == Store(ram, WINDOW_END, [word])
    ensures Published(Store(ram, WINDOW_END, [word])) == Published(ram)
  {
  }

  /** One word written just past the window goes unnoticed by the overlap test but
      breaks the CRC of an image that reaches that far. */
  lemma WritePastWindow(ram: Ram)
    requires Published(ram) && ServiceValid(ram) && ImmutableEnd(ram) > WINDOW_END
    ensures var after := LoadWrite(ram, WINDOW_END, [Different(ram[WINDOW_END])]);
      Published(after) && !ServiceValid(after)
  {
    var word := Different(ram[WINDOW_END]);
    WriteAtWindowEnd(ram, word);
    ImmutableRange(ram);
    ImmutableChangeIsFound(ram, WINDOW_END, word);
  }

  /** Exactly the images that end inside the window are protected against every write. */
  lemma WindowProtectsExactly(ram: Ram)
    requires Published(ram) && ServiceValid(ram)
    ensures (forall address: U32, data: seq<Word> :: 0 < |data| <= MAX_PAYLOAD - 5 ==>
               (Published(LoadWrite(ram, address, data)) ==> ServiceValid(LoadWrite(ram, address, data))))
            <==> ImmutableEnd(ram) <= 0x01_6000
  {
    if ImmutableEnd(ram) <= WINDOW_END {
      forall address: U32, data: seq<Word> | 0 < |data| <= MAX_PAYLOAD - 5
        ensures Published(LoadWrite(ram, address, data)) ==> ServiceValid(LoadWrite(ram, address, data))
      {
        WriteIsSafe(ram, address, data, WINDOW_END);
      }
    } else {
      WritePastWindow(ram);
      var data := [Different(ram[WINDOW_END])];
      assert 0 < |data| <= MAX_PAYLOAD - 5;
    }
  }

  /** A call that changes one word of the mutable data. */
  lemma CallChangesOneWord(ram: Ram) returns (runtime: seq<Word>, data: seq<Word>)
    ensures |runtime| == RUNTIME_WORDS && |data| == DATA_WORDS
    ensures AfterCall(ram, runtime, data) == Store(ram, DATA_ADDRESS, [Different(ram[DATA_ADDRESS])])
  {
    runtime := ram[RUNTIME_ADDRESS..RUNTIME_ADDRESS + RUNTIME_WORDS];
    data := [Different(ram[DATA_ADDRESS])] + ram[DATA_ADDRESS + 1..DATA_ADDRESS + DATA_WORDS];
    assert Store(ram, RUNTIME_ADDRESS, runtime) == ram;
    assert AfterCall(ram, runtime, data) == Store(ram, DATA_ADDRESS, [Different(ram[DATA_ADDRESS])]);
  }

  /** What a call leaves in RAM: 62 words of runtime state and 0x500 of mutable data. */
  lemma CallWrites(ram: Ram, runtime: seq<Word>, data: seq<Word>, a: nat)
    requires |runtime| == RUNTIME_WORDS && |data| == DATA_WORDS && a < RAM_SIZE
    ensures AfterCall(ram, runtime, data)[a] ==
            if 0x01_5B00 <= a < 0x01_6000 then data[a - 0x01_5B00]
            else if 0x01_3022 <= a < 0x01_3060 then runtime[a - 0x01_3022]
            else ram[a]
  {
  }

  /** Exactly the images that end before the mutable data survive every service call. */
  lemma CallsKeepServiceExactly(ram: Ram)
    requires Published(ram) && ServiceValid(ram)
    ensures (forall runtime: seq<Word>, data: seq<Word> :: |runtime| == RUNTIME_WORDS && |data| == DATA_WORDS ==>
               ServiceValid(AfterCall(ram, runtime, data)))
            <==> ImmutableEnd(ram) <= 0x01_5B00
  {
    hide ServiceValid, AfterCall;
    if ImmutableEnd(ram) <= DATA_ADDRESS {
      forall runtime: seq<Word>, data: seq<Word> | |runtime| == RUNTIME_WORDS && |data| == DATA_WORDS
        ensures ServiceValid(AfterCall(ram, runtime, data))
      {
        CallIsSafe(ram, runtime, data, DATA_ADDRESS);
        CallKeepsWords(ram, runtime, data);
      }
    } else {
      ImmutableRange(ram);
      ImmutableChangeIsFound(ram, DATA_ADDRESS, Different(ram[DATA_ADDRESS]));
      var runtime, data := CallChangesOneWord(ram);
    }
  }
}
