/** The records of the journal word by word, in numbers. */
module RecordLayout {
  import opened Words
  import opened Crc
  import opened Record

  /** A slot is erased, or a scan accepts it exactly when these words hold these values. */
  lemma ValidRecordMeans(w: Slot)
    ensures Classify(w).Blank? <==> forall k :: 0 <= k < 64 ==> w[k] == 0xFFFF
    ensures Classify(w).Written? <==>
      && w[0] == 0x4D42 && w[1] == 0x4453 && w[2] == 1 && w[3] == 64
      && 1 <= w[4] <= 3 && w[7] == 1
      && w[10] == 0x2400 && w[11] == 0x0008
      && 0x08_2400 < Join(w[12], w[13]) <= 0x0C_0000
      && 0x08_2400 <= Join(w[14], w[15]) < 0x0C_0000 && w[14] % 8 == 0
      && 1 <= w[27] <= 3
      && Crc32Of(w[..62]) == Join(w[62], w[63])
  {
    hide Crc32Of;
    assert Classify(w).Blank? <==> w == Erased();
    ErasedMeans(w);
    assert w == Erased() ==> w[0] == 0xFFFF;
    AlignmentIsLow(w[14], w[15]);
    SplitJoin(w[10], w[11]);
    SplitJoin(0x2400, 0x0008);
  }

  lemma ErasedMeans(w: Slot)
    ensures w == Erased() <==> forall k :: 0 <= k < 64 ==> w[k] == 0xFFFF
  {
  }

  /** What the accepted record then says. */
  lemma ParsedFields(w: Slot)
    requires Classify(w).Written?
    ensures var e := Classify(w).entry;
      && e.kind == w[4] && e.sequence == Join(w[5], w[6])
      && e.slotId == w[7] && e.slotRole == w[8] && e.flags == w[9]
      && e.appStart == Join(w[10], w[11]) && e.appEnd == Join(w[12], w[13])
      && e.entryPoint == Join(w[14], w[15]) && e.imageSizeWords == Join(w[16], w[17])
      && e.imageCrc32 == Join(w[18], w[19])
      && e.versionMajor == w[20] && e.versionMinor == w[21] && e.versionPatch == w[22]
      && e.versionBuild == Join(w[23], w[24]) && e.deviceId == w[25] && e.cpuId == w[26] && e.attemptLimit == w[27]
  {
  }

  /** The 32-bit value in two words, low word first. */
  predicate Holds32(w: Slot, i: nat, value: U32)
    requires i + 1 < RECORD_WORDS
  {
    w[i] == value % 0x1_0000 && w[i + 1] == value / 0x1_0000
  }

  /** The words of an encoded record. */
  predicate Lays(w: Slot, e: Entry, attemptCount: Word) {
    && w[0] == 0x4D42 && w[1] == 0x4453 && w[2] == 1 && w[3] == 64
    && w[4] == e.kind && Holds32(w, 5, e.sequence) && w[7] == e.slotId && w[8] == e.slotRole && w[9] == e.flags
    && Holds32(w, 10, e.appStart) && Holds32(w, 12, e.appEnd) && Holds32(w, 14, e.entryPoint)
    && Holds32(w, 16, e.imageSizeWords) && Holds32(w, 18, e.imageCrc32)
    && w[20] == e.versionMajor && w[21] == e.versionMinor && w[22] == e.versionPatch
    && Holds32(w, 23, e.versionBuild) && w[25] == e.deviceId && w[26] == e.cpuId
    && w[27] == e.attemptLimit && w[28] == attemptCount
    && (forall k :: 29 <= k < 62 ==> w[k] == 0xFFFF)
    && Holds32(w, 62, Crc32Of(w[..62]))
  }

  lemma RecordWords(e: Entry, attemptCount: Word)
    ensures Lays(Encode(e, attemptCount), e, attemptCount)
  {
    hide Crc32Of, Encode;
    var w := Encode(e, attemptCount);
    EncodeSections(e, attemptCount);
    var head, image, version, blank := w[..10], w[10..20], w[20..29], w[29..62];
    assert forall k :: 0 <= k < 10 ==> w[k] == head[k];
    assert forall k :: 10 <= k < 20 ==> w[k] == image[k - 10];
    assert forall k :: 20 <= k < 29 ==> w[k] == version[k - 20];
    assert forall k :: 29 <= k < 62 ==> w[k] == blank[k - 29];
    SplitJoin(w[62], w[63]);
  }
}
