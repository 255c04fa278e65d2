/** The record builders, filling a 64-word buffer in place. */
module Builders {
  import opened Words
  import opened Crc
  import opened Record
  import opened Scan
  import opened Journal

  method WriteU32(words: array<Word>, lowIndex: nat, value: U32)
    requires lowIndex + 1 < words.Length
    modifies words
    ensures words[..] == old(words[..])[lowIndex := Low(value)][lowIndex + 1 := High(value)]
  {
    words[lowIndex] := Low(value);
    words[lowIndex + 1] := High(value);
  }

  method FillErased(words: array<Word>)
    requires words.Length == RECORD_WORDS
    modifies words
    ensures words[..] == Erased()
  {
    for index := 0 to RECORD_WORDS
      invariant forall k :: 0 <= k < index ==> words[k] == ERASED_WORD
    {
      words[index] := ERASED_WORD;
    }
  }

  /** Overwrites the words from `at` on. */
  method WriteSection(words: array<Word>, at: nat, section: seq<Word>)
    requires at + |section| <= words.Length
    modifies words
    ensures words[..] == old(words[..at]) + section + old(words[at + |section|..])
  {
    for k := 0 to |section|
      invariant words[at..at + k] == section[..k]
      invariant words[..at] == old(words[..at])
      invariant words[at + k..] == old(words[at + k..])
    {
      words[at + k] := section[k];
    }
  }

  /** Three sections written one after the other over an erased slot. */
  lemma Layers(head: seq<Word>, image: seq<Word>, version: seq<Word>, blank: Slot)
    requires |head| == 10 && |image| == 10 && |version| == 9 && blank == Erased()
    ensures var w1 := [] + head + blank[10..];
      var w2 := w1[..10] + image + w1[20..];
      var w3 := w2[..20] + version + w2[29..];
      w3[..62] == head + image + version + seq(33, _ => ERASED_WORD)
  {
    var w1 := [] + head + blank[10..];
    var w2 := w1[..10] + image + w1[20..];
    assert w1[..10] == head && w1[20..] == blank[20..];
    assert w2[..20] == head + image && w2[29..] == blank[29..];
    assert blank[29..62] == seq(33, _ => ERASED_WORD);
    assert (head + image + version + blank[29..])[..62] == head + image + version + blank[29..62];
  }

  /** The steps the three builders share. */
  method BuildRecord(words: array<Word>, e: Entry, attemptCount: Word)
    requires words.Length == RECORD_WORDS
    modifies words
    ensures words[..] == Encode(e, attemptCount)
  {
    FillErased(words);
    assert words[..0] == [] && words[10..] == Erased()[10..];
    WriteSection(words, 0, HeadWords(e));
    WriteSection(words, 10, ImageWords(e));
    WriteSection(words, 20, VersionWords(e, attemptCount));
    Layers(HeadWords(e), ImageWords(e), VersionWords(e, attemptCount), Erased());
    assert words[..62] == words[..][..62];
    var crc := CalcWords32(words, RECORD_WORDS - 2);
    WriteU32(words, 62, crc);
    assert words[..62] == Body(e, attemptCount);
  }

  method BuildImageValidRecord(words: array<Word>, sequence: U32, r: ImageRequest)
    requires words.Length == RECORD_WORDS
    modifies words
    ensures words[..] == Encode(ImageEntry(sequence, r), 0)
  {
    BuildRecord(words, ImageEntry(sequence, r), 0);
  }

  method BuildBootAttemptRecord(words: array<Word>, sequence: U32, boot: BootView, attemptCount: Word)
    requires words.Length == RECORD_WORDS
    modifies words
    ensures words[..] == Encode(BoundEntry(BOOT_ATTEMPT, sequence, boot), attemptCount)
  {
    BuildRecord(words, BoundEntry(BOOT_ATTEMPT, sequence, boot), attemptCount);
  }

  method BuildAppConfirmedRecord(words: array<Word>, sequence: U32, boot: BootView)
    requires words.Length == RECORD_WORDS
    modifies words
    ensures words[..] == Encode(BoundEntry(APP_CONFIRMED, sequence, boot), boot.attemptCount % 0x1_0000)
  {
    BuildRecord(words, BoundEntry(APP_CONFIRMED, sequence, boot), boot.attemptCount % 0x1_0000);
  }
}
