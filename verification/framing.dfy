/** Frames on the wire, and the boot core's byte-wise receiver. */
module Framing {
  import opened Words
  import opened Crc
  import opened Protocol

  const MAGIC0: Word := 0xA55A
  const MAGIC1: Word := 0x5AA5
  const MAGIC: seq<Byte> := [0x5A, 0xA5, 0xA5, 0x5A]
  const VERSION: Word := 1
  const HEADER_WORDS := 10
  const HEADER_BYTES := 20

  datatype Frame = Frame(
    version: Word,
    packetType: Word,
    command: Word,
    sequence: Word,
    flags: Word,
    status: Word,
    payload: seq<Word>)

  // ---------------------------------------------------------------- words and bytes

  /** The little-endian word at byte `i`. */
  function WordAt(s: seq<Byte>, i: nat): Word
    requires i + 1 < |s|
  {
    s[i] + 0x100 * (s[i + 1] as int)
  }

  function WordsAt(s: seq<Byte>, i: nat, n: nat): (w: seq<Word>)
    requires i + 2 * n <= |s|
    ensures |w| == n
  {
    seq<Word>(n, k requires 0 <= k < n => WordAt(s, i + 2 * k))
  }

  function ByteOf(words: seq<Word>, k: nat): Byte
    requires k < 2 * |words|
  {
    if k % 2 == 0 then words[k / 2] % 0x100 else words[k / 2] / 0x100
  }

  function ToBytes(words: seq<Word>): (b: seq<Byte>)
    ensures |b| == 2 * |words|
  {
    seq<Byte>(2 * |words|, k requires 0 <= k < 2 * |words| => ByteOf(words, k))
  }

  /** A stretch of the stream that carries `words` reads back as `words`. */
  lemma WordsReadBack(s: seq<Byte>, i: nat, words: seq<Word>)
    requires i + 2 * |words| <= |s| && s[i..i + 2 * |words|] == ToBytes(words)
    ensures WordsAt(s, i, |words|) == words
  {
    var r := WordsAt(s, i, |words|);
    forall k | 0 <= k < |words|
      ensures r[k] == words[k]
    {
      assert s[i + 2 * k] == s[i..i + 2 * |words|][2 * k] == ByteOf(words, 2 * k);
      assert s[i + 2 * k + 1] == s[i..i + 2 * |words|][2 * k + 1] == ByteOf(words, 2 * k + 1);
    }
  }

  lemma ToBytesConcat(a: seq<Word>, b: seq<Word>)
    ensures ToBytes(a + b) == ToBytes(a) + ToBytes(b)
  {
    var x, y := ToBytes(a + b), ToBytes(a) + ToBytes(b);
    forall k | 0 <= k < |x|
      ensures x[k] == y[k]
    {
      assert x[k] == ByteOf(a + b, k);
      if k < 2 * |a| {
        assert y[k] == ByteOf(a, k);
      } else {
        assert y[k] == ByteOf(b, k - 2 * |a|);
      }
    }
  }

  // ---------------------------------------------------------------- frames

  /** The first nine header words. */
  function HeaderPrefix(f: Frame): seq<Word>
    requires |f.payload| < 0x1_0000
  {
    [MAGIC0, MAGIC1, f.version, f.packetType, f.command, f.sequence, f.flags, f.status, |f.payload|]
  }

  function HeaderOf(f: Frame): seq<Word>
    requires |f.payload| < 0x1_0000
  {
    HeaderPrefix(f) + [Crc16Of(HeaderPrefix(f))]
  }

  function FrameWords(f: Frame): seq<Word>
    requires |f.payload| < 0x1_0000
  {
    HeaderOf(f) + f.payload + [Crc16Of(f.payload)]
  }

  function FrameBytes(f: Frame): (b: seq<Byte>)
    requires |f.payload| < 0x1_0000
    ensures |b| == HEADER_BYTES + 2 * |f.payload| + 2
  {
    ToBytes(FrameWords(f))
  }

  /** The header check both receivers make. */
  predicate HeaderIntact(h: seq<Word>)
    requires |h| == HEADER_WORDS
  {
    Crc16Of(h[..9]) == h[9]
  }

  function FrameFrom(h: seq<Word>, payload: seq<Word>): Frame
    requires |h| == HEADER_WORDS
  {
    Frame(h[2], h[3], h[4], h[5], h[6], h[7], payload)
  }

  /** A header that is accepted is not accepted after a change of exactly one word. */
  lemma HeaderDetectsOneWord(h: seq<Word>, i: nat, word: Word)
    requires |h| == HEADER_WORDS && HeaderIntact(h) && i < HEADER_WORDS && word != h[i]
    ensures !HeaderIntact(h[i := word])
  {
    if i < 9 {
      Crc16DetectsOneWord(CRC16_INIT, h[..9], i, word);
      assert h[i := word][..9] == h[..9][i := word];
    } else {
      assert h[i := word][..9] == h[..9];
    }
  }

  // ---------------------------------------------------------------- the magic bytes

  /** The magic bytes start at `i`. */
  predicate Occurs(s: seq<Byte>, i: nat) {
    i + 4 <= |s| && s[i] == MAGIC[0] && s[i + 1] == MAGIC[1] && s[i + 2] == MAGIC[2] && s[i + 3] == MAGIC[3]
  }

  /** Where the first occurrence at or after `from` starts. */
  function FirstMagic(s: seq<Byte>, from: nat): (r: Option<nat>)
    ensures r.Some? ==> from <= r.value && Occurs(s, r.value) && forall i :: from <= i < r.value ==> !Occurs(s, i)
    ensures r.None? ==> forall i :: from <= i ==> !Occurs(s, i)
    decreases |s| - from
  {
    if from + 4 > |s| then None
    else if Occurs(s, from) then Some(from)
    else FirstMagic(s, from + 1)
  }

  /** The `k` bytes up to `end` are the first `k` bytes of the magic. */
  predicate EndsWith(s: seq<Byte>, from: nat, end: nat, k: nat)
    requires from <= end <= |s| && k < 4
  {
    && from + k <= end
    && (k >= 1 ==> s[end - k] == MAGIC[0])
    && (k >= 2 ==> s[end - k + 1] == MAGIC[1])
    && (k >= 3 ==> s[end - k + 2] == MAGIC[2])
  }

  /** `matched` is the longest part of the magic that ends at `end`. */
  predicate Automaton(s: seq<Byte>, from: nat, end: nat, matched: nat)
    requires from <= end <= |s|
  {
    && matched < 4 && EndsWith(s, from, end, matched)
    && (matched < 3 ==> !EndsWith(s, from, end, 3))
    && (matched < 2 ==> !EndsWith(s, from, end, 2))
    && (matched < 1 ==> !EndsWith(s, from, end, 1))
    && (forall i :: from <= i && i + 4 <= end ==> !Occurs(s, i))
  }

  /** What one byte does to the automaton. */
  function NextMatched(matched: nat, byteValue: Byte): nat
    requires matched < 4
  {
    if byteValue == MAGIC[matched] then matched + 1 else if byteValue == MAGIC[0] then 1 else 0
  }

  lemma AutomatonStep(s: seq<Byte>, from: nat, end: nat, matched: nat)
    requires from <= end < |s| && Automaton(s, from, end, matched)
    ensures var m := NextMatched(matched, s[end]);
      if m == 4 then end >= from + 3 && Occurs(s, end - 3) && forall i :: from <= i < end - 3 ==> !Occurs(s, i)
      else Automaton(s, from, end + 1, m)
  {
    var m := NextMatched(matched, s[end]);
    if end >= from + 3 {
      assert Occurs(s, end - 3) <==> EndsWith(s, from, end, 3) && s[end] == MAGIC[3];
    }
    forall i | from <= i && i + 4 <= end + 1
      ensures Occurs(s, i) ==> m == 4 && i == end - 3
    {
    }
  }

  /** Reads bytes until the magic is complete; None when the stream runs dry first. */
  method FindMagicBytes(s: seq<Byte>, from: nat) returns (next: Option<nat>)
    requires from <= |s|
    ensures next == if FirstMagic(s, from).Some? then Some(FirstMagic(s, from).value + 4) else None
  {
    var matched, pos := 0, from;
    while pos < |s|
      invariant from <= pos <= |s| && Automaton(s, from, pos, matched)
    {
      AutomatonStep(s, from, pos, matched);
      matched := NextMatched(matched, s[pos]);
      pos := pos + 1;
      if matched == 4 {
        return Some(pos);
      }
    }
    return None;
  }

  // ---------------------------------------------------------------- receiving

  datatype Received = Starved | BadPayloadCrc(frame: Frame, next: nat) | Ok(frame: Frame, next: nat)

  /** The header whose magic starts at `i`. */
  function HeaderAt(s: seq<Byte>, i: nat): (h: seq<Word>)
    requires i + HEADER_BYTES <= |s|
    ensures |h| == HEADER_WORDS
  {
    [MAGIC0, MAGIC1] + WordsAt(s, i + 4, 8)
  }

  predicate HeaderAccepted(h: seq<Word>)
    requires |h| == HEADER_WORDS
  {
    HeaderIntact(h) && h[8] <= MAX_PAYLOAD
  }

  /** The payload and its CRC behind an accepted header that ends at `at`. */
  function ReceivePayload(s: seq<Byte>, h: seq<Word>, at: nat): Received
    requires |h| == HEADER_WORDS
  {
    var n: nat := h[8];
    if at + 2 * n + 2 > |s| then Starved
    else
      var payload := WordsAt(s, at, n);
      if Crc16Of(payload) != WordAt(s, at + 2 * n) then BadPayloadCrc(FrameFrom(h, payload), at + 2 * n + 2)
      else Ok(FrameFrom(h, payload), at + 2 * n + 2)
  }

  /** A refused header is skipped whole; the search goes on behind it. */
  function Receive(s: seq<Byte>, from: nat): Received
    requires from <= |s|
    decreases |s| - from
  {
    match FirstMagic(s, from)
    case None => Starved
    case Some(i) =>
      if i + HEADER_BYTES > |s| then Starved
      else if !HeaderAccepted(HeaderAt(s, i)) then Receive(s, i + HEADER_BYTES)
      else ReceivePayload(s, HeaderAt(s, i), i + HEADER_BYTES)
  }

  method ReadWords(s: seq<Byte>, at: nat, words: array<Word>, start: nat, n: nat)
    requires at + 2 * n <= |s| && start + n <= words.Length
    modifies words
    ensures words[..] == old(words[..start]) + WordsAt(s, at, n) + old(words[start + n..])
  {
    for k := 0 to n
      invariant words[..start] == old(words[..start])
      invariant words[start..start + k] == WordsAt(s, at, n)[..k]
      invariant words[start + k..] == old(words[start + k..])
    {
      words[start + k] := WordAt(s, at + 2 * k);
    }
  }

  /** The receive loop of the boot core on the bytes that have arrived. */
  method ReceiveFrame(s: seq<Byte>, start: nat) returns (r: Received)
    requires start <= |s|
    ensures r == Receive(s, start)
  {
    hide FirstMagic, HeaderAt, ReceivePayload, Crc16Of;
    var from := start;
    while true
      invariant from <= |s| && Receive(s, from) == Receive(s, start)
      decreases |s| - from
    {
      var at := FindMagicBytes(s, from);
      if at.None? || at.value + 16 > |s| {
        return Starved;
      }
      var header := ReadHeader(s, at.value);
      var crc := CrcWords16(header, 9);
      assert header[..9] == header[..][..9];
      if crc != header[9] || header[8] > MAX_PAYLOAD {
        from := at.value + 16;
        continue;
      }
      r := FinishFrame(s, header[..], at.value + 16);
      return;
    }
  }

  /** The header whose magic ends at `at`. */
  method ReadHeader(s: seq<Byte>, at: nat) returns (header: array<Word>)
    requires 4 <= at && at + 16 <= |s|
    ensures header.Length == HEADER_WORDS && header[..] == HeaderAt(s, at - 4)
  {
    header := new Word[HEADER_WORDS](_ => 0);
    header[0], header[1] := MAGIC0, MAGIC1;
    ReadWords(s, at, header, 2, 8);
  }

  method FinishFrame(s: seq<Byte>, h: seq<Word>, at: nat) returns (r: Received)
    requires |h| == HEADER_WORDS
    ensures r == ReceivePayload(s, h, at)
  {
    var n: nat := h[8];
    if at + 2 * n + 2 > |s| {
      return Starved;
    }
    hide FrameFrom, Crc16Of, WordsAt, WordAt;
    var payload, crc := ReadPayload(s, at, n);
    var frame := FrameFrom(h, payload[..]);
    return if crc != WordAt(s, at + 2 * n) then BadPayloadCrc(frame, at + 2 * n + 2) else Ok(frame, at + 2 * n + 2);
  }

  method ReadPayload(s: seq<Byte>, at: nat, n: nat) returns (payload: array<Word>, crc: Word)
    requires at + 2 * n <= |s|
    ensures payload[..] == WordsAt(s, at, n) && crc == Crc16Of(WordsAt(s, at, n))
  {
    hide Crc16Of, WordAt;
    payload := new Word[n](_ => 0);
    ReadWords(s, at, payload, 0, n);
    assert payload[..] == WordsAt(s, at, n);
    crc := CrcWords16(payload, n);
    assert payload[..n] == payload[..];
  }

  // ---------------------------------------------------------------- sending

  /** What a response to `request` is. */
  function ResponseFrame(request: Frame, packetType: Word, status: Word, payload: seq<Word>): Frame {
    Frame(VERSION, packetType, request.command, request.sequence, 0, status, payload)
  }

  method SendWords(sent: seq<Byte>, words: seq<Word>) returns (r: seq<Byte>)
    ensures r == sent + ToBytes(words)
  {
    r := sent;
    for k := 0 to |words|
      invariant r == sent + ToBytes(words[..k])
    {
      assert words[..k + 1] == words[..k] + [words[k]];
      ToBytesConcat(words[..k], [words[k]]);
      ToBytesOne(words[k]);
      r := r + [words[k] % 0x100, words[k] / 0x100];
    }
    assert words[..|words|] == words;
  }

  lemma ToBytesOne(word: Word)
    ensures ToBytes([word]) == [word % 0x100, word / 0x100]
  {
    var b := ToBytes([word]);
    assert b[0] == ByteOf([word], 0) && b[1] == ByteOf([word], 1);
  }

  method FillHeader(f: Frame) returns (header: array<Word>)
    requires |f.payload| < 0x1_0000
    ensures fresh(header) && header.Length == 9 && header[..] == HeaderPrefix(f)
  {
    header := new Word[9](_ => 0);
    header[0], header[1], header[2] := MAGIC0, MAGIC1, f.version;
    header[3], header[4], header[5] := f.packetType, f.command, f.sequence;
    header[6], header[7], header[8] := f.flags, f.status, |f.payload|;
  }

  method SendResponse(sent: seq<Byte>, request: Frame, packetType: Word, status: Word, payload: array<Word>)
    returns (r: seq<Byte>)
    requires payload.Length < 0x1_0000
    ensures r == sent + FrameBytes(ResponseFrame(request, packetType, status, payload[..]))
  {
    hide FrameWords, HeaderPrefix, ToBytes, Crc16Of;
    var f := ResponseFrame(request, packetType, status, payload[..]);
    var header := FillHeader(f);
    r := SendWords(sent, header[..]);
    assert header[..9] == header[..];
    var crc := CrcWords16(header, 9);
    r := SendWords(r, [crc]);
    r := SendWords(r, payload[..]);
    assert payload[..payload.Length] == payload[..];
    var payloadCrc := CrcWords16(payload, payload.Length);
    r := SendWords(r, [payloadCrc]);
    FrameInPieces(f);
    FourPieces(sent, ToBytes(HeaderPrefix(f)), ToBytes([crc]), ToBytes(f.payload), ToBytes([payloadCrc]));
  }

  lemma FourPieces(sent: seq<Byte>, a: seq<Byte>, b: seq<Byte>, c: seq<Byte>, d: seq<Byte>)
    ensures sent + a + b + c + d == sent + (a + b + c + d)
  {
  }

  lemma FrameInPieces(f: Frame)
    requires |f.payload| < 0x1_0000
    ensures FrameBytes(f) == ToBytes(HeaderPrefix(f)) + ToBytes([Crc16Of(HeaderPrefix(f))]) +
                             ToBytes(f.payload) + ToBytes([Crc16Of(f.payload)])
  {
    ToBytesConcat(HeaderPrefix(f), [Crc16Of(HeaderPrefix(f))]);
    ToBytesConcat(HeaderOf(f), f.payload);
    ToBytesConcat(HeaderOf(f) + f.payload, [Crc16Of(f.payload)]);
  }

  // ---------------------------------------------------------------- round trip

  lemma ThreePieces(f: Frame)
    requires |f.payload| < 0x1_0000
    ensures |HeaderOf(f)| == HEADER_WORDS && HeaderOf(f)[0] == MAGIC0 && HeaderOf(f)[1] == MAGIC1
    ensures FrameBytes(f) == ToBytes(HeaderOf(f)) + ToBytes(f.payload) + ToBytes([Crc16Of(f.payload)])
  {
    hide ToBytes, Crc16Of;
    ToBytesConcat(HeaderOf(f), f.payload);
    ToBytesConcat(HeaderOf(f) + f.payload, [Crc16Of(f.payload)]);
  }

  /** Where the pieces of a frame lie in the stream. */
  lemma PiecesInStream(s: seq<Byte>, i: nat, a: seq<Byte>, b: seq<Byte>, c: seq<Byte>)
    requires i + |a| + |b| + |c| <= |s| && s[i..i + |a| + |b| + |c|] == a + b + c
    ensures s[i..i + |a|] == a
    ensures s[i + |a|..i + |a| + |b|] == b
    ensures s[i + |a| + |b|..i + |a| + |b| + |c|] == c
  {
    SliceOfSlice(s, i, |a| + |b| + |c|, 0, |a|);
    SliceOfSlice(s, i, |a| + |b| + |c|, |a|, |a| + |b|);
    SliceOfSlice(s, i, |a| + |b| + |c|, |a| + |b|, |a| + |b| + |c|);
    var all := a + b + c;
    assert all[0..|a|] == a && all[|a|..|a| + |b|] == b && all[|a| + |b|..|a| + |b| + |c|] == c;
  }

  lemma SliceOfSlice(s: seq<Byte>, i: nat, n: nat, lo: nat, hi: nat)
    requires i + n <= |s| && lo <= hi <= n
    ensures s[i + lo..i + hi] == s[i..i + n][lo..hi]
  {
    var whole, part, again := s[i..i + n], s[i + lo..i + hi], s[i..i + n][lo..hi];
    forall k | 0 <= k < hi - lo
      ensures part[k] == again[k]
    {
      assert part[k] == s[i + lo + k] && again[k] == whole[lo + k] == s[i + (lo + k)];
    }
  }

  /** A frame in the stream, seen from its first byte. */
  lemma FrameReadsBack(s: seq<Byte>, i: nat, f: Frame)
    requires |f.payload| < 0x1_0000 && i + |FrameBytes(f)| <= |s| && s[i..i + |FrameBytes(f)|] == FrameBytes(f)
    ensures Occurs(s, i)
    ensures HeaderAt(s, i) == HeaderOf(f)
    ensures WordsAt(s, i + HEADER_BYTES, |f.payload|) == f.payload
    ensures WordAt(s, i + HEADER_BYTES + 2 * |f.payload|) == Crc16Of(f.payload)
  {
    hide ToBytes, WordsAt, HeaderOf, Crc16Of, Occurs, HeaderAt, FrameBytes;
    var n := |f.payload|;
    ThreePieces(f);
    PiecesInStream(s, i, ToBytes(HeaderOf(f)), ToBytes(f.payload), ToBytes([Crc16Of(f.payload)]));
    WordsReadBack(s, i, HeaderOf(f));
    WordsReadBack(s, i + 20, f.payload);
    WordsReadBack(s, i + 20 + 2 * n, [Crc16Of(f.payload)]);
    MagicReadsBack(s, i, HeaderOf(f));
    OneWord(s, i + 20 + 2 * n);
  }

  lemma OneWord(s: seq<Byte>, i: nat)
    requires i + 2 <= |s|
    ensures WordsAt(s, i, 1) == [WordAt(s, i)]
  {
  }

  lemma MagicReadsBack(s: seq<Byte>, i: nat, h: seq<Word>)
    requires i + HEADER_BYTES <= |s| && |h| == HEADER_WORDS && h[0] == MAGIC0 && h[1] == MAGIC1
    requires s[i..i + HEADER_BYTES] == ToBytes(h) && WordsAt(s, i, HEADER_WORDS) == h
    ensures Occurs(s, i) && HeaderAt(s, i) == h
  {
    hide HeaderAt, WordsAt;
    var b := s[i..i + HEADER_BYTES];
    assert s[i] == b[0] == ByteOf(h, 0) && s[i + 1] == b[1] == ByteOf(h, 1);
    assert s[i + 2] == b[2] == ByteOf(h, 2) && s[i + 3] == b[3] == ByteOf(h, 3);
    HeaderAtReadsBack(s, i, h);
  }

  lemma HeaderAtReadsBack(s: seq<Byte>, i: nat, h: seq<Word>)
    requires i + HEADER_BYTES <= |s| && |h| == HEADER_WORDS && h[0] == MAGIC0 && h[1] == MAGIC1
    requires WordsAt(s, i, HEADER_WORDS) == h
    ensures HeaderAt(s, i) == h
  {
    hide WordAt;
    forall k | 2 <= k < HEADER_WORDS
      ensures HeaderAt(s, i)[k] == h[k]
    {
      assert WordsAt(s, i, HEADER_WORDS)[k] == WordAt(s, i + 2 * k);
      assert WordsAt(s, i + 4, 8)[k - 2] == WordAt(s, i + 4 + 2 * (k - 2));
    }
  }

  lemma HeaderOfIsIntact(f: Frame)
    requires |f.payload| < 0x1_0000
    ensures HeaderIntact(HeaderOf(f)) && HeaderOf(f)[8] == |f.payload|
    ensures FrameFrom(HeaderOf(f), f.payload) == f
  {
    assert HeaderOf(f)[..9] == HeaderPrefix(f);
  }

  /** The frame is found when no magic starts before it, in the noise or across its end. */
  lemma ReceiveFindsFrame(noise: seq<Byte>, f: Frame, rest: seq<Byte>)
    requires |f.payload| <= MAX_PAYLOAD
    requires forall i :: 0 <= i < |noise| ==> !Occurs(noise + FrameBytes(f) + rest, i)
    ensures Receive(noise + FrameBytes(f) + rest, 0) == Ok(f, |noise| + |FrameBytes(f)|)
  {
    hide FrameBytes, HeaderOf, HeaderAt, Crc16Of, WordsAt, WordAt, Occurs;
    var s := noise + FrameBytes(f) + rest;
    assert s[|noise|..|noise| + |FrameBytes(f)|] == FrameBytes(f);
    FrameReadsBack(s, |noise|, f);
    HeaderOfIsIntact(f);
    assert FirstMagic(s, 0) == Some(|noise|);
  }

  /** The last three bytes are the first three of the magic. */
  predicate EndsInMagic(noise: seq<Byte>) {
    |noise| >= 3 && noise[|noise| - 3..] == [0x5A, 0xA5, 0xA5]
  }

  /** A stream that continues noise with the first magic byte. */
  predicate Continues(s: seq<Byte>, noise: seq<Byte>) {
    |s| > |noise| && noise == s[..|noise|] && s[|noise|] == MAGIC[0]
  }

  lemma FrameContinuesNoise(noise: seq<Byte>, f: Frame, rest: seq<Byte>)
    requires |f.payload| <= MAX_PAYLOAD
    ensures Continues(noise + FrameBytes(f) + rest, noise)
  {
    hide FrameBytes, HeaderAt, HeaderOf, WordsAt, Crc16Of;
    var s := noise + FrameBytes(f) + rest;
    assert s[|noise|..|noise| + |FrameBytes(f)|] == FrameBytes(f);
    FrameReadsBack(s, |noise|, f);
  }

  /** In front of such a byte, noise without a magic gains one exactly by ending in its
      first three bytes, and then three bytes before the end of the noise. */
  lemma MagicAcrossNoise(noise: seq<Byte>, s: seq<Byte>, i: nat)
    requires Continues(s, noise) && i < |noise| && !Occurs(noise, i)
    ensures Occurs(s, i) <==> EndsInMagic(noise) && i == |noise| - 3
  {
    assert forall k :: 0 <= k < |noise| ==> s[k] == noise[k];
    if i + 4 <= |noise| {
    } else if i == |noise| - 3 {
      assert noise[i..] == [noise[i], noise[i + 1], noise[i + 2]];
      assert Occurs(s, i) <==> noise[i] == MAGIC[0] && noise[i + 1] == MAGIC[1] && noise[i + 2] == MAGIC[2];
    }
  }

  /** A received frame ends where its own length puts the end. */
  lemma {:induction false} ReceivedEnds(s: seq<Byte>, from: nat) returns (i: nat)
    requires from <= |s| && Receive(s, from).Ok?
    ensures i >= from
    ensures Receive(s, from).next == i + HEADER_BYTES + 2 * |Receive(s, from).frame.payload| + 2
    ensures FirstMagic(s, from).Some? && (i == FirstMagic(s, from).value || i >= FirstMagic(s, from).value + HEADER_BYTES)
    decreases |s| - from
  {
    hide HeaderAt, HeaderAccepted;
    i := FirstMagic(s, from).value;
    if !HeaderAccepted(HeaderAt(s, i)) {
      i := ReceivedEnds(s, i + HEADER_BYTES);
    }
  }

  /** Receive inverts SendResponse: behind noise in which no magic starts, whatever
      follows, it returns the frame that was sent exactly when the noise does not end in
      the first three bytes of a magic, which the first byte of the frame would complete. */
  lemma ReceiveInvertsSend(noise: seq<Byte>, f: Frame, rest: seq<Byte>)
    requires |f.payload| <= MAX_PAYLOAD
    requires forall i :: 0 <= i < |noise| ==> !Occurs(noise, i)
    ensures Receive(noise + FrameBytes(f) + rest, 0) == Ok(f, |noise| + |FrameBytes(f)|) <==> !EndsInMagic(noise)
  {
    hide FrameBytes, Occurs, EndsInMagic, Receive;
    var s := noise + FrameBytes(f) + rest;
    FrameContinuesNoise(noise, f, rest);
    forall i | 0 <= i < |noise|
      ensures Occurs(s, i) <==> EndsInMagic(noise) && i == |noise| - 3
    {
      MagicAcrossNoise(noise, s, i);
    }
    if !EndsInMagic(noise) {
      ReceiveFindsFrame(noise, f, rest);
    } else {
      TailIsLong(noise);
      assert Occurs(s, |noise| - 3);
      assert FirstMagic(s, 0) == Some(|noise| - 3);
      if Receive(s, 0) == Ok(f, |noise| + |FrameBytes(f)|) {
        var i := ReceivedEnds(s, 0);
      }
    }
  }

  lemma TailIsLong(noise: seq<Byte>)
    requires EndsInMagic(noise)
    ensures |noise| >= 3
  {
  }

  /** The failing half is not empty: three bytes of noise are enough. */
  lemma ThreeBytesHideTheFrame(f: Frame, rest: seq<Byte>)
    requires |f.payload| <= MAX_PAYLOAD
    ensures var noise: seq<Byte> := [0x5A, 0xA5, 0xA5];
      Receive(noise + FrameBytes(f) + rest, 0) != Ok(f, 3 + |FrameBytes(f)|)
  {
    var noise: seq<Byte> := [0x5A, 0xA5, 0xA5];
    assert noise[|noise| - 3..] == noise;
    ReceiveInvertsSend(noise, f, rest);
  }

  // ---------------------------------------------------------------- what is received was on the wire

  /** Words read from a stretch of the stream give that stretch back. */
  lemma BytesReadBack(s: seq<Byte>, i: nat, n: nat)
    requires i + 2 * n <= |s|
    ensures ToBytes(WordsAt(s, i, n)) == s[i..i + 2 * n]
  {
    var b, words := ToBytes(WordsAt(s, i, n)), WordsAt(s, i, n);
    forall k | 0 <= k < 2 * n
      ensures b[k] == s[i + k]
    {
      assert b[k] == ByteOf(words, k) && words[k / 2] == WordAt(s, i + 2 * (k / 2));
    }
  }

  /** The header the receiver assembles lies in the stream behind its magic. */
  lemma HeaderBytes(s: seq<Byte>, i: nat)
    requires i + HEADER_BYTES <= |s| && Occurs(s, i)
    ensures ToBytes(HeaderAt(s, i)) == s[i..i + HEADER_BYTES]
  {
    hide WordsAt;
    BytesReadBack(s, i + 4, 8);
    ToBytesConcat([MAGIC0, MAGIC1], WordsAt(s, i + 4, 8));
    MagicBytes();
    assert s[i..i + 4] == MAGIC;
    assert s[i..i + 4] + s[i + 4..i + 20] == s[i..i + 20];
  }

  lemma MagicBytes()
    ensures ToBytes([MAGIC0, MAGIC1]) == MAGIC
  {
    ToBytesConcat([MAGIC0], [MAGIC1]);
    ToBytesOne(MAGIC0);
    ToBytesOne(MAGIC1);
    assert [MAGIC0] + [MAGIC1] == [MAGIC0, MAGIC1];
  }

  /** An accepted header is that of the frame it announces. */
  lemma HeaderOfFrameFrom(h: seq<Word>, payload: seq<Word>)
    requires |h| == HEADER_WORDS && h[0] == MAGIC0 && h[1] == MAGIC1 && HeaderIntact(h) && |payload| == h[8]
    ensures HeaderOf(FrameFrom(h, payload)) == h
  {
    assert HeaderPrefix(FrameFrom(h, payload)) == h[..9];
    assert h == h[..9] + [h[9]];
  }

  lemma PayloadIsFrame(s: seq<Byte>, i: nat)
    requires i + HEADER_BYTES <= |s| && Occurs(s, i) && HeaderAccepted(HeaderAt(s, i))
    requires ReceivePayload(s, HeaderAt(s, i), i + HEADER_BYTES).Ok?
    ensures var r := ReceivePayload(s, HeaderAt(s, i), i + HEADER_BYTES);
      && |r.frame.payload| <= MAX_PAYLOAD && i + |FrameBytes(r.frame)| == r.next <= |s|
      && s[i..r.next] == FrameBytes(r.frame)
  {
    hide HeaderAt, HeaderOf, WordsAt, WordAt, ToBytes, Crc16Of, HeaderIntact, Occurs;
    var h := HeaderAt(s, i);
    var n: nat := h[8];
    var at := i + HEADER_BYTES;
    var payload := WordsAt(s, at, n);
    HeaderStartsWithMagic(s, i);
    HeaderOfFrameFrom(h, payload);
    ThreePieces(FrameFrom(h, payload));
    HeaderBytes(s, i);
    BytesReadBack(s, at, n);
    BytesReadBack(s, at + 2 * n, 1);
    OneWord(s, at + 2 * n);
    assert s[i..at] + s[at..at + 2 * n] + s[at + 2 * n..at + 2 * n + 2] == s[i..at + 2 * n + 2];
  }

  lemma HeaderStartsWithMagic(s: seq<Byte>, i: nat)
    requires i + HEADER_BYTES <= |s|
    ensures HeaderAt(s, i)[0] == MAGIC0 && HeaderAt(s, i)[1] == MAGIC1
  {
  }

  /** Soundness: a frame that is received is one whose bytes, with both checksums, stand
      in the stream where it is said to end, and its payload is within the limit. */
  lemma {:induction false} ReceivedWasSent(s: seq<Byte>, from: nat)
    requires from <= |s| && Receive(s, from).Ok?
    ensures var r := Receive(s, from);
      && |r.frame.payload| <= 256 && from + |FrameBytes(r.frame)| <= r.next <= |s|
      && s[r.next - |FrameBytes(r.frame)|..r.next] == FrameBytes(r.frame)
    decreases |s| - from
  {
    hide HeaderAt, HeaderAccepted, ReceivePayload, FrameBytes, Occurs;
    var i := FirstMagic(s, from).value;
    if HeaderAccepted(HeaderAt(s, i)) {
      PayloadIsFrame(s, i);
    } else {
      ReceivedWasSent(s, i + HEADER_BYTES);
    }
  }

  // ---------------------------------------------------------------- damage

  /** A frame on the wire whose payload or payload checksum may be other than sent. */
  function WireBytes(f: Frame, payload: seq<Word>, crc: Word): (b: seq<Byte>)
    requires |f.payload| < 0x1_0000 && |payload| == |f.payload|
    ensures |b| == HEADER_BYTES + 2 * |payload| + 2
  {
    ToBytes(HeaderOf(f) + payload + [crc])
  }

  lemma WirePieces(f: Frame, payload: seq<Word>, crc: Word)
    requires |f.payload| < 0x1_0000 && |payload| == |f.payload|
    ensures |HeaderOf(f)| == HEADER_WORDS && HeaderOf(f)[0] == MAGIC0 && HeaderOf(f)[1] == MAGIC1
    ensures WireBytes(f, payload, crc) == ToBytes(HeaderOf(f)) + ToBytes(payload) + ToBytes([crc])
  {
    hide ToBytes, Crc16Of;
    ToBytesConcat(HeaderOf(f), payload);
    ToBytesConcat(HeaderOf(f) + payload, [crc]);
  }

  lemma WireReadsBack(s: seq<Byte>, i: nat, f: Frame, payload: seq<Word>, crc: Word)
    requires |f.payload| < 0x1_0000 && |payload| == |f.payload| && i + |WireBytes(f, payload, crc)| <= |s|
    requires s[i..i + |WireBytes(f, payload, crc)|] == WireBytes(f, payload, crc)
    ensures Occurs(s, i)
    ensures HeaderAt(s, i) == HeaderOf(f)
    ensures WordsAt(s, i + HEADER_BYTES, |payload|) == payload
    ensures WordAt(s, i + HEADER_BYTES + 2 * |payload|) == crc
  {
    hide ToBytes, WordsAt, HeaderOf, Crc16Of, Occurs, HeaderAt, WireBytes;
    var n := |payload|;
    WirePieces(f, payload, crc);
    PiecesInStream(s, i, ToBytes(HeaderOf(f)), ToBytes(payload), ToBytes([crc]));
    WordsReadBack(s, i, HeaderOf(f));
    WordsReadBack(s, i + 20, payload);
    WordsReadBack(s, i + 20 + 2 * n, [crc]);
    MagicReadsBack(s, i, HeaderOf(f));
    OneWord(s, i + 20 + 2 * n);
  }

  /** Whatever payload and checksum arrive behind an intact header, the frame is handed
      over exactly when they belong together; otherwise it is reported as damaged. */
  lemma PayloadIsChecked(noise: seq<Byte>, f: Frame, payload: seq<Word>, crc: Word, rest: seq<Byte>)
    requires |payload| == |f.payload| <= MAX_PAYLOAD
    requires forall i :: 0 <= i < |noise| ==> !Occurs(noise + WireBytes(f, payload, crc) + rest, i)
    ensures var next := |noise| + |WireBytes(f, payload, crc)|;
      Receive(noise + WireBytes(f, payload, crc) + rest, 0) ==
        if crc == Crc16Of(payload) then Ok(f.(payload := payload), next)
        else BadPayloadCrc(f.(payload := payload), next)
  {
    hide WireBytes, HeaderOf, HeaderAt, Crc16Of, WordsAt, WordAt, Occurs;
    var s := noise + WireBytes(f, payload, crc) + rest;
    assert s[|noise|..|noise| + |WireBytes(f, payload, crc)|] == WireBytes(f, payload, crc);
    WireReadsBack(s, |noise|, f, payload, crc);
    HeaderOfIsIntact(f);
    FrameFromOther(f, payload);
    assert FirstMagic(s, 0) == Some(|noise|);
  }

  lemma FrameFromOther(f: Frame, payload: seq<Word>)
    requires |f.payload| < 0x1_0000
    ensures FrameFrom(HeaderOf(f), payload) == f.(payload := payload)
  {
  }

  predicate SameBut(a: seq<Word>, b: seq<Word>, k: nat)
    requires |a| == |b|
  {
    forall i :: 0 <= i < |a| && i != k ==> a[i] == b[i]
  }

  /** Exactly one word differs. */
  predicate DifferInOne(a: seq<Word>, b: seq<Word>) {
    |a| == |b| && exists k :: 0 <= k < |a| && a[k] != b[k] && SameBut(a, b, k)
  }

  /** A frame that was sent and had exactly one payload word, or its payload checksum,
      changed on the way is never handed over. */
  lemma DamagedPayloadIsFound(noise: seq<Byte>, f: Frame, payload: seq<Word>, crc: Word, rest: seq<Byte>)
    requires |payload| == |f.payload| <= MAX_PAYLOAD
    requires (DifferInOne(f.payload, payload) && crc == Crc16Of(f.payload)) ||
             (payload == f.payload && crc != Crc16Of(f.payload))
    requires forall i :: 0 <= i < |noise| ==> !Occurs(noise + WireBytes(f, payload, crc) + rest, i)
    ensures Receive(noise + WireBytes(f, payload, crc) + rest, 0) ==
            BadPayloadCrc(f.(payload := payload), |noise| + |WireBytes(f, payload, crc)|)
  {
    hide WireBytes, Receive, Occurs, Crc16Fold;
    PayloadIsChecked(noise, f, payload, crc, rest);
    if payload != f.payload {
      var k :| 0 <= k < |payload| && f.payload[k] != payload[k] && SameBut(f.payload, payload, k);
      assert payload == f.payload[k := payload[k]];
      Crc16DetectsOneWord(CRC16_INIT, f.payload, k, payload[k]);
    }
  }

  /** A header that is refused costs its twenty bytes and no more: a frame right behind
      it is received. */
  lemma RefusedHeaderIsSkipped(bad: seq<Byte>, f: Frame, rest: seq<Byte>)
    requires |bad| == HEADER_BYTES && Occurs(bad, 0) && !HeaderAccepted(HeaderAt(bad, 0))
    requires |f.payload| <= MAX_PAYLOAD
    ensures Receive(bad + FrameBytes(f) + rest, 0) == Ok(f, HEADER_BYTES + |FrameBytes(f)|)
  {
    hide FrameBytes, HeaderOf, Crc16Of, WordsAt, WordAt;
    var s := bad + FrameBytes(f) + rest;
    assert s[HEADER_BYTES..HEADER_BYTES + |FrameBytes(f)|] == FrameBytes(f);
    FrameReadsBack(s, HEADER_BYTES, f);
    HeaderOfIsIntact(f);
    SameHeaderAt(bad, FrameBytes(f) + rest);
    assert bad + (FrameBytes(f) + rest) == s;
    assert FirstMagic(s, 0) == Some(0) && FirstMagic(s, HEADER_BYTES) == Some(HEADER_BYTES);
  }

  lemma SameHeaderAt(a: seq<Byte>, b: seq<Byte>)
    requires |a| >= HEADER_BYTES
    ensures HeaderAt(a + b, 0) == HeaderAt(a, 0)
    ensures Occurs(a + b, 0) <==> Occurs(a, 0)
  {
    forall k | 0 <= k < 8
      ensures WordsAt(a + b, 4, 8)[k] == WordsAt(a, 4, 8)[k]
    {
      assert WordAt(a + b, 4 + 2 * k) == WordAt(a, 4 + 2 * k);
    }
    assert WordsAt(a + b, 4, 8) == WordsAt(a, 4, 8);
  }

  /** The words of a frame on the wire, by position. */
  lemma FrameLayout(f: Frame)
    requires |f.payload| <= MAX_PAYLOAD
    ensures var w := FrameWords(f);
      && |w| == 11 + |f.payload| && w[0] == 0xA55A && w[1] == 0x5AA5
      && w[2] == f.version && w[3] == f.packetType && w[4] == f.command && w[5] == f.sequence
      && w[6] == f.flags && w[7] == f.status && w[8] == |f.payload| && w[9] == Crc16Of(w[..9])
      && w[10..10 + |f.payload|] == f.payload && w[10 + |f.payload|] == Crc16Of(f.payload)
  {
    hide Crc16Of;
    var w := FrameWords(f);
    assert w[..9] == HeaderPrefix(f);
  }

  /** A response on the wire: version 1, command and sequence of the request, no flags. */
  lemma ResponseLayout(request: Frame, packetType: Word, status: Word, payload: seq<Word>)
    requires |payload| <= MAX_PAYLOAD
    ensures var w := FrameWords(ResponseFrame(request, packetType, status, payload));
      && |w| == 11 + |payload| && w[..9] == [0xA55A, 0x5AA5, 1, packetType, request.command, request.sequence, 0, status,
                                             |payload|]
      && w[9] == Crc16Of(w[..9]) && w[10..10 + |payload|] == payload && w[10 + |payload|] == Crc16Of(payload)
  {
    hide Crc16Of;
    FrameLayout(ResponseFrame(request, packetType, status, payload));
  }
}
