/** The PC's response reader: it resynchronises on a stream that arrives in arbitrary
    chunks, and what it returns depends only on the bytes. */
module Decoder {
  import opened Words
  import opened Crc
  import opened Framing

  /** What the reader makes of the bytes so far: nothing yet, the oversize error, or the
      bytes of one frame. */
  datatype Reading = NeedMore | Oversize | Slice(bytes: seq<Byte>)

  // ---------------------------------------------------------------- what a stream means

  /** The ten header words that start at byte `p`. */
  function Header(s: seq<Byte>, p: nat): (h: seq<Word>)
    requires p + HEADER_BYTES <= |s|
    ensures |h| == HEADER_WORDS
  {
    WordsAt(s, p, HEADER_WORDS)
  }

  /** A position with magic and a header whose CRC is right. */
  predicate Candidate(s: seq<Byte>, p: nat) {
    p + HEADER_BYTES <= |s| && Occurs(s, p) && HeaderIntact(Header(s, p))
  }

  function FirstCandidate(s: seq<Byte>, from: nat): (r: Option<nat>)
    ensures r.Some? ==> from <= r.value && Candidate(s, r.value) && forall p :: from <= p < r.value ==> !Candidate(s, p)
    ensures r.None? ==> forall p :: from <= p ==> !Candidate(s, p)
    decreases |s| - from
  {
    if from + HEADER_BYTES > |s| then None
    else if Candidate(s, from) then Some(from)
    else FirstCandidate(s, from + 1)
  }

  function FrameSize(payloadWords: Word): nat {
    (HEADER_WORDS + payloadWords as nat + 1) * 2
  }

  /** The frame at a candidate position. */
  function FrameAt(s: seq<Byte>, p: nat, maxPayload: Word): Reading
    requires p + HEADER_BYTES <= |s|
  {
    var n := Header(s, p)[8];
    if n > maxPayload then Oversize
    else if p + FrameSize(n) > |s| then NeedMore
    else Slice(s[p..p + FrameSize(n)])
  }

  /** The answer for a whole stream: the frame at the first candidate position. */
  function Decode(s: seq<Byte>, maxPayload: Word): Reading {
    match FirstCandidate(s, 0)
    case None => NeedMore
    case Some(p) => FrameAt(s, p, maxPayload)
  }

  /** The first position with the magic bytes and ten words whose last is the CRC of the
      other nine. */
  ghost predicate FirstHeader(s: seq<Byte>, p: nat) {
    HeaderStarts(s, p) && forall q :: 0 <= q < p ==> !HeaderStarts(s, q)
  }

  predicate HeaderStarts(s: seq<Byte>, p: nat) {
    && p + 20 <= |s| && s[p] == 0x5A && s[p + 1] == 0xA5 && s[p + 2] == 0xA5 && s[p + 3] == 0x5A
    && WordAt(s, p + 18) == Crc16Of(WordsAt(s, p, 9))
  }

  lemma HeaderStartsMeans(s: seq<Byte>, p: nat)
    ensures Candidate(s, p) <==> HeaderStarts(s, p)
  {
    hide Crc16Of, WordAt;
    if p + HEADER_BYTES <= |s| {
      assert Header(s, p)[9] == WordAt(s, p + 18);
      assert Header(s, p)[..9] == WordsAt(s, p, 9);
    }
  }

  /** The answer for a whole stream: nothing without a header; the oversize error exactly
      when the first header announces more words than allowed; else its frame, as soon as
      all of it has arrived. */
  lemma DecodeExactly(s: seq<Byte>, maxPayload: Word)
    ensures (forall p: nat :: !FirstHeader(s, p)) ==> Decode(s, maxPayload) == NeedMore
    ensures forall p: nat :: FirstHeader(s, p) ==>
      var n := WordAt(s, p + 16);
      && (Decode(s, maxPayload) == Oversize <==> n > maxPayload)
      && (n <= maxPayload ==>
            var end := p + 22 + 2 * n;
            if end <= |s| then p <= end && Decode(s, maxPayload) == Slice(s[p..end]) else Decode(s, maxPayload) == NeedMore)
  {
    hide WordAt, HeaderStarts, Candidate;
    forall p: nat
      ensures Candidate(s, p) <==> HeaderStarts(s, p)
    {
      HeaderStartsMeans(s, p);
    }
    var first := FirstCandidate(s, 0);
    if first.Some? {
      assert FirstHeader(s, first.value);
    }
    forall p: nat | FirstHeader(s, p)
      ensures first == Some(p)
    {
      assert Candidate(s, p);
    }
    if first.Some? {
      AnnouncedWords(s, first.value);
    }
  }

  lemma AnnouncedWords(s: seq<Byte>, p: nat)
    requires Candidate(s, p)
    ensures p + HEADER_BYTES <= |s| && Header(s, p)[8] == WordAt(s, p + 16)
  {
    hide WordAt;
  }

  // ---------------------------------------------------------------- later bytes

  lemma HeaderExtends(s: seq<Byte>, t: seq<Byte>, p: nat)
    requires p + HEADER_BYTES <= |s|
    ensures Header(s + t, p) == Header(s, p)
  {
    var x, y := Header(s + t, p), Header(s, p);
    forall k | 0 <= k < HEADER_WORDS
      ensures x[k] == y[k]
    {
      assert x[k] == WordAt(s + t, p + 2 * k) && y[k] == WordAt(s, p + 2 * k);
    }
  }

  /** A decision once reached is not changed by later bytes. */
  lemma DecisionIsStable(s: seq<Byte>, t: seq<Byte>, maxPayload: Word)
    requires Decode(s, maxPayload) != NeedMore
    ensures Decode(s + t, maxPayload) == Decode(s, maxPayload)
  {
    var p := FirstCandidate(s, 0).value;
    FirstCandidateExtends(s, t, p);
    HeaderExtends(s, t, p);
    var size := FrameSize(Header(s, p)[8]);
    if p + size <= |s| {
      assert (s + t)[p..p + size] == s[p..p + size];
    }
  }

  lemma CandidateExtends(s: seq<Byte>, t: seq<Byte>, p: nat)
    requires p + HEADER_BYTES <= |s|
    ensures Candidate(s + t, p) <==> Candidate(s, p)
  {
    hide Header;
    HeaderExtends(s, t, p);
  }

  lemma FirstCandidateExtends(s: seq<Byte>, t: seq<Byte>, p: nat)
    requires FirstCandidate(s, 0) == Some(p)
    ensures FirstCandidate(s + t, 0) == Some(p)
  {
    hide Candidate;
    assert p + HEADER_BYTES <= |s| by {
      CandidateFits(s, p);
    }
    CandidateExtends(s, t, p);
    forall q | 0 <= q < p
      ensures !Candidate(s + t, q)
    {
      CandidateExtends(s, t, q);
    }
  }

  lemma CandidateFits(s: seq<Byte>, p: nat)
    requires Candidate(s, p)
    ensures p + HEADER_BYTES <= |s|
  {
  }

  // ---------------------------------------------------------------- the buffer

  /** `buffer` is the end of the stream, and no frame can start in what was dropped,
      whatever bytes still come. */
  ghost predicate Holds(stream: seq<Byte>, buffer: seq<Byte>) {
    && |buffer| <= |stream|
    && stream[|stream| - |buffer|..] == buffer
    && forall p :: 0 <= p < |stream| - |buffer| ==> Dead(stream, p)
  }

  /** No frame starts at `p`: the magic is wrong, or the header is complete and wrong. */
  ghost predicate Dead(s: seq<Byte>, p: nat) {
    (p + 4 <= |s| && !Occurs(s, p)) || (p + HEADER_BYTES <= |s| && !Candidate(s, p))
  }

  lemma DeadExtends(s: seq<Byte>, t: seq<Byte>, p: nat)
    requires Dead(s, p)
    ensures Dead(s + t, p)
  {
    if p + HEADER_BYTES <= |s| {
      CandidateExtends(s, t, p);
    }
  }

  lemma HoldsExtends(stream: seq<Byte>, buffer: seq<Byte>, chunk: seq<Byte>)
    requires Holds(stream, buffer)
    ensures Holds(stream + chunk, buffer + chunk)
  {
    hide Dead;
    var d := |stream| - |buffer|;
    assert stream == stream[..d] + buffer;
    forall p | 0 <= p < d
      ensures Dead(stream + chunk, p)
    {
      DeadExtends(stream, chunk, p);
    }
  }

  /** Positions in the buffer are positions in the stream. */
  lemma BufferPosition(stream: seq<Byte>, buffer: seq<Byte>, p: nat)
    requires |buffer| <= |stream| && stream[|stream| - |buffer|..] == buffer
    ensures var d := |stream| - |buffer|;
      && (Occurs(buffer, p) <==> Occurs(stream, d + p))
      && (Candidate(buffer, p) <==> Candidate(stream, d + p))
      && (p + HEADER_BYTES <= |buffer| ==> Header(buffer, p) == Header(stream, d + p))
  {
    var d := |stream| - |buffer|;
    assert forall k :: 0 <= k < |buffer| ==> buffer[k] == stream[d + k];
    if p + HEADER_BYTES <= |buffer| {
      SameHeader(stream, buffer, p);
    }
  }

  lemma SameHeader(stream: seq<Byte>, buffer: seq<Byte>, p: nat)
    requires |buffer| <= |stream| && stream[|stream| - |buffer|..] == buffer && p + HEADER_BYTES <= |buffer|
    ensures Header(buffer, p) == Header(stream, |stream| - |buffer| + p)
  {
    var d := |stream| - |buffer|;
    var x, y := Header(buffer, p), Header(stream, d + p);
    forall k | 0 <= k < HEADER_WORDS
      ensures x[k] == y[k]
    {
      assert x[k] == WordAt(buffer, p + 2 * k) && y[k] == WordAt(stream, d + p + 2 * k);
      assert buffer[p + 2 * k] == stream[d + p + 2 * k] && buffer[p + 2 * k + 1] == stream[d + p + 2 * k + 1];
    }
  }

  /** Dropping the first `n` bytes of the buffer, when no frame starts there. */
  lemma DropIsSafe(stream: seq<Byte>, buffer: seq<Byte>, n: nat)
    requires Holds(stream, buffer) && n <= |buffer|
    requires forall p :: 0 <= p < n ==> Dead(buffer, p)
    ensures Holds(stream, buffer[n..])
  {
    hide Dead;
    var d := |stream| - |buffer|;
    assert stream[d + n..] == buffer[n..];
    forall p | 0 <= p < d + n
      ensures Dead(stream, p)
    {
      if p >= d {
        DeadInStream(stream, buffer, p - d);
      }
    }
  }

  lemma DeadInStream(stream: seq<Byte>, buffer: seq<Byte>, p: nat)
    requires |buffer| <= |stream| && stream[|stream| - |buffer|..] == buffer && Dead(buffer, p)
    ensures Dead(stream, |stream| - |buffer| + p)
  {
    BufferPosition(stream, buffer, p);
  }

  /** A stream in which no position before `d` can start a frame. */
  lemma NoCandidateBefore(stream: seq<Byte>, d: nat, p: nat)
    requires forall q :: 0 <= q < d ==> Dead(stream, q)
    requires p < d
    ensures !Candidate(stream, p)
  {
    assert Dead(stream, p);
  }

  /** The buffer tells whether the stream is decided. */
  lemma FirstInBuffer(stream: seq<Byte>, buffer: seq<Byte>)
    requires Holds(stream, buffer)
    ensures Candidate(buffer, 0) ==> FirstCandidate(stream, 0) == Some(|stream| - |buffer|)
    ensures (forall p :: 0 <= p ==> !Candidate(buffer, p)) ==> FirstCandidate(stream, 0) == None
  {
    hide Candidate;
    var d := |stream| - |buffer|;
    BufferPosition(stream, buffer, 0);
    forall p | 0 <= p < d
      ensures !Candidate(stream, p)
    {
      NoCandidateBefore(stream, d, p);
    }
    if forall p :: 0 <= p ==> !Candidate(buffer, p) {
      forall p | 0 <= p
        ensures !Candidate(stream, p)
      {
        if p >= d {
          BufferPosition(stream, buffer, p - d);
        }
      }
    }
  }

  // ---------------------------------------------------------------- the reader

  /** One round over the buffer; the boolean says whether to go round again. */
  method Round(ghost stream: seq<Byte>, buffer: seq<Byte>, maxPayload: Word)
    returns (r: Reading, rest: seq<Byte>, again: bool)
    requires Holds(stream, buffer)
    ensures Holds(stream, rest)
    ensures again ==> r == NeedMore && |rest| < |buffer|
    ensures !again ==> r == Decode(stream, maxPayload)
  {
    hide Dead, Occurs, Header;
    var start := FirstMagic(buffer, 0);
    if start.None? {
      MagicFreeIsDead(buffer);
      rest := if |buffer| > 3 then buffer[|buffer| - 3..] else buffer;
      DropIsSafe(stream, buffer, if |buffer| > 3 then |buffer| - 3 else 0);
      FirstInBuffer(stream, buffer);
      return NeedMore, rest, false;
    }
    BeforeMagicIsDead(buffer, start.value);
    DropIsSafe(stream, buffer, start.value);
    rest := buffer[start.value..];
    MagicAtStart(buffer, start.value);
    if |rest| < HEADER_BYTES {
      FirstInBuffer(stream, rest);
      return NeedMore, rest, false;
    }
    var header := Header(rest, 0);
    if !HeaderIntact(header) {
      WrongHeaderIsDead(rest);
      DropIsSafe(stream, rest, 1);
      rest := rest[1..];
      return NeedMore, rest, true;
    }
    FirstInBuffer(stream, rest);
    SameFrame(stream, rest, maxPayload);
    r := FrameAt(rest, 0, maxPayload);
    again := false;
  }

  lemma WrongHeaderIsDead(buffer: seq<Byte>)
    requires HEADER_BYTES <= |buffer| && !HeaderIntact(Header(buffer, 0))
    ensures forall p :: 0 <= p < 1 ==> Dead(buffer, p)
  {
  }

  lemma MagicFreeIsDead(buffer: seq<Byte>)
    requires forall i :: 0 <= i ==> !Occurs(buffer, i)
    ensures forall p :: 0 <= p < |buffer| - 3 ==> Dead(buffer, p)
    ensures forall p :: 0 <= p ==> !Candidate(buffer, p)
  {
  }

  lemma BeforeMagicIsDead(buffer: seq<Byte>, start: nat)
    requires FirstMagic(buffer, 0) == Some(start)
    ensures start + 4 <= |buffer|
    ensures forall p :: 0 <= p < start ==> Dead(buffer, p)
  {
  }

  lemma MagicAtStart(buffer: seq<Byte>, start: nat)
    requires Occurs(buffer, start)
    ensures Occurs(buffer[start..], 0)
  {
  }

  lemma SameFrame(stream: seq<Byte>, rest: seq<Byte>, maxPayload: Word)
    requires Holds(stream, rest) && HEADER_BYTES <= |rest|
    ensures FrameAt(rest, 0, maxPayload) == FrameAt(stream, |stream| - |rest|, maxPayload)
  {
    hide Dead, Header;
    var d := |stream| - |rest|;
    BufferPosition(stream, rest, 0);
    var size := FrameSize(Header(rest, 0)[8]);
    if size <= |rest| {
      assert stream[d..d + size] == rest[..size];
    }
  }

  /** The bytes of all chunks, in order. */
  function Concat(chunks: seq<seq<Byte>>): seq<Byte> {
    if chunks == [] then [] else Concat(chunks[..|chunks| - 1]) + chunks[|chunks| - 1]
  }

  lemma {:induction false} ConcatSplit(chunks: seq<seq<Byte>>, k: nat)
    requires k <= |chunks|
    ensures Concat(chunks) == Concat(chunks[..k]) + Concat(chunks[k..])
  {
    if k == |chunks| {
      assert chunks[..k] == chunks;
    } else {
      var front := chunks[..|chunks| - 1];
      ConcatSplit(front, k);
      assert front[..k] == chunks[..k] && front[k..] == chunks[k..][..|chunks| - k - 1];
    }
  }

  /** Drops and scans until the buffer decides or more bytes are needed. */
  method Drain(ghost stream: seq<Byte>, buffer: seq<Byte>, maxPayload: Word) returns (r: Reading, rest: seq<Byte>)
    requires Holds(stream, buffer)
    ensures Holds(stream, rest) && r == Decode(stream, maxPayload)
  {
    r, rest := NeedMore, buffer;
    var again := true;
    while again
      invariant Holds(stream, rest)
      invariant !again ==> r == Decode(stream, maxPayload)
      decreases again, |rest|
    {
      r, rest, again := Round(stream, rest, maxPayload);
    }
  }

  /** Whatever the chunks, the answer is that of the whole stream. */
  method ReadResponseFrame(chunks: seq<seq<Byte>>, maxPayload: Word) returns (r: Reading)
    ensures r == Decode(Concat(chunks), maxPayload)
  {
    var buffer: seq<Byte> := [];
    r := NeedMore;
    for k := 0 to |chunks|
      invariant Holds(Concat(chunks[..k]), buffer)
      invariant r == NeedMore == Decode(Concat(chunks[..k]), maxPayload)
    {
      assert chunks[..k + 1][..k] == chunks[..k];
      if chunks[k] == [] {
        assert Concat(chunks[..k + 1]) == Concat(chunks[..k]);
        continue;
      }
      HoldsExtends(Concat(chunks[..k]), buffer, chunks[k]);
      buffer := buffer + chunks[k];
      r, buffer := Drain(Concat(chunks[..k + 1]), buffer, maxPayload);
      if r != NeedMore {
        ConcatSplit(chunks, k + 1);
        DecisionIsStable(Concat(chunks[..k + 1]), Concat(chunks[k + 1..]), maxPayload);
        return;
      }
    }
    assert chunks[..|chunks|] == chunks;
  }

  // ---------------------------------------------------------------- from slice to frame

  datatype Decoded = DecodeError | PayloadCrcError | Response(frame: Frame)

  /** `decode_frame` on the words of a slice. */
  function DecodeFrame(w: seq<Word>, maxPayload: Word): Decoded {
    if |w| < HEADER_WORDS + 1 then DecodeError
    else if w[0] != MAGIC0 || w[1] != MAGIC1 || !HeaderIntact(w[..10]) then DecodeError
    else if w[8] > maxPayload || |w| != HEADER_WORDS + w[8] as nat + 1 then DecodeError
    else if Crc16Of(w[10..|w| - 1]) != w[|w| - 1] then PayloadCrcError
    else if w[5] == 0 then DecodeError
    else Response(FrameFrom(w[..10], w[10..|w| - 1]))
  }

  /** Magic, header CRC and length are right. */
  predicate HeaderAccepted(w: seq<Word>, maxPayload: Word) {
    && |w| >= 11 && w[0] == 0xA55A && w[1] == 0x5AA5 && Crc16Of(w[..9]) == w[9]
    && w[8] <= maxPayload && |w| == 11 + w[8] as nat
  }

  /** Decoding inverts encoding, on both sides: exactly the words of a frame with a
      payload within the limit and a sequence number other than 0 decode to it, and the
      payload CRC is blamed exactly behind an accepted header. */
  lemma DecodeFrameExactly(w: seq<Word>, maxPayload: Word, f: Frame)
    ensures DecodeFrame(w, maxPayload) == Response(f) <==>
      |f.payload| <= maxPayload && f.sequence != 0 && w == FrameWords(f)
    ensures DecodeFrame(w, maxPayload) == PayloadCrcError <==>
      HeaderAccepted(w, maxPayload) && Crc16Of(w[10..|w| - 1]) != w[|w| - 1]
  {
    hide Crc16Of;
    if DecodeFrame(w, maxPayload) == Response(f) {
      assert w[..10][..9] == w[..9];
      assert HeaderPrefix(f) == w[..9] && HeaderOf(f) == w[..10];
      assert w == w[..10] + w[10..|w| - 1] + [w[|w| - 1]];
    }
    if |f.payload| <= maxPayload && f.sequence != 0 && w == FrameWords(f) {
      assert w[..10] == HeaderOf(f) && w[10..|w| - 1] == f.payload;
      assert w[..10][..9] == HeaderPrefix(f);
    }
    assert |w| >= 10 ==> w[..10][..9] == w[..9];
  }

  function SliceWords(bytes: seq<Byte>): seq<Word> {
    WordsAt(bytes, 0, |bytes| / 2)
  }

  lemma CandidateWords(s: seq<Byte>, p: nat, bytes: seq<Byte>)
    requires Candidate(s, p) && HEADER_BYTES <= |bytes| && p + |bytes| <= |s| && s[p..p + |bytes|] == bytes
    ensures SliceWords(bytes)[..10] == Header(s, p)
    ensures SliceWords(bytes)[0] == MAGIC0 && SliceWords(bytes)[1] == MAGIC1
  {
    var w, h := SliceWords(bytes), Header(s, p);
    forall k | 0 <= k < |bytes|
      ensures bytes[k] == s[p + k]
    {
    }
    forall k | 0 <= k < HEADER_WORDS
      ensures w[k] == h[k]
    {
      assert w[k] == WordAt(bytes, 2 * k) && h[k] == WordAt(s, p + 2 * k);
    }
    assert w[0] == WordAt(bytes, 0) && w[1] == WordAt(bytes, 2);
  }

  /** Of a slice the reader returns, only the payload CRC and the reserved sequence
      number 0 can still be refused. */
  lemma SlicesDecode(s: seq<Byte>, maxPayload: Word)
    requires Decode(s, maxPayload).Slice?
    ensures var w := SliceWords(Decode(s, maxPayload).bytes);
      && |w| > HEADER_WORDS
      && (DecodeFrame(w, maxPayload).DecodeError? <==> Crc16Of(w[10..|w| - 1]) == w[|w| - 1] && w[5] == 0)
      && (DecodeFrame(w, maxPayload).PayloadCrcError? <==> Crc16Of(w[10..|w| - 1]) != w[|w| - 1])
  {
    var p := FirstCandidate(s, 0).value;
    var bytes := Decode(s, maxPayload).bytes;
    CandidateWords(s, p, bytes);
    var w := SliceWords(bytes);
    assert w[8] == w[..10][8];
  }

  lemma FirstIs(s: seq<Byte>, p: nat)
    requires Candidate(s, p) && forall q :: 0 <= q < p ==> !Candidate(s, q)
    ensures FirstCandidate(s, 0) == Some(p)
  {
  }

  /** The PC reads back exactly what the boot core sent, behind any noise in which no
      frame header starts. */
  lemma DecodeInvertsSend(noise: seq<Byte>, f: Frame, rest: seq<Byte>, maxPayload: Word)
    requires |f.payload| <= maxPayload && f.sequence != 0
    requires forall p :: 0 <= p < |noise| ==> !Candidate(noise + FrameBytes(f) + rest, p)
    ensures var s := noise + FrameBytes(f) + rest;
      && Decode(s, maxPayload) == Slice(FrameBytes(f))
      && DecodeFrame(SliceWords(FrameBytes(f)), maxPayload) == Response(f)
  {
    hide FrameBytes, FrameWords, HeaderOf, Crc16Of, ToBytes, Occurs;
    var s := noise + FrameBytes(f) + rest;
    var p := |noise|;
    assert s[p..p + |FrameBytes(f)|] == FrameBytes(f);
    FrameReadsBack(s, p, f);
    HeaderOfIsIntact(f);
    FrameHeader(s, p, f);
    assert Candidate(s, p);
    FirstIs(s, p);
    FrameWordsDecode(f, maxPayload);
  }

  /** Both receivers read the same header words where the magic stands. */
  lemma FrameHeader(s: seq<Byte>, p: nat, f: Frame)
    requires p + HEADER_BYTES <= |s| && Occurs(s, p) && |f.payload| < 0x1_0000 && HeaderAt(s, p) == HeaderOf(f)
    ensures Header(s, p) == HeaderOf(f)
  {
    var h, g := Header(s, p), HeaderAt(s, p);
    forall k | 0 <= k < HEADER_WORDS
      ensures h[k] == g[k]
    {
      assert h[k] == WordAt(s, p + 2 * k);
      if k >= 2 {
        assert g[k] == WordsAt(s, p + 4, 8)[k - 2] == WordAt(s, p + 4 + 2 * (k - 2));
      }
    }
  }

  lemma FrameWordsDecode(f: Frame, maxPayload: Word)
    requires |f.payload| <= maxPayload && f.sequence != 0
    ensures DecodeFrame(SliceWords(FrameBytes(f)), maxPayload) == Response(f)
  {
    hide Crc16Of, ToBytes;
    var bytes, w := FrameBytes(f), FrameWords(f);
    assert bytes[0..0 + 2 * |w|] == ToBytes(w);
    WordsReadBack(bytes, 0, w);
    assert w[..10] == HeaderOf(f) && w[10..|w| - 1] == f.payload;
    HeaderOfIsIntact(f);
    assert w[5] == HeaderOf(f)[5] && w[8] == HeaderOf(f)[8];
    assert w[0] == HeaderOf(f)[0] && w[1] == HeaderOf(f)[1];
  }
}
