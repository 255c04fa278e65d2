/** CRC-32 (section 8 of RFC 1952) and CRC-16/CCITT-FALSE over little-endian
    16-bit words. Both bit steps are linear and injective, so a change confined
    to one word always changes the checksum. */
module Crc {
  import opened Words

  const CRC32_INIT: U32 := 0xFFFF_FFFF
  const CRC32_POLYNOMIAL: U32 := 0xEDB8_8320
  const CRC16_INIT: Word := 0xFFFF
  const CRC16_POLYNOMIAL: Word := 0x1021

  // ---------------------------------------------------------------- exclusive or

  /** Bitwise exclusive or of two naturals. */
  function Xor(a: nat, b: nat): nat
    decreases a + b
  {
    if a == 0 && b == 0 then 0
    else 2 * Xor(a / 2, b / 2) + (if a % 2 == b % 2 then 0 else 1)
  }

  function Pow2(n: nat): nat {
    if n == 0 then 1 else 2 * Pow2(n - 1)
  }

  lemma PowersOfTwo()
    ensures Pow2(8) == 0x100
    ensures Pow2(15) == 0x8000
    ensures Pow2(16) == 0x1_0000
    ensures Pow2(32) == 0x1_0000_0000
  {
    assert Pow2(4) == 0x10;
    assert Pow2(8) == 0x100;
    assert Pow2(12) == 0x1000;
    assert Pow2(16) == 0x1_0000;
    assert Pow2(20) == 0x10_0000;
    assert Pow2(24) == 0x100_0000;
    assert Pow2(28) == 0x1000_0000;
  }

  lemma {:induction false} XorBound(a: nat, b: nat, n: nat)
    requires a < Pow2(n) && b < Pow2(n)
    ensures Xor(a, b) < Pow2(n)
  {
    if n == 0 {
    } else {
      XorBound(a / 2, b / 2, n - 1);
    }
  }

  lemma {:induction false} XorZero(a: nat)
    ensures Xor(a, 0) == a
    ensures Xor(0, a) == a
  {
    if a == 0 {
    } else {
      XorZero(a / 2);
    }
  }

  lemma {:induction false} XorCommutes(a: nat, b: nat)
    ensures Xor(a, b) == Xor(b, a)
    decreases a + b
  {
    if a == 0 && b == 0 {
    } else {
      XorCommutes(a / 2, b / 2);
    }
  }

  lemma {:induction false} XorAssociates(a: nat, b: nat, c: nat)
    ensures Xor(Xor(a, b), c) == Xor(a, Xor(b, c))
    decreases a + b + c
  {
    if a == 0 && b == 0 && c == 0 {
    } else {
      XorAssociates(a / 2, b / 2, c / 2);
    }
  }

  lemma {:induction false} XorCancels(a: nat, b: nat)
    ensures Xor(a, b) == 0 <==> a == b
    decreases a + b
  {
    if a == 0 && b == 0 {
    } else {
      XorCancels(a / 2, b / 2);
    }
  }

  lemma {:induction false} XorInjective(a: nat, b: nat, c: nat)
    requires Xor(a, c) == Xor(b, c)
    ensures a == b
    decreases a + b + c
  {
    if a == 0 && b == 0 && c == 0 {
    } else {
      XorInjective(a / 2, b / 2, c / 2);
    }
  }

  /** (a ^ b) ^ (c ^ d) == (a ^ c) ^ (b ^ d) */
  lemma XorSwap(a: nat, b: nat, c: nat, d: nat)
    ensures Xor(Xor(a, b), Xor(c, d)) == Xor(Xor(a, c), Xor(b, d))
  {
    XorAssociates(a, b, Xor(c, d));
    XorAssociates(b, c, d);
    XorCommutes(b, c);
    XorAssociates(c, b, d);
    XorAssociates(a, c, Xor(b, d));
  }

  lemma DoublePow2(n: nat, high: nat)
    requires n > 0
    ensures Pow2(n) * high == 2 * (Pow2(n - 1) * high)
  {
  }

  lemma XorDouble(low: nat, high: nat)
    ensures Xor(low, 2 * high) == 2 * Xor(low / 2, high) + low % 2
  {
  }

  /** Numbers with no bit in common: exclusive or adds them. */
  lemma {:induction false} XorOfDisjoint(low: nat, high: nat, n: nat)
    requires low < Pow2(n)
    ensures Xor(low, Pow2(n) * high) == low + Pow2(n) * high
  {
    hide Xor;
    if n == 0 {
      XorZero(high);
    } else {
      var half := Pow2(n - 1) * high;
      XorOfDisjoint(low / 2, high, n - 1);
      XorDouble(low, half);
      DoublePow2(n, high);
    }
  }

  lemma XorStep(a: nat, b: nat)
    ensures Xor(a, b) == 2 * Xor(a / 2, b / 2) + if a % 2 == b % 2 then 0 else 1
  {
  }

  /** The bit at position `n` is combined on its own. */
  lemma {:induction false} XorTopBit(a: nat, b: nat, n: nat, ta: bool, tb: bool)
    requires a < Pow2(n) && b < Pow2(n)
    ensures Xor(a + (if ta then Pow2(n) else 0), b + (if tb then Pow2(n) else 0))
         == Xor(a, b) + (if ta != tb then Pow2(n) else 0)
  {
    hide Xor;
    if n == 0 {
      XorZero(0);
      XorZero(1);
      XorCancels(1, 1);
    } else {
      XorTopBit(a / 2, b / 2, n - 1, ta, tb);
      XorStep(a, b);
      XorStep(a + if ta then Pow2(n) else 0, b + if tb then Pow2(n) else 0);
    }
  }

  function Xor32(a: U32, b: U32): U32 {
    PowersOfTwo();
    XorBound(a, b, 32);
    Xor(a, b)
  }

  function Xor16(a: Word, b: Word): Word {
    PowersOfTwo();
    XorBound(a, b, 16);
    Xor(a, b)
  }

  // ---------------------------------------------------------------- CRC-32

  /** One reflected shift of the CRC-32 register. */
  function Shift32(crc: U32): U32 {
    if crc % 2 == 1 then Xor32(crc / 2, CRC32_POLYNOMIAL) else crc / 2
  }

  function Shifts32(crc: U32, n: nat): U32 {
    if n == 0 then crc else Shift32(Shifts32(crc, n - 1))
  }

  function Crc32Byte(crc: U32, value: Byte): U32 {
    Shifts32(Xor32(crc, value), 8)
  }

  function Crc32Word(crc: U32, word: Word): U32 {
    Crc32Byte(Crc32Byte(crc, word % 0x100), word / 0x100)
  }

  /** The register after all of `words`, from the register `crc`. */
  function Crc32Fold(crc: U32, words: seq<Word>): U32 {
    if words == [] then crc
    else Crc32Word(Crc32Fold(crc, words[..|words| - 1]), words[|words| - 1])
  }

  function Crc32Finalize(crc: U32): U32 {
    Xor32(crc, 0xFFFF_FFFF)
  }

  function Crc32Of(words: seq<Word>): U32 {
    Crc32Finalize(Crc32Fold(CRC32_INIT, words))
  }

  method UpdateByte32(crc: U32, byteValue: Word) returns (r: U32)
    ensures r == Crc32Byte(crc, byteValue % 0x100)
  {
    r := Xor32(crc, byteValue % 0x100);
    for bit := 0 to 8
      invariant r == Shifts32(Xor32(crc, byteValue % 0x100), bit)
    {
      if r % 2 != 0 {
        r := Xor32(r / 2, CRC32_POLYNOMIAL);
      } else {
        r := r / 2;
      }
    }
  }

  method UpdateWord32(crc: U32, wordValue: Word) returns (r: U32)
    ensures r == Crc32Word(crc, wordValue)
  {
    r := UpdateByte32(crc, wordValue % 0x100);
    r := UpdateByte32(r, wordValue / 0x100 % 0x100);
  }

  method CalcWords32(words: array<Word>, wordCount: nat) returns (r: U32)
    requires wordCount <= words.Length
    ensures r == Crc32Of(words[..wordCount])
  {
    r := CRC32_INIT;
    for index := 0 to wordCount
      invariant r == Crc32Fold(CRC32_INIT, words[..index])
    {
      r := UpdateWord32(r, words[index]);
      assert words[..index + 1][..index] == words[..index];
    }
    r := Crc32Finalize(r);
  }

  lemma {:induction false} Crc32FoldConcat(crc: U32, a: seq<Word>, b: seq<Word>)
    ensures Crc32Fold(crc, a + b) == Crc32Fold(Crc32Fold(crc, a), b)
  {
    if b == [] {
      assert a + b == a;
    } else {
      assert (a + b)[..|a + b| - 1] == a + b[..|b| - 1];
      Crc32FoldConcat(crc, a, b[..|b| - 1]);
    }
  }

  lemma FeedbackLinear(x: nat, y: nat, p: nat, tx: bool, ty: bool)
    ensures Xor(Xor(x, y), if tx != ty then p else 0)
         == Xor(Xor(x, if tx then p else 0), Xor(y, if ty then p else 0))
  {
    XorZero(p);
    XorCancels(p, p);
    XorSwap(x, y, if tx then p else 0, if ty then p else 0);
  }

  function RightShift(crc: nat, p: nat): nat {
    if crc % 2 == 1 then Xor(crc / 2, p) else crc / 2
  }

  lemma RightShiftAsXor(crc: nat, p: nat)
    ensures RightShift(crc, p) == Xor(crc / 2, if crc % 2 == 1 then p else 0)
  {
    XorZero(crc / 2);
  }

  lemma XorHalves(a: nat, b: nat)
    ensures Xor(a, b) / 2 == Xor(a / 2, b / 2)
    ensures Xor(a, b) % 2 == 1 <==> (a % 2 == 1) != (b % 2 == 1)
  {
  }

  /** A right shift with feedback `p` distributes over exclusive or. */
  lemma RightShiftLinear(a: nat, b: nat, p: nat)
    ensures RightShift(Xor(a, b), p) == Xor(RightShift(a, p), RightShift(b, p))
  {
    XorHalves(a, b);
    RightShiftAsXor(a, p);
    RightShiftAsXor(b, p);
    RightShiftAsXor(Xor(a, b), p);
    FeedbackLinear(a / 2, b / 2, p, a % 2 == 1, b % 2 == 1);
  }

  lemma Shift32Linear(a: U32, b: U32)
    ensures Shift32(Xor32(a, b)) == Xor32(Shift32(a), Shift32(b))
  {
    RightShiftLinear(a, b, CRC32_POLYNOMIAL);
  }

  lemma {:induction false} Shifts32Linear(a: U32, b: U32, n: nat)
    ensures Shifts32(Xor32(a, b), n) == Xor32(Shifts32(a, n), Shifts32(b, n))
  {
    if n == 0 {
    } else {
      Shifts32Linear(a, b, n - 1);
      Shift32Linear(Shifts32(a, n - 1), Shifts32(b, n - 1));
    }
  }

  /** The register never loses information: the polynomial's top bit is set, a
      shifted register's is not. */
  lemma {:induction false} Shifts32Injective(a: U32, b: U32, n: nat)
    requires Shifts32(a, n) == Shifts32(b, n)
    ensures a == b
  {
    hide Xor;
    if n == 0 {
    } else {
      var x, y := Shifts32(a, n - 1), Shifts32(b, n - 1);
      Shift32Linear(x, y);
      XorCancels(Shift32(x), Shift32(y));
      XorCancels(Xor32(x, y) / 2, CRC32_POLYNOMIAL);
      XorCancels(x, y);
      Shifts32Injective(a, b, n - 1);
    }
  }

  lemma {:induction false} Shifts32Add(crc: U32, m: nat, n: nat)
    ensures Shifts32(Shifts32(crc, m), n) == Shifts32(crc, m + n)
  {
    if n == 0 {
    } else {
      Shifts32Add(crc, m, n - 1);
    }
  }

  /** Feeding a word is one exclusive or followed by sixteen shifts. */
  lemma Crc32WordAsShifts(crc: U32, word: Word)
    ensures Crc32Word(crc, word) == Shifts32(Xor32(crc, word), 16)
  {
    var low, high := word % 0x100, word / 0x100;
    var fed := Xor32(crc, low);
    PowersOfTwo();
    SlidesDown(high, 8);
    Shifts32Linear(fed, 0x100 * high, 8);
    XorAssociates(crc, low, 0x100 * high);
    XorOfDisjoint(low, high, 8);
    Shifts32Add(Xor32(crc, word), 8, 8);
  }

  lemma {:induction false} SlidesDown(crc: nat, n: nat)
    requires Pow2(n) * crc < 0x1_0000_0000
    ensures crc < 0x1_0000_0000 && Shifts32(Pow2(n) * crc, n) == crc
  {
    if n == 0 {
    } else {
      assert Pow2(n) * crc == 2 * (Pow2(n - 1) * crc);
      SlidesDown(crc, n - 1);
      assert Shifts32(Pow2(n) * crc, 1) == Shift32(Shifts32(Pow2(n) * crc, 0)) == Pow2(n - 1) * crc;
      Shifts32Add(Pow2(n) * crc, 1, n - 1);
    }
  }

  lemma Crc32WordInjective(crc: U32, word: Word, crc': U32, word': Word)
    requires Crc32Word(crc, word) == Crc32Word(crc', word')
    ensures word == word' ==> crc == crc'
    ensures crc == crc' ==> word == word'
  {
    Crc32WordAsShifts(crc, word);
    Crc32WordAsShifts(crc', word');
    Shifts32Injective(Xor32(crc, word), Xor32(crc', word'), 16);
    if word == word' {
      XorInjective(crc, crc', word);
    }
    if crc == crc' {
      XorCommutes(crc, word);
      XorCommutes(crc, word');
      XorInjective(word, word', crc);
    }
  }

  lemma {:induction false} Crc32FoldDetects(crc: U32, words: seq<Word>, i: nat, word: Word)
    requires i < |words| && word != words[i]
    ensures Crc32Fold(crc, words[i := word]) != Crc32Fold(crc, words)
  {
    var n := |words| - 1;
    var changed := words[i := word];
    if i == n {
      assert changed[..n] == words[..n];
    } else {
      assert changed[..n] == words[..n][i := word];
      Crc32FoldDetects(crc, words[..n], i, word);
    }
    if Crc32Fold(crc, changed) == Crc32Fold(crc, words) {
      Crc32WordInjective(Crc32Fold(crc, changed[..n]), changed[n], Crc32Fold(crc, words[..n]), words[n]);
    }
  }

  /** Changing exactly one word always changes the CRC-32. */
  lemma Crc32DetectsOneWord(words: seq<Word>, i: nat, word: Word)
    requires i < |words| && word != words[i]
    ensures Crc32Of(words[i := word]) != Crc32Of(words)
  {
    Crc32FoldDetects(CRC32_INIT, words, i, word);
    if Crc32Of(words[i := word]) == Crc32Of(words) {
      XorInjective(Crc32Fold(CRC32_INIT, words[i := word]), Crc32Fold(CRC32_INIT, words), 0xFFFF_FFFF);
    }
  }

  // ---------------------------------------------------------------- CRC-16

  /** One left shift of the CRC-16 register; the bit shifted out is dropped. */
  function Shift16(crc: Word): Word {
    if crc >= 0x8000 then Xor16(2 * (crc - 0x8000), CRC16_POLYNOMIAL) else 2 * crc
  }

  function Shifts16(crc: Word, n: nat): Word {
    if n == 0 then crc else Shift16(Shifts16(crc, n - 1))
  }

  function Crc16Byte(crc: Word, value: Byte): Word {
    Shifts16(Xor16(crc, 0x100 * value), 8)
  }

  function Crc16Word(crc: Word, word: Word): Word {
    Crc16Byte(Crc16Byte(crc, word % 0x100), word / 0x100)
  }

  function Crc16Fold(crc: Word, words: seq<Word>): Word {
    if words == [] then crc
    else Crc16Word(Crc16Fold(crc, words[..|words| - 1]), words[|words| - 1])
  }

  function Crc16Of(words: seq<Word>): Word {
    Crc16Fold(CRC16_INIT, words)
  }

  method CrcByte16(crc: Word, byteValue: Word) returns (r: Word)
    ensures r == Crc16Byte(crc, byteValue % 0x100)
  {
    var low: Byte := byteValue % 0x100;
    r := Xor16(crc, 0x100 * low);
    for bit := 0 to 8
      invariant r == Shifts16(Xor16(crc, 0x100 * low), bit)
    {
      if r >= 0x8000 {
        r := Xor16(2 * (r - 0x8000), CRC16_POLYNOMIAL);
      } else {
        r := 2 * r;
      }
    }
  }

  method CrcWord16(crc: Word, word: Word) returns (r: Word)
    ensures r == Crc16Word(crc, word)
  {
    r := CrcByte16(crc, word % 0x100);
    r := CrcByte16(r, word / 0x100);
  }

  method CrcWords16(words: array<Word>, wordCount: nat) returns (crc: Word)
    requires wordCount <= words.Length
    ensures crc == Crc16Of(words[..wordCount])
  {
    crc := CRC16_INIT;
    for index := 0 to wordCount
      invariant crc == Crc16Fold(CRC16_INIT, words[..index])
    {
      crc := CrcWord16(crc, words[index]);
      assert words[..index + 1][..index] == words[..index];
    }
  }

  function LeftShift(crc: Word, p: Word): Word {
    if crc >= 0x8000 then Xor16(2 * (crc - 0x8000), p) else 2 * crc
  }

  /** The register without its top bit. */
  function Below(crc: Word): nat {
    if crc >= 0x8000 then crc - 0x8000 else crc
  }

  lemma LeftShiftAsXor(crc: Word, p: Word)
    ensures LeftShift(crc, p) == Xor(2 * Below(crc), if crc >= 0x8000 then p else 0)
  {
    XorZero(2 * Below(crc));
  }

  lemma XorTop16(a: Word, b: Word)
    ensures Xor16(a, b) >= 0x8000 <==> (a >= 0x8000) != (b >= 0x8000)
    ensures 2 * Below(Xor16(a, b)) == Xor(2 * Below(a), 2 * Below(b))
  {
    hide Xor;
    PowersOfTwo();
    XorBound(Below(a), Below(b), 15);
    XorTopBit(Below(a), Below(b), 15, a >= 0x8000, b >= 0x8000);
    XorHalves(2 * Below(a), 2 * Below(b));
  }

  /** A left shift with feedback `p` distributes over exclusive or. */
  lemma LeftShiftLinear(a: Word, b: Word, p: Word)
    ensures LeftShift(Xor16(a, b), p) == Xor16(LeftShift(a, p), LeftShift(b, p))
  {
    XorTop16(a, b);
    LeftShiftAsXor(a, p);
    LeftShiftAsXor(b, p);
    LeftShiftAsXor(Xor16(a, b), p);
    FeedbackLinear(2 * Below(a), 2 * Below(b), p, a >= 0x8000, b >= 0x8000);
  }

  lemma Shift16Linear(a: Word, b: Word)
    ensures Shift16(Xor16(a, b)) == Xor16(Shift16(a), Shift16(b))
  {
    LeftShiftLinear(a, b, CRC16_POLYNOMIAL);
  }

  lemma {:induction false} Shifts16Linear(a: Word, b: Word, n: nat)
    ensures Shifts16(Xor16(a, b), n) == Xor16(Shifts16(a, n), Shifts16(b, n))
  {
    if n == 0 {
    } else {
      Shifts16Linear(a, b, n - 1);
      Shift16Linear(Shifts16(a, n - 1), Shifts16(b, n - 1));
    }
  }

  /** A shifted register is even, the polynomial is odd. */
  lemma {:induction false} Shifts16Injective(a: Word, b: Word, n: nat)
    requires Shifts16(a, n) == Shifts16(b, n)
    ensures a == b
  {
    if n == 0 {
    } else {
      hide Xor, LeftShift;
      var x, y := Shifts16(a, n - 1), Shifts16(b, n - 1);
      Shift16Linear(x, y);
      XorCancels(Shift16(x), Shift16(y));
      XorCancels(2 * Below(Xor16(x, y)), CRC16_POLYNOMIAL);
      XorCancels(x, y);
      Shifts16Injective(a, b, n - 1);
    }
  }

  lemma {:induction false} SlidesUp(crc: nat, n: nat)
    requires Pow2(n) * crc < 0x1_0000
    ensures crc < 0x1_0000 && Shifts16(crc, n) == Pow2(n) * crc
  {
    hide Xor;
    if n == 0 {
    } else {
      DoublePow2(n, crc);
      SlidesUp(crc, n - 1);
    }
  }

  /** Feeding a word is one exclusive or with its swapped bytes, then sixteen shifts. */
  lemma Crc16WordAsShifts(crc: Word, word: Word)
    ensures Crc16Word(crc, word)
         == Shifts16(Shifts16(Xor16(crc, 0x100 * (word % 0x100) + word / 0x100), 8), 8)
  {
    var low, high := word % 0x100, word / 0x100;
    assert Pow2(8) == 0x100;
    SlidesUp(high, 8);
    Shifts16Linear(Xor16(crc, 0x100 * low), high, 8);
    XorAssociates(crc, 0x100 * low, high);
    XorOfDisjoint(high, low, 8);
    XorCommutes(high, 0x100 * low);
  }

  lemma Crc16WordInjective(crc: Word, word: Word, crc': Word, word': Word)
    requires Crc16Word(crc, word) == Crc16Word(crc', word')
    ensures word == word' ==> crc == crc'
    ensures crc == crc' ==> word == word'
  {
    hide Xor, Shifts16, Crc16Word;
    Crc16WordAsShifts(crc, word);
    Crc16WordAsShifts(crc', word');
    var swapped, swapped' := 0x100 * (word % 0x100) + word / 0x100, 0x100 * (word' % 0x100) + word' / 0x100;
    Shifts16Injective(Shifts16(Xor16(crc, swapped), 8), Shifts16(Xor16(crc', swapped'), 8), 8);
    Shifts16Injective(Xor16(crc, swapped), Xor16(crc', swapped'), 8);
    if word == word' {
      XorInjective(crc, crc', swapped);
    }
    if crc == crc' {
      XorCommutes(crc, swapped);
      XorCommutes(crc, swapped');
      XorInjective(swapped, swapped', crc);
    }
  }

  /** Changing exactly one word always changes the CRC-16. */
  lemma {:induction false} Crc16DetectsOneWord(crc: Word, words: seq<Word>, i: nat, word: Word)
    requires i < |words| && word != words[i]
    ensures Crc16Fold(crc, words[i := word]) != Crc16Fold(crc, words)
  {
    var n := |words| - 1;
    var changed := words[i := word];
    if i == n {
      assert changed[..n] == words[..n];
    } else {
      assert changed[..n] == words[..n][i := word];
      Crc16DetectsOneWord(crc, words[..n], i, word);
    }
    if Crc16Fold(crc, changed) == Crc16Fold(crc, words) {
      Crc16WordInjective(Crc16Fold(crc, changed[..n]), changed[n], Crc16Fold(crc, words[..n]), words[n]);
    }
  }

  // ---------------------------------------------------------------- known values

  lemma {:induction false} XorComplement(a: nat, n: nat)
    requires a < Pow2(n)
    ensures Xor(a, Pow2(n) - 1) == Pow2(n) - 1 - a
  {
    if n > 0 {
      XorComplement(a / 2, n - 1);
    }
  }

  /** The registers of RFC 1952's table and of CRC-16/CCITT-FALSE that fix both polynomials,
      the direction of the shifts and the order of the bytes, and the values that fix how a
      checksum starts and ends. */
  lemma KnownValues(crc: U32)
    ensures Shift32(1) == 0xEDB8_8320 && Crc32Byte(0, 0x80) == 0xEDB8_8320
    ensures Crc32Word(0, 0x8000) == 0xEDB8_8320
    ensures Crc32Finalize(crc) == 0xFFFF_FFFF - crc && Crc32Of([]) == 0
    ensures Shift16(0x8000) == 0x1021 && Crc16Byte(0, 0x01) == 0x1021
    ensures Crc16Word(0, 0x0100) == 0x1021 && Crc16Of([]) == 0xFFFF
  {
    PowersOfTwo();
    XorComplement(crc, 32);
    XorComplement(CRC32_INIT, 32);
    XorZero(CRC32_POLYNOMIAL);
    XorZero(CRC16_POLYNOMIAL);
    TableEntries(0x80, 0x01);
  }

  lemma TableEntries(top: Byte, bottom: Byte)
    requires top == 0x80 && bottom == 0x01
    ensures Crc32Byte(0, top) == CRC32_POLYNOMIAL && Crc32Byte(0, 0) == 0
    ensures Crc16Byte(0, bottom) == CRC16_POLYNOMIAL && Crc16Byte(0, 0) == 0
  {
    hide Xor;
    XorZero(top);
    XorZero(0);
    XorZero(0x100 * bottom);
    XorZero(CRC32_POLYNOMIAL);
    XorZero(CRC16_POLYNOMIAL);
    assert Shifts32(top, 4) == 0x08;
    assert Shifts32(top, 7) == 0x01;
    assert Shifts32(0, 4) == 0;
    assert Shifts16(0x100 * bottom, 4) == 0x1000;
    assert Shifts16(0x100 * bottom, 7) == 0x8000;
    assert Shifts16(0, 4) == 0;
  }
}
