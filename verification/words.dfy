/** Machine integers of both sides of the link, as ranges of `int`. */
module Words {

  type Byte = x: int | 0 <= x < 0x100
  type Word = x: int | 0 <= x < 0x1_0000
  type U32 = x: int | 0 <= x < 0x1_0000_0000

  const ERASED_WORD: Word := 0xFFFF

  datatype Option<+T> = None | Some(value: T)

  /** The counter after `value`, as a uint32_t wraps. */
  function Increment(value: U32): U32 {
    (value + 1) % 0x1_0000_0000
  }

  /** The U32 whose low half is `low` and whose high half is `high`. */
  function Join(low: Word, high: Word): U32 {
    low + 0x1_0000 * high
  }

  function Low(value: U32): Word {
    value % 0x1_0000
  }

  function High(value: U32): Word {
    value / 0x1_0000
  }

  lemma JoinSplit(value: U32)
    ensures Join(Low(value), High(value)) == value
  {
  }

  lemma SplitJoin(low: Word, high: Word)
    ensures Low(Join(low, high)) == low
    ensures High(Join(low, high)) == high
  {
  }

  lemma JoinIsZero(low: Word, high: Word)
    ensures Join(low, high) == 0 <==> low == 0 && high == 0
  {
  }

  /** Alignment to eight is decided by the low word. */
  lemma AlignmentIsLow(low: Word, high: Word)
    ensures Join(low, high) % 8 == low % 8
  {
    assert Join(low, high) == low + 8 * (0x2000 * (high as int));
  }
}
