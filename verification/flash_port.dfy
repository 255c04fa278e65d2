/** The Flash behind the service: its contents, the address checks of the port, and
    what a call leaves behind when it succeeds or stops part-way. */
module FlashPort {
  import opened Words
  import opened Record
  import opened Crash
  import opened Journal

  const APP_WORDS := APP_END - APP_START
  const SECTOR_COUNT := 14
  const ERASE_LIMIT := 0x4000

  type AppArea = s: seq<Word> | |s| == APP_WORDS witness seq(APP_WORDS, _ => ERASED_WORD)

  datatype Flash = Flash(journal: Slots, app: AppArea)

  /** How the hardware answers during one command. A call that does not succeed may
      have stored a prefix of its words, or erased the sectors before `stop`. */
  datatype Port = Port(initOk: bool, callOk: bool, stored: nat, stop: nat)

  datatype FlashResult = FlashOk | BadFlashAddress | FlashFailed

  /** The erase sector of an address: 0 is sector A, 13 is sector N. */
  function SectorOf(address: nat): nat {
    if address < 0x08_8000 then (if address < 0x08_0000 then SECTOR_COUNT else (address - 0x08_0000) / 0x2000)
    else if address < 0x0B_8000 then 4 + (address - 0x08_8000) / 0x8000
    else if address < 0x0C_0000 then 10 + (address - 0x0B_8000) / 0x2000
    else SECTOR_COUNT
  }

  /** App data must lie in one sector of the App area; programming in units of eight. */
  predicate AddressAllowed(address: U32, count: nat, program: bool) {
    && SectorOf(address) < SECTOR_COUNT
    && (count > 0 ==> SectorOf(address + count - 1) == SectorOf(address))
    && APP_START <= address && address + count <= APP_END
    && (program ==> address % 8 == 0 && count % 8 == 0)
  }

  /** Eight words at the start of the App area can be programmed and verified. */
  lemma StartOfApp(low: Word, high: Word)
    requires low == 0x2400 && high == 8
    ensures Join(low, high) == APP_START
    ensures AddressAllowed(APP_START, 8, true) && AddressAllowed(APP_START, 8, false)
  {
  }

  function AppWord(flash: Flash, address: int): Word
    requires APP_START <= address < APP_END
  {
    flash.app[address - APP_START]
  }

  /** Stores the first `stored` words of `data`. */
  function StoreApp(flash: Flash, address: int, data: seq<Word>, stored: nat): (f: Flash)
    requires APP_START <= address && address + |data| <= APP_END && stored <= |data|
    ensures f.journal == flash.journal
    ensures forall a :: APP_START <= a < APP_END ==>
      AppWord(f, a) == if address <= a < address + stored then data[a - address] else AppWord(flash, a)
  {
    var at := address - APP_START;
    flash.(app := flash.app[..at] + data[..stored] + flash.app[at + stored..])
  }

  /** Sector `i` is selected by the erase mask. */
  predicate Selected(mask: nat, i: nat) {
    if i == 0 then mask % 2 == 1 else Selected(mask / 2, i - 1)
  }

  /** The sector of this address is erased by a call that reaches sectors below `stop`. */
  predicate ErasedAt(mask: U32, stop: nat, address: nat) {
    Selected(mask, SectorOf(address)) && SectorOf(address) < stop
  }

  function WordAfterErase(flash: Flash, mask: U32, stop: nat, k: nat): Word
    requires k < APP_WORDS
  {
    if ErasedAt(mask, stop, APP_START + k) then ERASED_WORD else flash.app[k]
  }

  /** Erases the selected sectors below `stop`; sector B holds the journal too. */
  function EraseSectors(flash: Flash, mask: U32, stop: nat): Flash {
    Flash(
      if Selected(mask, 1) && 1 < stop then ErasedJournal() else flash.journal,
      seq<Word>(APP_WORDS, k requires 0 <= k < APP_WORDS => WordAfterErase(flash, mask, stop, k)))
  }

  predicate MaskAllowed(mask: U32) {
    mask % 2 == 0 && mask < ERASE_LIMIT
  }

  /** The Flash words at `address` are exactly `expected`. */
  predicate AppMatches(flash: Flash, address: int, expected: seq<Word>)
    requires APP_START <= address && address + |expected| <= APP_END
  {
    flash.app[address - APP_START..address - APP_START + |expected|] == expected
  }
}
