/** RAM of the target: the write regions, the fixed layout of the Flash Service window,
    and memory as a value. */
module RamMap {
  import opened Words

  /** One past the last address of any write region. */
  const RAM_SIZE := 0x4_B800

  type Ram = m: seq<Word> | |m| == RAM_SIZE witness seq(RAM_SIZE, _ => 0)

  const HEADER_ADDRESS: U32 := 0x01_3000
  const HEADER_WORDS := 28
  const HEADER_RESERVED_WORDS := 0x20
  const PUBLISH_ADDRESS: U32 := 0x01_3020
  const RUNTIME_ADDRESS: U32 := 0x01_3022
  const RUNTIME_WORDS := 0x3E
  const EXPORT_ADDRESS: U32 := 0x01_3080
  const DATA_ADDRESS: U32 := 0x01_5B00
  const DATA_WORDS := 0x500
  const WINDOW_END: U32 := 0x01_6000

  const PUBLISH_VALID: Word := 0xA55A
  const PUBLISH_VALID_INVERSE: Word := 0x5AA5
  const PUBLISH_INVALID: Word := 0

  datatype Region = Region(start: nat, end: nat)

  const REGIONS: seq<Region> := [
    Region(0x0_0000, 0x0_0002), Region(0x0_0123, 0x0_0400), Region(0x0_8000, 0x0_C000),
    Region(0x1_0000, 0x1_BFF8), Region(0x3_F800, 0x4_0000), Region(0x4_9000, 0x4_9800),
    Region(0x4_B000, 0x4_B800)]

  /** The range lies inside one region. */
  predicate Inside(r: Region, start: int, end: int) {
    r.start <= start && end <= r.end
  }

  /** The regions are tried in order; the sum wraps as a uint32_t does. */
  predicate IsInWriteRegion(address: U32, count: U32) {
    var end := (address + count) % 0x1_0000_0000;
    && count != 0
    && end >= address
    && (Inside(REGIONS[0], address, end) || Inside(REGIONS[1], address, end) || Inside(REGIONS[2], address, end) ||
        Inside(REGIONS[3], address, end) || Inside(REGIONS[4], address, end) || Inside(REGIONS[5], address, end) ||
        Inside(REGIONS[6], address, end))
  }

  /** A range is writable exactly when it is not empty and fits one region. */
  lemma WriteRegionMeaning(address: U32, count: U32)
    ensures IsInWriteRegion(address, count) <==>
            count > 0 && exists i :: 0 <= i < |REGIONS| && Inside(REGIONS[i], address, address + count)
    ensures IsInWriteRegion(address, count) ==> address + count <= RAM_SIZE
  {
    if count > 0 && exists i :: 0 <= i < |REGIONS| && Inside(REGIONS[i], address, address + count) {
      var i :| 0 <= i < |REGIONS| && Inside(REGIONS[i], address, address + count);
      assert i == 0 || i == 1 || i == 2 || i == 3 || i == 4 || i == 5 || i == 6;
    }
  }

  /** No two regions touch: adjacent writable ranges lie in one region, so joining them
      gives a writable range; and every part of a writable range is writable. */
  lemma AdjacentRangesJoin(address: U32, first: U32, second: U32)
    requires first > 0 && second > 0 && address + first + second < 0x1_0000_0000
    ensures IsInWriteRegion(address, first) && IsInWriteRegion(address + first, second) <==>
            IsInWriteRegion(address, first + second)
  {
  }

  function Store(ram: Ram, address: nat, data: seq<Word>): (r: Ram)
    requires address + |data| <= RAM_SIZE
    ensures forall a :: 0 <= a < RAM_SIZE ==>
      r[a] == if address <= a < address + |data| then data[a - address] else ram[a]
  {
    ram[..address] + data + ram[address + |data|..]
  }

  /** Reading back a range that a store did not touch. */
  lemma StoreKeepsRange(ram: Ram, address: nat, data: seq<Word>, lo: nat, hi: nat)
    requires address + |data| <= RAM_SIZE && lo <= hi <= RAM_SIZE
    requires address + |data| <= lo || hi <= address
    ensures Store(ram, address, data)[lo..hi] == ram[lo..hi]
  {
  }

  function Unpublish(ram: Ram): Ram {
    Store(ram, PUBLISH_ADDRESS, [PUBLISH_INVALID, PUBLISH_INVALID])
  }

  function Publish(ram: Ram): Ram {
    Store(ram, PUBLISH_ADDRESS, [PUBLISH_VALID, PUBLISH_VALID_INVERSE])
  }

  /** What the App checks before it calls the service. */
  predicate Published(ram: Ram) {
    ram[PUBLISH_ADDRESS] == PUBLISH_VALID && ram[PUBLISH_ADDRESS + 1] == PUBLISH_VALID_INVERSE
  }

  /** The overlap test of the core, with its uint32_t sum. */
  predicate OverlapsWindow(address: U32, count: U32) {
    var end := (address + count) % 0x1_0000_0000;
    count != 0 && end >= address && address < WINDOW_END && end > HEADER_ADDRESS
  }
}
