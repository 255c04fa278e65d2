/** The erase sectors and the erase mask in numbers. */
module SectorMap {
  import opened Words
  import opened Record
  import opened FlashPort

  /** Where the sectors A to N start, and where the last one ends. */
  const LIMITS: seq<nat> := [
    0x08_0000, 0x08_2000, 0x08_4000, 0x08_6000, 0x08_8000, 0x09_0000, 0x09_8000, 0x0A_0000,
    0x0A_8000, 0x0B_0000, 0x0B_8000, 0x0B_A000, 0x0B_C000, 0x0B_E000, 0x0C_0000]

  const BITS: seq<nat> := [
    0x0001, 0x0002, 0x0004, 0x0008, 0x0010, 0x0020, 0x0040, 0x0080, 0x0100, 0x0200, 0x0400, 0x0800, 0x1000, 0x2000]

  predicate InSector(a: int, i: int) {
    0 <= i < 14 && LIMITS[i] <= a < LIMITS[i + 1]
  }

  predicate Bit(mask: nat, i: int) {
    0 <= i < 14 && mask / BITS[i] % 2 == 1
  }

  lemma SectorMeans(a: nat)
    ensures forall i :: 0 <= i < 14 ==> (SectorOf(a) == i <==> InSector(a, i))
    ensures SectorOf(a) < 14 <==> 0x08_0000 <= a < 0x0C_0000
    ensures SectorOf(a) < 14 ==> InSector(a, SectorOf(a))
  {
  }

  lemma SectorIs(a: nat, i: int)
    requires 0 <= i < 14 && InSector(a, i)
    ensures SectorOf(a) == i
  {
    SectorMeans(a);
  }

  lemma HalfOf(mask: nat, b: nat)
    requires b > 0
    ensures mask / 2 / b == mask / (2 * b)
  {
    var q, r := mask / 2 / b, mask / 2 % b;
    assert mask / 2 == q * b + r;
    var rest := 2 * r + mask % 2;
    assert mask == q * (2 * b) + rest && 0 <= rest < 2 * b;
    Quotient(mask, 2 * b, q, rest);
  }

  lemma ProductAscends(p: nat, q: nat, d: nat)
    requires p < q
    ensures p * d + d <= q * d
  {
    assert (q - p - 1) * d >= 0;
    assert q * d == p * d + d + (q - p - 1) * d;
  }

  lemma Quotient(x: nat, d: nat, q: nat, r: nat)
    requires d > 0 && x == q * d + r && r < d
    ensures x / d == q
  {
    var p := x / d;
    Divided(x, d);
    if p < q {
      ProductAscends(p, q, d);
    } else if q < p {
      ProductAscends(q, p, d);
    }
  }

  lemma Divided(x: nat, d: nat)
    requires d > 0
    ensures x == x / d * d + x % d && x % d < d
  {
  }

  function PowerOfTwo(i: nat): nat {
    if i == 0 then 1 else 2 * PowerOfTwo(i - 1)
  }

  lemma {:induction false} SelectedIsBit(mask: nat, i: nat)
    ensures PowerOfTwo(i) > 0 && (Selected(mask, i) <==> mask / PowerOfTwo(i) % 2 == 1)
  {
    if i > 0 {
      SelectedIsBit(mask / 2, i - 1);
      HalfOf(mask, PowerOfTwo(i - 1));
    }
  }

  lemma Powers()
    ensures forall i :: 0 <= i < 14 ==> BITS[i] == PowerOfTwo(i)
  {
    assert PowerOfTwo(4) == 0x10 && PowerOfTwo(8) == 0x100 && PowerOfTwo(12) == 0x1000;
  }

  /** The sectors a mask selects are those whose bit is set. */
  lemma SelectedMeans(mask: nat, i: nat)
    requires i < 14
    ensures Selected(mask, i) <==> Bit(mask, i)
  {
    SelectedIsBit(mask, i);
    Powers();
  }

  /** The range lies in one sector. */
  predicate InOneSector(address: int, count: nat) {
    exists i :: 0 <= i < 14 && InSector(address, i) && address + count <= LIMITS[i + 1]
  }

  /** What the port takes: a range of the App area within one sector, in units of eight
      words when it is to be programmed. */
  lemma AllowedMeans(address: U32, count: nat, program: bool)
    ensures AddressAllowed(address, count, program) <==>
      && 0x08_2400 <= address && address + count <= 0x0C_0000
      && InOneSector(address, count)
      && (program ==> address % 8 == 0 && count % 8 == 0)
  {
    hide SectorOf, InSector;
    if AddressAllowed(address, count, program) {
      AllowedIsInside(address, count, program);
    }
    if InOneSector(address, count) {
      var i :| 0 <= i < 14 && InSector(address, i) && address + count <= LIMITS[i + 1];
      OneSectorIs(address, count, i);
    }
  }

  lemma AllowedIsInside(address: U32, count: nat, program: bool)
    requires AddressAllowed(address, count, program)
    ensures InOneSector(address, count)
  {
    hide SectorOf;
    var i := SectorOf(address);
    SectorMeans(address);
    if count > 0 {
      SectorMeans(address + count - 1);
    }
    assert InSector(address, i) && address + count <= LIMITS[i + 1];
  }

  lemma OneSectorIs(address: nat, count: nat, i: int)
    requires 0 <= i < 14 && InSector(address, i) && address + count <= LIMITS[i + 1]
    ensures SectorOf(address) == i && (count > 0 ==> SectorOf(address + count - 1) == i)
  {
    hide SectorOf;
    SectorIs(address, i);
    if count > 0 {
      SectorIs(address + count - 1, i);
    }
  }
}
