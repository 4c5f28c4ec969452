/** 32-bit unsigned machine words, with the wrap-around of C's uint32_t written out. */
module Words {

  const TWO32: int := 0x1_0000_0000

  type u32 = x: int | 0 <= x < 0x1_0000_0000

  function Add32(a: u32, b: u32): (r: u32)
    ensures r == if a + b < TWO32 then a + b else a + b - TWO32
  {
    (a + b) % 0x1_0000_0000
  }

  function Sub32(a: u32, b: u32): (r: u32)
    ensures r == if b <= a then a - b else a - b + TWO32
  {
    (a - b) % 0x1_0000_0000
  }

  /** (x + 7) & ~7 on 32 bits. */
  function Align8(x: u32): u32 {
    Add32(x, 7) / 8 * 8
  }

  /** Rounding up to a multiple of 8; the seven largest words wrap to 0. */
  lemma Align8Rounds(x: u32)
    ensures Align8(x) % 8 == 0 && Align8(x) % 4 == 0
    ensures x <= 0xFFFF_FFF8 ==> x <= Align8(x) < x + 8
    ensures x > 0xFFFF_FFF8 ==> Align8(x) == 0
  {
    var sum: int := Add32(x, 7);
    var q := sum / 8;
    assert 8 * q <= sum < 8 * q + 8;
    assert Align8(x) == 8 * q == 4 * (2 * q);
    Eights(q);
    Fours(2 * q);
  }

  lemma Eights(q: nat)
    ensures 8 * q % 8 == 0
  {}

  lemma Fours(q: nat)
    ensures 4 * q % 4 == 0
  {}
}
