/** Population count, a word at a time and a bit at a time. */
module Bitcount {

  /** The first three steps of __bitcount32: each byte of the result counts the ones of that byte. */
  function PerByte(x: bv32): bv32 {
    var pairs := (x & 0x55555555) + ((x & 0xaaaaaaaa) >> 1);
    var nibbles := (pairs & 0x33333333) + ((pairs & 0xcccccccc) >> 2);
    (nibbles + (nibbles >> 4)) & 0x0f0f0f0f
  }

  /** The last two steps: add the bytes up. */
  function Gathered(x: bv32): bv32 {
    var halves := x + (x >> 8);
    (halves + (halves >> 16)) & 0x000000ff
  }

  /** __bitcount32. */
  function Bitcount32(x: bv32): bv32 {
    Gathered(PerByte(x))
  }

  /** __bitcount16. */
  function Bitcount16(x: bv16): bv16 {
    var pairs := (x & 0x5555) + ((x & 0xaaaa) >> 1);
    var nibbles := (pairs & 0x3333) + ((pairs & 0xcccc) >> 2);
    var bytes := (nibbles + (nibbles >> 4)) & 0x0f0f;
    (bytes + (bytes >> 8)) & 0x00ff
  }

  /** __bitcount64 as it is on a 32-bit machine, where the argument is two words. */
  function Bitcount64(high: bv32, low: bv32): bv32 {
    Bitcount32(high) + Bitcount32(low)
  }

  /** The eight lowest bits, added one at a time. */
  function OnesOfByte(x: bv32): bv32 {
    (x & 1) + ((x >> 1) & 1) + ((x >> 2) & 1) + ((x >> 3) & 1)
    + ((x >> 4) & 1) + ((x >> 5) & 1) + ((x >> 6) & 1) + ((x >> 7) & 1)
  }

  /** All 32 bits, added one at a time. */
  function Ones(x: bv32): bv32 {
    OnesOfByte(x) + OnesOfByte(x >> 8) + OnesOfByte(x >> 16) + OnesOfByte(x >> 24)
  }

  /** The lowest byte of `x` is `a`, which is the count of at most eight bits. */
  predicate HasCount(x: bv32, a: bv32) {
    x & 0xff == a <= 8
  }

  lemma GatheredAdds(x: bv32, a: bv32, b: bv32, c: bv32, d: bv32)
    requires HasCount(x, a) && HasCount(x >> 8, b) && HasCount(x >> 16, c) && HasCount(x >> 24, d)
    ensures Gathered(x) == a + b + c + d
  {
  }

  // Each byte counts its own ones: no carries cross bytes.

  lemma FirstByteCounts(x: bv32)
    ensures HasCount(PerByte(x), OnesOfByte(x))
  {
  }

  lemma SecondByteCounts(x: bv32)
    ensures HasCount(PerByte(x) >> 8, OnesOfByte(x >> 8))
  {
  }

  lemma ThirdByteCounts(x: bv32)
    ensures HasCount(PerByte(x) >> 16, OnesOfByte(x >> 16))
  {
  }

  lemma FourthByteCounts(x: bv32)
    ensures HasCount(PerByte(x) >> 24, OnesOfByte(x >> 24))
  {
  }

  /** Counting a word at a time is adding its bits one at a time. */
  lemma Bitcount32Counts(x: bv32)
    ensures Bitcount32(x) == Ones(x)
  {
    hide PerByte, OnesOfByte, Gathered, HasCount;
    FirstByteCounts(x);
    SecondByteCounts(x);
    ThirdByteCounts(x);
    FourthByteCounts(x);
    GatheredAdds(PerByte(x), OnesOfByte(x), OnesOfByte(x >> 8), OnesOfByte(x >> 16), OnesOfByte(x >> 24));
  }

  lemma Bitcount64Counts(high: bv32, low: bv32)
    ensures Bitcount64(high, low) == Ones(high) + Ones(low)
  {
    hide Bitcount32, Ones;
    Bitcount32Counts(high);
    Bitcount32Counts(low);
  }

  /** The 16-bit count is the 32-bit one. */
  lemma Bitcount16Counts(x: bv16)
    ensures Bitcount16(x) as bv32 == Ones(x as bv32)
  {
    hide Ones;
    Bitcount32Counts(x as bv32);
    assert Bitcount16(x) as bv32 == Bitcount32(x as bv32);
  }
}
