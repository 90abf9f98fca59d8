/** A wrapping 16-bit frame counter and its bits. */
module FrameCounter {
  import opened Types

  function CounterAt(frameCounter: u16, i: nat): u16 {
    (frameCounter + i) % U16_SIZE
  }

  /** The counter starts at the given value, and each packet adds one modulo 2^16. */
  lemma CounterStep(frameCounter: u16, k: nat)
    ensures CounterAt(frameCounter, 0) == frameCounter
    ensures (CounterAt(frameCounter, k) + 1) % U16_SIZE == CounterAt(frameCounter, k + 1)
  {
  }

  lemma CountersAgreeExactlyWhen(frameCounter: u16, i: nat, j: nat)
    requires i <= j
    ensures CounterAt(frameCounter, i) == CounterAt(frameCounter, j) <==> (j - i) % U16_SIZE == 0
  {
    assert (frameCounter + j) - (frameCounter + i) == j - i;
  }

  lemma NextByte(b: bv8)
    requires b as int < 0xFF
    ensures (b + 1) as int == b as int + 1
  {
  }

  /** The bits of a byte, counted up from zero. */
  function ByteBits(x: byte): (b: bv8)
    ensures b as int == x
  {
    if x == 0 then 0
    else
      NextByte(ByteBits(x - 1));
      ByteBits(x - 1) + 1
  }

  function CounterBits(n: u16): (bits: bv16)
    ensures bits as int == n
  {
    ValueOfParts(ByteBits(n / 0x100), ByteBits(n % 0x100));
    ((ByteBits(n / 0x100) as bv16) << 8) | (ByteBits(n % 0x100) as bv16)
  }

  lemma ValueOfParts(high: bv8, low: bv8)
    ensures (((high as bv16) << 8) | (low as bv16)) as int == (high as int) * 0x100 + low as int
  {
  }
}
