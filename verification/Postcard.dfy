/** The part of the Postcard wire format that the messages use: variable-length
    integers, single bytes, and the sequencing of fields.  A decoder consumes a
    prefix of its input and leaves the rest. */
module Postcard {
  import opened Types

  datatype Parsed<+T> = Fail | Got(value: T, rest: seq<byte>)

  datatype Codec<!T> = Codec(encode: T -> seq<byte>, decode: seq<byte> -> Parsed<T>)

  /** Decoding what was encoded gives it back and consumes exactly its bytes. */
  ghost predicate Faithful<T(!new)>(c: Codec<T>) {
    forall x, tail :: c.decode(c.encode(x) + tail) == Got(x, tail)
  }

  /** Every strict prefix of an encoding is refused. */
  ghost predicate RefusesPrefixes<T(!new)>(c: Codec<T>) {
    forall x, k :: 0 <= k < |c.encode(x)| ==> c.decode(c.encode(x)[..k]) == Fail
  }

  // ---------------------------------------------------------------- integers

  function EncodeVarint(x: nat): (bytes: seq<byte>)
    ensures |bytes| >= 1
  {
    if x < 0x80 then [x] else [0x80 + x % 0x80] + EncodeVarint(x / 0x80)
  }

  /** The first value too large for an integer of `left` bytes, seven bits each, whose
      last byte may not exceed `lastMax`. */
  function VarintLimit(left: nat, lastMax: byte): nat {
    if left == 0 then 0
    else if left == 1 then lastMax + 1
    else 0x80 * VarintLimit(left - 1, lastMax)
  }

  function DecodeVarint(bytes: seq<byte>, left: nat, lastMax: byte): (parsed: Parsed<nat>)
    requires lastMax < 0x80
    ensures parsed.Got? ==> parsed.value < VarintLimit(left, lastMax)
  {
    if left == 0 || bytes == [] then Fail
    else if bytes[0] < 0x80 then
      if left == 1 && bytes[0] > lastMax then Fail
      else
        VarintLimitGrows(left, lastMax);
        Got(bytes[0], bytes[1..])
    else
      var high := DecodeVarint(bytes[1..], left - 1, lastMax);
      if high.Fail? then Fail else Got(bytes[0] - 0x80 + 0x80 * high.value, high.rest)
  }

  lemma VarintLimitGrows(left: nat, lastMax: byte)
    requires left >= 1
    ensures VarintLimit(left, lastMax) >= 1
    ensures left >= 2 ==> VarintLimit(left, lastMax) >= 0x80
  {
  }

  lemma {:induction false} VarintRoundTrip(x: nat, left: nat, lastMax: byte, tail: seq<byte>)
    requires lastMax < 0x80 && x < VarintLimit(left, lastMax)
    ensures DecodeVarint(EncodeVarint(x) + tail, left, lastMax) == Got(x, tail)
  {
    if x >= 0x80 {
      VarintRoundTrip(x / 0x80, left - 1, lastMax, tail);
      assert (EncodeVarint(x) + tail)[1..] == EncodeVarint(x / 0x80) + tail;
    } else {
      assert (EncodeVarint(x) + tail)[1..] == tail;
    }
  }

  lemma {:induction false} VarintPrefixRefused(x: nat, left: nat, lastMax: byte, k: nat)
    requires lastMax < 0x80 && k < |EncodeVarint(x)|
    ensures DecodeVarint(EncodeVarint(x)[..k], left, lastMax) == Fail
  {
    if k > 0 && left > 0 {
      VarintPrefixRefused(x / 0x80, left - 1, lastMax, k - 1);
      assert EncodeVarint(x)[..k][1..] == EncodeVarint(x / 0x80)[..k - 1];
    }
  }

  function Pow128(k: nat): (power: nat)
    ensures power >= 1
  {
    if k == 0 then 1 else 0x80 * Pow128(k - 1)
  }

  /** Seven bits a byte, the lowest first; the high bit marks every byte but the last, and the last is
      not zero unless it is the only one. */
  lemma {:induction false} VarintIsPositional(x: nat, i: nat)
    requires i < |EncodeVarint(x)|
    ensures var bytes := EncodeVarint(x);
            && bytes[i] == x / Pow128(i) % 0x80 + (if i < |bytes| - 1 then 0x80 else 0)
            && (bytes[|bytes| - 1] == 0 ==> |bytes| == 1)
  {
    if x >= 0x80 {
      VarintIsPositional(x / 0x80, if i > 0 then i - 1 else 0);
      if i > 0 {
        DividedTwice(x, 0x80, Pow128(i - 1));
      }
    }
  }

  /** A 32-bit integer takes one byte for each seven bits it needs. */
  lemma VarintLength(x: u32)
    ensures |EncodeVarint(x)| == if x < 0x80 then 1 else if x < 0x4000 then 2 else if x < 0x20_0000 then 3
                                 else if x < 0x1000_0000 then 4 else 5
  {
    assert EncodeVarint(x) == if x < 0x80 then [x] else [0x80 + x % 0x80] + EncodeVarint(x / 0x80);
    assert x / 0x80 / 0x80 == x / 0x4000;
    assert x / 0x4000 / 0x80 == x / 0x20_0000;
    assert x / 0x20_0000 / 0x80 == x / 0x1000_0000;
  }

  lemma {:induction false} VarintMaxLength(x: nat, left: nat, lastMax: byte)
    requires lastMax < 0x80 && x < VarintLimit(left, lastMax)
    ensures |EncodeVarint(x)| <= left
  {
    if x >= 0x80 {
      VarintMaxLength(x / 0x80, left - 1, lastMax);
    }
  }

  lemma Limits()
    ensures VarintLimit(5, 0x0F) == U32_SIZE && VarintLimit(10, 0x01) == U64_SIZE
  {
    assert VarintLimit(3, 0x0F) == 0x80 * VarintLimit(2, 0x0F) == 0x4_0000;
    assert VarintLimit(4, 0x01) == 0x80 * VarintLimit(3, 0x01) == 0x40_0000;
    assert VarintLimit(6, 0x01) == 0x80 * VarintLimit(5, 0x01) == 0x10_0000_0000;
    assert VarintLimit(8, 0x01) == 0x80 * VarintLimit(7, 0x01) == 0x4_0000_0000_0000;
  }

  function DecodeU32(bytes: seq<byte>): Parsed<u32> {
    Limits();
    DecodeVarint(bytes, 5, 0x0F)
  }

  function DecodeU64(bytes: seq<byte>): Parsed<u64> {
    Limits();
    DecodeVarint(bytes, 10, 0x01)
  }

  const U32_CODEC: Codec<u32> := Codec((x: u32) => EncodeVarint(x), DecodeU32)
  const U64_CODEC: Codec<u64> := Codec((x: u64) => EncodeVarint(x), DecodeU64)

  lemma IntegerCodecs()
    ensures Faithful(U32_CODEC) && RefusesPrefixes(U32_CODEC)
    ensures Faithful(U64_CODEC) && RefusesPrefixes(U64_CODEC)
  {
    Limits();
    forall x: u32, tail ensures DecodeU32(EncodeVarint(x) + tail) == Got(x, tail) {
      VarintRoundTrip(x, 5, 0x0F, tail);
    }
    forall x: u64, tail ensures DecodeU64(EncodeVarint(x) + tail) == Got(x, tail) {
      VarintRoundTrip(x, 10, 0x01, tail);
    }
    forall x: u32, k | 0 <= k < |EncodeVarint(x)| ensures DecodeU32(EncodeVarint(x)[..k]) == Fail {
      VarintPrefixRefused(x, 5, 0x0F, k);
    }
    forall x: u64, k | 0 <= k < |EncodeVarint(x)| ensures DecodeU64(EncodeVarint(x)[..k]) == Fail {
      VarintPrefixRefused(x, 10, 0x01, k);
    }
  }

  // ---------------------------------------------------------------- one field after another

  function DecodePair<A, B>(a: Codec<A>, b: Codec<B>, bytes: seq<byte>): Parsed<(A, B)> {
    match a.decode(bytes)
    case Fail => Fail
    case Got(x, rest) =>
      match b.decode(rest)
      case Fail => Fail
      case Got(y, rest') => Got((x, y), rest')
  }

  lemma PairRoundTrip<A(!new), B(!new)>(a: Codec<A>, b: Codec<B>, x: A, y: B, tail: seq<byte>)
    requires Faithful(a) && Faithful(b)
    ensures DecodePair(a, b, a.encode(x) + b.encode(y) + tail) == Got((x, y), tail)
  {
    assert a.encode(x) + b.encode(y) + tail == a.encode(x) + (b.encode(y) + tail);
  }

  lemma PairPrefixRefused<A(!new), B(!new)>(a: Codec<A>, b: Codec<B>, x: A, y: B, k: nat)
    requires Faithful(a) && RefusesPrefixes(a) && RefusesPrefixes(b)
    requires k < |a.encode(x) + b.encode(y)|
    ensures DecodePair(a, b, (a.encode(x) + b.encode(y))[..k]) == Fail
  {
    var bytes := (a.encode(x) + b.encode(y))[..k];
    if k < |a.encode(x)| {
      assert bytes == a.encode(x)[..k];
    } else {
      assert bytes == a.encode(x) + b.encode(y)[..k - |a.encode(x)|];
    }
  }
}
