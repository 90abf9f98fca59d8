/** The 256-bit field of known addresses, its iterator, and the picker of a spare address. */
module AddressSet {
  import opened Types

  type Bits = s: seq<bv8> | |s| == MIN_PAYLOAD_SIZE witness seq(MIN_PAYLOAD_SIZE, _ => 0)

  predicate IsSet(bits: Bits, address: byte) {
    bits[address / 8] & ((1 as bv8) << (address % 8)) != 0
  }

  /** The set of addresses that a bit field stands for. */
  function Members(bits: Bits): set<byte> {
    set a: byte | 0 <= a < MAX_ADDRESSES && IsSet(bits, a)
  }

  lemma OrSetsOneBit(b: bv8, i: nat, k: nat)
    requires i < 8 && k < 8
    ensures (b | ((1 as bv8) << i)) & ((1 as bv8) << k) != 0 <==> i == k || b & ((1 as bv8) << k) != 0
  {
  }

  /** A binary digit of a number, the lowest being digit 0. */
  function BinaryDigit(n: nat, k: nat): nat {
    if k == 0 then n % 2 else BinaryDigit(n / 2, k - 1)
  }

  lemma Halved(b: bv8)
    ensures b as int == (b >> 1) as int * 2 + (b & 1) as int && (b & 1) as int < 2
    ensures b & 1 != 0 <==> (b & 1) as int == 1
  {
  }

  /** The one-bit mask, shifted as the iterator does. */
  function MaskAt(k: nat): bv8 {
    if k == 0 then 1 else MaskAt(k - 1) << 1
  }

  lemma {:induction false} MaskIsShift(k: nat)
    requires k < 8
    ensures MaskAt(k) == (1 as bv8) << k
  {
    if k > 0 {
      MaskIsShift(k - 1);
      MaskShifts(k - 1);
    }
  }

  lemma LowerBit(b: bv8, mask: bv8)
    ensures b & (mask << 1) != 0 <==> (b >> 1) & mask != 0
  {
  }

  lemma {:induction false} MaskedIsBinaryDigit(b: bv8, k: nat)
    ensures b & MaskAt(k) != 0 <==> BinaryDigit(b as int, k) == 1
  {
    Halved(b);
    if k > 0 {
      LowerBit(b, MaskAt(k - 1));
      MaskedIsBinaryDigit(b >> 1, k - 1);
    }
  }

  /** The place of an address in the field: eight to a byte, the lowest address in the lowest bit. */
  lemma MembersByPlace(bits: Bits, address: byte)
    ensures address in Members(bits) <==> BinaryDigit(bits[address / 8] as int, address % 8) == 1
  {
    MaskIsShift(address % 8);
    MaskedIsBinaryDigit(bits[address / 8], address % 8);
  }

  class Identify {
    const addresses: array<bv8>

    ghost predicate Valid() {
      addresses.Length == MIN_PAYLOAD_SIZE
    }

    ghost function Known(): set<byte>
      requires Valid()
      reads addresses
    {
      Members(addresses[..])
    }

    constructor ()
      ensures Valid() && fresh(addresses) && Known() == {}
    {
      addresses := new bv8[MIN_PAYLOAD_SIZE](_ => 0);
    }

    method IsAddressSet(address: byte) returns (isSet: bool)
      requires Valid()
      ensures isSet <==> address in Known()
    {
      isSet := addresses[address / ADDRESSES_PER_BYTE] & ((1 as bv8) << (address % ADDRESSES_PER_BYTE)) != 0;
    }

    method SetAddress(address: byte)
      requires Valid()
      modifies addresses
      ensures Known() == old(Known()) + {address}
    {
      addresses[address / 8] := addresses[address / 8] | ((1 as bv8) << (address % ADDRESSES_PER_BYTE));
      forall a: byte
        ensures IsSet(addresses[..], a) <==> a == address || old(IsSet(addresses[..], a))
      {
        OrSetsOneBit(old(addresses[a / 8]), address % 8, a % 8);
        assert a == address <==> a / 8 == address / 8 && a % 8 == address % 8;
      }
    }

    method Iter() returns (iter: AddressesIter)
      requires Valid()
      ensures fresh(iter) && iter.Valid() && iter.produced == 0 && iter.addresses == addresses[..]
    {
      iter := new AddressesIter(addresses[..]);
    }
  }

  /** The iterator: a byte index and a one-bit mask that is shifted out to reach the next byte. */
  class AddressesIter {
    var i: nat
    var j: bv8
    const addresses: Bits

    ghost var produced: nat

    ghost predicate Valid()
      reads this
    {
      && produced <= MAX_ADDRESSES
      && i == produced / 8
      && j == (1 as bv8) << (produced % 8)
    }

    constructor (addresses: Bits)
      ensures Valid() && produced == 0 && this.addresses == addresses
    {
      i, j, produced := 0, 1, 0;
      this.addresses := addresses;
    }

    /** The k-th item says whether address k is a member; there are exactly 256 items. */
    method Next() returns (item: Option<bool>)
      requires Valid()
      modifies this
      ensures Valid()
      ensures item == if old(produced) < MAX_ADDRESSES then Some((old(produced) as byte) in Members(addresses))
                      else None
      ensures produced == Min(old(produced) + 1, MAX_ADDRESSES)
    {
      if i < MIN_PAYLOAD_SIZE {
        ghost var k := produced;
        item := Some(addresses[i] & j != 0);
        assert item == Some(IsSet(addresses, k));
        MaskShifts(produced % 8);
        j := j << 1;
        if j == 0 {
          i := i + 1;
          j := 1;
        }
        produced := produced + 1;
      } else {
        item := None;
      }
    }
  }

  lemma MaskShifts(k: nat)
    requires k < 8
    ensures var j := (1 as bv8) << k; (j << 1 == 0 <==> k == 7) && (k < 7 ==> j << 1 == (1 as bv8) << (k + 1))
  {
  }

  // ---------------------------------------------------------------- spare addresses

  /** The addresses below `n` that are not known, in increasing order. */
  function Spares(known: set<byte>, n: nat): (spares: seq<byte>)
    requires n <= MAX_ADDRESSES
    ensures |spares| <= n
  {
    if n == 0 then [] else Spares(known, n - 1) + if (n - 1) as byte in known then [] else [n - 1]
  }

  lemma {:induction false} SparesInOrder(known: set<byte>, n: nat)
    requires n <= MAX_ADDRESSES
    ensures var spares := Spares(known, n);
            && (forall a: byte :: a in spares <==> a < n && a !in known)
            && (forall i :: 0 <= i < |spares| ==> spares[i] < n)
            && (forall i, k :: 0 <= i < k < |spares| ==> spares[i] < spares[k])
  {
    if n > 0 {
      SparesInOrder(known, n - 1);
    }
  }

  /** The spare address that a random value selects. */
  function Pick(known: set<byte>, random: u32): Option<byte> {
    var spares := Spares(known, MAX_ADDRESSES);
    if spares == [] then None else Some(spares[random % |spares|])
  }

  function Below(known: set<byte>, n: nat): set<byte> {
    set a | a in known && a < n
  }

  lemma {:induction false} SparesCount(known: set<byte>, n: nat)
    requires n <= MAX_ADDRESSES
    ensures |Spares(known, n)| == n - |Below(known, n)|
  {
    if n == 0 {
      assert Below(known, 0) == {};
    } else {
      SparesCount(known, n - 1);
      var last := (n - 1) as byte;
      if last in known {
        assert Below(known, n) == Below(known, n - 1) + {last};
      } else {
        assert Below(known, n) == Below(known, n - 1);
      }
    }
  }

  /** Spare and known addresses together are all the addresses there are. */
  lemma SparesComplementKnown(known: set<byte>)
    ensures |Spares(known, MAX_ADDRESSES)| == MAX_ADDRESSES - |known|
  {
    SparesCount(known, MAX_ADDRESSES);
    assert Below(known, MAX_ADDRESSES) == known;
  }

  lemma SpareExistsUnlessFull(known: set<byte>)
    ensures Spares(known, MAX_ADDRESSES) == [] <==> |known| == MAX_ADDRESSES
    ensures Spares(known, MAX_ADDRESSES) == [] <==> forall a: byte :: a in known
  {
    SparesComplementKnown(known);
    SparesInOrder(known, MAX_ADDRESSES);
    var spares := Spares(known, MAX_ADDRESSES);
    if spares != [] {
      assert spares[0] in spares;
    } else {
      forall a: byte ensures a in known {
        assert a !in spares;
      }
    }
  }

  lemma SpareIsUnknown(known: set<byte>, i: nat)
    requires i < |Spares(known, MAX_ADDRESSES)|
    ensures Spares(known, MAX_ADDRESSES)[i] !in known
  {
    SparesInOrder(known, MAX_ADDRESSES);
    assert Spares(known, MAX_ADDRESSES)[i] in Spares(known, MAX_ADDRESSES);
  }

  /** The picker fails exactly when every address is known; otherwise the random value
      selects an unknown address by rank. */
  lemma PickSelectsSpares(known: set<byte>, random: u32)
    ensures Pick(known, random).None? <==> |known| == MAX_ADDRESSES
    ensures Pick(known, random).None? <==> forall a: byte :: a in known
    ensures Pick(known, random).Some? ==> Pick(known, random).value !in known
  {
    SpareExistsUnlessFull(known);
    var spares := Spares(known, MAX_ADDRESSES);
    if spares != [] {
      SpareIsUnknown(known, random % |spares|);
    }
  }

  /** The unknown addresses below a given one. */
  function UnknownBelow(known: set<byte>, n: nat): set<byte> {
    set a: byte | 0 <= a < MAX_ADDRESSES && a !in known && a < n
  }

  lemma {:induction false} SparesCountUnknown(known: set<byte>, n: nat)
    requires n <= MAX_ADDRESSES
    ensures |UnknownBelow(known, n)| == |Spares(known, n)|
  {
    if n == 0 {
      assert UnknownBelow(known, 0) == {};
    } else {
      SparesCountUnknown(known, n - 1);
      var last := (n - 1) as byte;
      if last in known {
        assert UnknownBelow(known, n) == UnknownBelow(known, n - 1);
      } else {
        assert UnknownBelow(known, n) == UnknownBelow(known, n - 1) + {last};
      }
    }
  }

  /** Every spare address stands behind the spares below it. */
  lemma {:induction false} SparePlace(known: set<byte>, n: nat, i: nat)
    requires n <= MAX_ADDRESSES && i < |Spares(known, n)|
    ensures |Spares(known, Spares(known, n)[i])| == i
  {
    if i < |Spares(known, n - 1)| {
      SparePlace(known, n - 1, i);
    }
  }

  lemma PickIsByRank(known: set<byte>, random: u32)
    requires |known| < MAX_ADDRESSES
    ensures var pick := Pick(known, random);
            && pick.Some? && pick.value !in known
            && |UnknownBelow(known, pick.value)| == random % (MAX_ADDRESSES - |known|)
  {
    PickSelectsSpares(known, random);
    SparesComplementKnown(known);
    SparesCountUnknown(known, Pick(known, random).value);
    SparePlace(known, MAX_ADDRESSES, random % |Spares(known, MAX_ADDRESSES)|);
  }

  /** There is nothing to select exactly when all addresses are known.  Otherwise the random value
      selects the unknown address that has as many unknown ones below it as the value leaves when
      divided by their number. */
  lemma PickSelectsByRank(known: set<byte>, random: u32)
    ensures var pick := Pick(known, random);
            if |known| == MAX_ADDRESSES then pick == None
            else && pick.Some? && pick.value !in known
                 && |UnknownBelow(known, pick.value)| == random % (MAX_ADDRESSES - |known|)
  {
    PickSelectsSpares(known, random);
    SparesComplementKnown(known);
    if |known| != MAX_ADDRESSES {
      PickIsByRank(known, random);
    }
  }

  lemma SmallModulus(v: nat, m: nat)
    requires v < m
    ensures v % m == v
  {
  }

  lemma EverySpareIsReachable(known: set<byte>, a: byte)
    requires a !in known
    ensures exists v: u32 :: v < MAX_ADDRESSES && Pick(known, v) == Some(a)
  {
    SparesInOrder(known, MAX_ADDRESSES);
    var spares := Spares(known, MAX_ADDRESSES);
    assert a in spares;
    var v :| 0 <= v < |spares| && spares[v] == a;
    SmallModulus(v, |spares|);
    assert Pick(known, v as u32) == Some(a);
  }

  datatype Identified = Identified(serverAddress: byte, serverPorts: byte)

  /** What an iterator that has already produced `p` items still shows: its items are counted
      from zero again, and those beyond the last address count as taken. */
  function Remaining(known: set<byte>, p: nat): set<byte> {
    set a: byte | 0 <= a < MAX_ADDRESSES && ShownAsTaken(known, p, a)
  }

  predicate ShownAsTaken(known: set<byte>, p: nat, a: byte) {
    a + p >= MAX_ADDRESSES || (a + p) as byte in known
  }

  lemma NothingProduced(known: set<byte>)
    ensures Remaining(known, 0) == known
  {
    assert forall a: byte :: ShownAsTaken(known, 0, a) <==> a in known;
  }

  lemma {:induction false} NoSparesBeyond(known: set<byte>, p: nat, n: nat)
    requires p <= MAX_ADDRESSES && MAX_ADDRESSES - p <= n <= MAX_ADDRESSES
    ensures Spares(Remaining(known, p), n) == Spares(Remaining(known, p), MAX_ADDRESSES - p)
  {
    if n > MAX_ADDRESSES - p {
      NoSparesBeyond(known, p, n - 1);
      assert (n - 1) as byte in Remaining(known, p);
    }
  }

  lemma ItemShown(known: set<byte>, p: nat, i: nat)
    requires p + i < MAX_ADDRESSES
    ensures (p + i) as byte in known <==> i as byte in Remaining(known, p)
  {
    assert ShownAsTaken(known, p, i) <==> (p + i) as byte in known;
  }

  /** One turn of the collecting loop: the next item, if any, and its place if it is not taken. */
  method CollectItem(iter: AddressesIter, spareAddresses: array<int>, j: nat, i: nat, ghost p: nat)
    returns (more: bool, next: nat)
    requires iter.Valid() && iter.produced == p + i && spareAddresses.Length == MAX_ADDRESSES && j <= i
    requires spareAddresses[..j] == Spares(Remaining(Members(iter.addresses), p), i)
    modifies iter, spareAddresses
    ensures iter.Valid() && (more <==> p + i < MAX_ADDRESSES) && (!more ==> next == j && iter.produced == p + i)
    ensures more ==> iter.produced == p + i + 1 && j <= next <= i + 1
    ensures next <= MAX_ADDRESSES &&
            spareAddresses[..next] == Spares(Remaining(Members(iter.addresses), p), if more then i + 1 else i)
  {
    ghost var members := Members(iter.addresses);
    var taken := iter.Next();
    more, next := taken.Some?, j;
    if more {
      ItemShown(members, p, i);
      if !taken.value {
        spareAddresses[j] := i;
        next := j + 1;
      }
    }
  }

  /** The loop over the iterator's items that collects those not taken. */
  method CollectSpares(iter: AddressesIter) returns (spareAddresses: array<int>, j: nat)
    requires iter.Valid()
    modifies iter
    ensures fresh(spareAddresses) && j <= spareAddresses.Length
    ensures spareAddresses[..j] == Spares(Remaining(Members(iter.addresses), old(iter.produced)), MAX_ADDRESSES)
  {
    ghost var p := iter.produced;
    spareAddresses := new int[MAX_ADDRESSES](_ => 0);
    j := 0;
    var i, more := 0, true;
    while more
      invariant iter.Valid() && iter.produced == p + i && 0 <= i
      invariant !more ==> p + i == MAX_ADDRESSES
      invariant fresh(spareAddresses) && spareAddresses.Length == MAX_ADDRESSES && j <= i
      invariant spareAddresses[..j] == Spares(Remaining(Members(iter.addresses), p), i)
      decreases MAX_ADDRESSES - i, more
    {
      more, j := CollectItem(iter, spareAddresses, j, i, p);
      if more {
        i := i + 1;
      }
    }
    NoSparesBeyond(Members(iter.addresses), p, MAX_ADDRESSES);
  }

  method WithRandomAddress(iter: AddressesIter, random: u32, serverPorts: byte) returns (identified: Option<Identified>)
    requires iter.Valid()
    modifies iter
    ensures var pick := Pick(Remaining(Members(iter.addresses), old(iter.produced)), random);
            identified == if pick.None? then None else Some(Identified(pick.value, serverPorts))
    ensures var taken := Remaining(Members(iter.addresses), old(iter.produced));
            if |taken| == MAX_ADDRESSES then identified == None
            else && identified.Some? && identified.value.serverAddress !in taken
                 && |UnknownBelow(taken, identified.value.serverAddress)| == random % (MAX_ADDRESSES - |taken|)
  {
    PickSelectsByRank(Remaining(Members(iter.addresses), iter.produced), random);
    var spareAddresses, j := CollectSpares(iter);
    if j > 0 {
      var k := random % j;
      assert spareAddresses[k] == spareAddresses[..j][k];
      identified := Some(Identified(spareAddresses[k], serverPorts));
    } else {
      identified := None;
    }
  }
}
