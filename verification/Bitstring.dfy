/** The packed status bitstring of src/delegation/bitstring.ts: most significant bit first. */
module Bitstring {
  import opened Wrappers

  type Bits = seq<bv8>

  /** 0x80 shifted right by a bit index. */
  function Mask(bitIndex: nat): bv8
    requires bitIndex < 8
  {
    match bitIndex
    case 0 => 0x80
    case 1 => 0x40
    case 2 => 0x20
    case 3 => 0x10
    case 4 => 0x08
    case 5 => 0x04
    case 6 => 0x02
    case _ => 0x01
  }

  function WithBit(byte: bv8, bitIndex: nat, value: bool): bv8
    requires bitIndex < 8
  {
    if value then byte | Mask(bitIndex) else byte & (0xff ^ Mask(bitIndex))
  }

  predicate HasBit(byte: bv8, bitIndex: nat)
    requires bitIndex < 8
  {
    byte & Mask(bitIndex) != 0
  }

  lemma {:induction false} ByteUpdate(byte: bv8, i: nat, value: bool, j: nat)
    requires i < 8 && j < 8
    ensures HasBit(WithBit(byte, i, value), j) == if i == j then value else HasBit(byte, j)
  {
  }

  lemma {:induction false} ByteByBits(a: bv8, b: bv8)
    requires forall j :: 0 <= j < 8 ==> HasBit(a, j) == HasBit(b, j)
    ensures a == b
  {
    assert HasBit(a, 0) == HasBit(b, 0) && HasBit(a, 1) == HasBit(b, 1) && HasBit(a, 2) == HasBit(b, 2)
        && HasBit(a, 3) == HasBit(b, 3) && HasBit(a, 4) == HasBit(b, 4) && HasBit(a, 5) == HasBit(b, 5)
        && HasBit(a, 6) == HasBit(b, 6) && HasBit(a, 7) == HasBit(b, 7);
  }

  /** The bitstring as a reader sees it: one flag per index. */
  function View(bits: Bits): (flags: seq<bool>)
    ensures |flags| == 8 * |bits|
    ensures forall k :: 0 <= k < |flags| ==> flags[k] == HasBit(bits[k / 8], k % 8)
  {
    seq(8 * |bits|, k requires 0 <= k < 8 * |bits| => HasBit(bits[k / 8], k % 8))
  }

  /** The layout of W3C Bitstring Status List: index 0 is the most significant bit of the first byte. */
  lemma {:induction false} MostSignificantFirst(bits: Bits, k: nat)
    requires k < 8 * |bits|
    ensures View(bits)[k] <==> (bits[k / 8] >> (7 - k % 8)) & 1 == 1
  {
    BitAt(bits[k / 8], k % 8);
  }

  lemma {:induction false} BitAt(byte: bv8, j: nat)
    requires j < 8
    ensures HasBit(byte, j) <==> (byte >> (7 - j)) & 1 == 1
  {
  }

  function WithFlag(bits: Bits, index: nat, value: bool): (after: Bits)
    requires index < 8 * |bits|
    ensures |after| == |bits|
  {
    bits[index / 8 := WithBit(bits[index / 8], index % 8, value)]
  }

  /** Writing one bit of one byte changes what is read at one index and no other. */
  lemma {:induction false} UpdateChangesOneFlag(bits: Bits, index: nat, value: bool, k: nat)
    requires index < 8 * |bits| && k < 8 * |bits|
    ensures View(WithFlag(bits, index, value))[k] == if k == index then value else View(bits)[k]
  {
    if k / 8 == index / 8 {
      ByteUpdate(bits[index / 8], index % 8, value, k % 8);
    }
  }

  lemma {:induction false} UpdateIsFlagUpdate(bits: Bits, index: nat, value: bool)
    requires index < 8 * |bits|
    ensures View(WithFlag(bits, index, value)) == View(bits)[index := value]
  {
    forall k | 0 <= k < 8 * |bits|
      ensures View(WithFlag(bits, index, value))[k] == View(bits)[index := value][k]
    {
      UpdateChangesOneFlag(bits, index, value, k);
    }
  }

  /** Two byte arrays that read the same are the same. */
  lemma {:induction false} ViewInjective(a: Bits, b: Bits)
    requires View(a) == View(b)
    ensures a == b
  {
    assert |View(a)| == |View(b)|;
    forall k | 0 <= k < |a|
      ensures a[k] == b[k]
    {
      forall j | 0 <= j < 8
        ensures HasBit(a[k], j) == HasBit(b[k], j)
      {
        assert (8 * k + j) / 8 == k && (8 * k + j) % 8 == j;
        assert View(a)[8 * k + j] == View(b)[8 * k + j];
      }
      ByteByBits(a[k], b[k]);
    }
  }

  function ByteCount(size: nat): nat {
    (size + 7) / 8
  }

  function Zeros(count: nat): Bits {
    seq(count, _ => 0)
  }

  lemma {:induction false} ZerosAreClear(count: nat)
    ensures View(Zeros(count)) == seq(8 * count, _ => false)
  {
  }

  datatype Reading = Flag(set_: bool) | IndexRange

  class BitstringManager {
    var bits: array<bv8>
    var size: nat

    ghost predicate Valid()
      reads this, bits
    {
      size <= 8 * bits.Length < size + 8
    }

    constructor (size: nat)
      ensures Valid() && fresh(bits) && this.size == size
      ensures View(bits[..]) == seq(8 * ByteCount(size), _ => false)
    {
      this.size := size;
      bits := new bv8[ByteCount(size)](_ => 0);
      new;
      assert bits[..] == Zeros(ByteCount(size));
      ZerosAreClear(ByteCount(size));
    }

    /** The manager that `decode` returns: the size is rounded up to whole bytes. */
    constructor Decoded(inflated: Bits)
      ensures Valid() && fresh(bits) && bits[..] == inflated && size == 8 * |inflated|
    {
      size := 8 * |inflated|;
      bits := new bv8[|inflated|](k requires 0 <= k < |inflated| => inflated[k]);
    }

    method SetBit(index: int, value: bool) returns (inRange: bool)
      requires Valid()
      modifies bits
      ensures Valid() && (inRange <==> 0 <= index < size)
      ensures View(bits[..]) == if inRange then View(old(bits[..]))[index := value] else View(old(bits[..]))
    {
      if index < 0 || index >= size {
        return false;
      }
      var byteIndex := index / 8;
      UpdateIsFlagUpdate(bits[..], index, value);
      ghost var before := bits[..];
      bits[byteIndex] := WithBit(bits[byteIndex], index % 8, value);
      assert bits[..] == WithFlag(before, index, value);
      return true;
    }

    method GetBit(index: int) returns (reading: Reading)
      requires Valid()
      ensures reading == if 0 <= index < size then Flag(View(bits[..])[index]) else IndexRange
    {
      if index < 0 || index >= size {
        return IndexRange;
      }
      return Flag(bits[index / 8] & Mask(index % 8) != 0);
    }

    method GetSetBits() returns (setBits: seq<nat>)
      requires Valid()
      ensures forall k :: k in setBits <==> 0 <= k < size && View(bits[..])[k]
      ensures forall i, j :: 0 <= i < j < |setBits| ==> setBits[i] < setBits[j]
    {
      setBits := [];
      for i := 0 to size
        invariant forall k :: k in setBits <==> 0 <= k < i && View(bits[..])[k]
        invariant forall i, j :: 0 <= i < j < |setBits| ==> setBits[i] < setBits[j]
      {
        var reading := GetBit(i);
        if reading.set_ {
          assert forall k :: 0 <= k < |setBits| ==> setBits[k] in setBits;
          setBits := setBits + [i];
        }
      }
    }
  }

  /** A manager of `size` entries with exactly these bits set, unless one is out of range. */
  method FromSetBits(size: nat, setBits: seq<int>) returns (manager: Option<BitstringManager>)
    ensures manager.Some? <==> forall k :: k in setBits ==> 0 <= k < size
    ensures manager.Some? ==>
      && manager.value.Valid() && manager.value.size == size && fresh(manager.value) && fresh(manager.value.bits)
      && forall k :: 0 <= k < 8 * ByteCount(size) ==> View(manager.value.bits[..])[k] == (k in setBits)
  {
    var made := new BitstringManager(size);
    for n := 0 to |setBits|
      invariant made.Valid() && made.size == size && fresh(made) && fresh(made.bits)
      invariant forall k :: k in setBits[..n] ==> 0 <= k < size
      invariant forall k :: 0 <= k < 8 * ByteCount(size) ==> View(made.bits[..])[k] == (k in setBits[..n])
    {
      assert setBits[..n + 1] == setBits[..n] + [setBits[n]];
      var inRange := made.SetBit(setBits[n], true);
      if !inRange {
        assert setBits[n] in setBits;
        return None;
      }
    }
    assert setBits[..|setBits|] == setBits;
    return Some(made);
  }
}
