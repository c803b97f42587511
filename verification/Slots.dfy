/** The two slot structures of the row store: a stack of free slot numbers and a word of live bits. */
module Slots {
  const MAX_OBJ_NUM: nat := 32
  const INV_LOCATION: nat := 0xFFFF_FFFF
  const MIN_BIT: nat := 1
  const MAX_BIT: nat := 32

  class Stack {
    var sz: nat
    var capacity: nat
    const pstack: array<nat>

    ghost predicate Valid()
      reads this
    {
      pstack.Length == MAX_OBJ_NUM && capacity <= sz <= MAX_OBJ_NUM
    }

    ghost function Contents(): seq<nat>
      requires Valid()
      reads this, pstack
    {
      pstack[..capacity]
    }

    constructor (i_sz: nat)
      requires i_sz <= MAX_OBJ_NUM
      ensures Valid() && fresh(pstack) && sz == i_sz && Contents() == []
    {
      pstack := new nat[MAX_OBJ_NUM](_ => 0);
      sz := i_sz;
      capacity := 0;
    }

    /** 0, or INV_LOCATION when the stack is full. */
    method Push(slot: nat) returns (r: nat)
      requires Valid()
      modifies `capacity, pstack
      ensures Valid()
      ensures |old(Contents())| < sz ==> r == 0 && Contents() == old(Contents()) + [slot]
      ensures |old(Contents())| == sz ==> r == INV_LOCATION && Contents() == old(Contents())
    {
      if capacity < sz {
        pstack[capacity] := slot;
        capacity := capacity + 1;
        return 0;
      }
      return INV_LOCATION;
    }

    /** The last slot pushed, or INV_LOCATION when the stack is empty. */
    method Pop() returns (slot: nat)
      requires Valid()
      modifies `capacity
      ensures Valid()
      ensures old(Contents()) != [] ==> old(Contents()) == Contents() + [slot]
      ensures old(Contents()) == [] ==> slot == INV_LOCATION && Contents() == []
    {
      if 0 < capacity {
        capacity := capacity - 1;
        return pstack[capacity];
      }
      return INV_LOCATION;
    }
  }

  // ---- Bits ----

  function Word(n: nat): bv32
    requires n < 32
  {
    n as bv32
  }

  function OneBit(k: bv32): bv32
    requires k < 32
  {
    (1 as bv32) << k
  }

  lemma SmallWord(n: nat)
    requires n < 32
    ensures Word(n) < 32
  {
  }

  function Mask(bitNum: nat): bv32
    requires MIN_BIT <= bitNum <= MAX_BIT
  {
    SmallWord(bitNum - 1);
    OneBit(Word(bitNum - 1))
  }

  predicate IsSet(bits: bv32, bitNum: nat)
    requires MIN_BIT <= bitNum <= MAX_BIT
  {
    bits & Mask(bitNum) != 0
  }

  /** The bit numbers that are on in a word. */
  function BitSet(bits: bv32): set<nat> {
    set n | MIN_BIT <= n <= MAX_BIT && IsSet(bits, n)
  }

  lemma OneBits(k: bv32, l: bv32)
    requires k < 32 && l < 32
    ensures OneBit(k) & OneBit(l) == 0 <==> k != l
  {
  }

  /** Proved number by number: each word is then a constant. */
  lemma WordOfNumber(n: nat)
    requires n < 32
    ensures Word(n) as int == n
  {
    match n
    case 0 => case 1 => case 2 => case 3 => case 4 => case 5 => case 6 => case 7 =>
    case 8 => case 9 => case 10 => case 11 => case 12 => case 13 => case 14 => case 15 =>
    case 16 => case 17 => case 18 => case 19 => case 20 => case 21 => case 22 => case 23 =>
    case 24 => case 25 => case 26 => case 27 => case 28 => case 29 => case 30 => case 31 =>
    case _ =>
  }

  lemma WordsDiffer(i: nat, j: nat)
    requires i < 32 && j < 32
    ensures Word(i) < 32 && Word(j) < 32
    ensures Word(i) == Word(j) <==> i == j
  {
    hide Word;
    SmallWord(i);
    SmallWord(j);
    WordOfNumber(i);
    WordOfNumber(j);
  }

  lemma MasksDisjoint(i: nat, j: nat)
    requires MIN_BIT <= i <= MAX_BIT && MIN_BIT <= j <= MAX_BIT
    ensures Mask(i) & Mask(j) == 0 <==> i != j
  {
    hide Word, OneBit;
    WordsDiffer(i - 1, j - 1);
    OneBits(Word(i - 1), Word(j - 1));
  }

  /** Bit 1 is the lowest, and the mask of each next bit is twice as high. Proved bit by bit. */
  lemma MaskDoubles(bitNum: nat)
    requires MIN_BIT <= bitNum < MAX_BIT
    ensures Mask(1) == 1
    ensures Mask(bitNum + 1) == Mask(bitNum) << 1
  {
    match bitNum
    case 1 => case 2 => case 3 => case 4 => case 5 => case 6 => case 7 => case 8 =>
    case 9 => case 10 => case 11 => case 12 => case 13 => case 14 => case 15 => case 16 =>
    case 17 => case 18 => case 19 => case 20 => case 21 => case 22 => case 23 => case 24 =>
    case 25 => case 26 => case 27 => case 28 => case 29 => case 30 => case 31 =>
    case _ =>
  }

  lemma OtherBit(bits: bv32, i: nat, j: nat)
    requires MIN_BIT <= i <= MAX_BIT && MIN_BIT <= j <= MAX_BIT && i != j
    ensures (bits | Mask(i)) & Mask(j) == bits & Mask(j)
    ensures (bits & !Mask(i)) & Mask(j) == bits & Mask(j)
  {
    MasksDisjoint(i, j);
  }

  lemma OwnBit(bits: bv32, i: nat)
    requires MIN_BIT <= i <= MAX_BIT
    ensures (bits | Mask(i)) & Mask(i) != 0
    ensures (bits & !Mask(i)) & Mask(i) == 0
  {
  }

  lemma SwitchOne(bits: bv32, bitNum: nat, n: nat)
    requires MIN_BIT <= bitNum <= MAX_BIT && MIN_BIT <= n <= MAX_BIT
    ensures IsSet(bits | Mask(bitNum), n) <==> n == bitNum || IsSet(bits, n)
    ensures IsSet(bits & !Mask(bitNum), n) <==> n != bitNum && IsSet(bits, n)
  {
    hide Mask;
    if n == bitNum {
      OwnBit(bits, n);
    } else {
      OtherBit(bits, bitNum, n);
    }
  }

  /** Switching a bit on or off changes the set of live bits by that bit and no other. */
  lemma SwitchBit(bits: bv32, bitNum: nat)
    requires MIN_BIT <= bitNum <= MAX_BIT
    ensures BitSet(bits | Mask(bitNum)) == BitSet(bits) + {bitNum}
    ensures BitSet(bits & !Mask(bitNum)) == BitSet(bits) - {bitNum}
  {
    hide IsSet, Mask;
    forall n | MIN_BIT <= n <= MAX_BIT
      ensures IsSet(bits | Mask(bitNum), n) <==> n == bitNum || IsSet(bits, n)
      ensures IsSet(bits & !Mask(bitNum), n) <==> n != bitNum && IsSet(bits, n)
    {
      SwitchOne(bits, bitNum, n);
    }
  }

  class BitMap {
    var bits: bv32

    constructor ()
      ensures bits == 0
    {
      bits := 0;
    }

    method BitOn(bitNum: nat)
      requires MIN_BIT <= bitNum <= MAX_BIT
      modifies this
      ensures BitSet(bits) == BitSet(old(bits)) + {bitNum}
    {
      hide IsSet, Mask, BitSet;
      SwitchBit(bits, bitNum);
      bits := bits | Mask(bitNum);
    }

    method BitOff(bitNum: nat)
      requires MIN_BIT <= bitNum <= MAX_BIT
      modifies this
      ensures BitSet(bits) == BitSet(old(bits)) - {bitNum}
    {
      hide IsSet, Mask, BitSet;
      SwitchBit(bits, bitNum);
      bits := bits & !Mask(bitNum);
    }

    method IsOn(bitNum: nat) returns (on: bool)
      requires MIN_BIT <= bitNum <= MAX_BIT
      ensures on <==> bitNum in BitSet(bits)
    {
      on := IsSet(bits, bitNum);
    }
  }
}
