/** Sets of integers kept in a 32-bit mask, and their notation as lists of intervals. */
module IntSets {
  // ---------------------------------------------------------------- masks

  /** A mask is the unsigned value of its 32 bits: bit 0 is its remainder by two, and shifting it
      right drops that bit. */
  type Mask = m: nat | m < 0x1_0000_0000

  const ALL_ONES: Mask := 0xFFFF_FFFF

  predicate Has(mask: nat, i: nat) {
    if i == 0 then mask % 2 == 1 else Has(mask / 2, i - 1)
  }

  /** The bitwise `|`. */
  function Or(a: nat, b: nat): nat {
    if a == 0 && b == 0 then 0
    else 2 * Or(a / 2, b / 2) + if a % 2 == 1 || b % 2 == 1 then 1 else 0
  }

  /** `1 << i` */
  function Bit(i: nat): nat {
    if i == 0 then 1 else 2 * Bit(i - 1)
  }

  lemma OrHalves(a: nat, b: nat)
    ensures Or(a, b) / 2 == Or(a / 2, b / 2)
    ensures Or(a, b) % 2 == 1 <==> a % 2 == 1 || b % 2 == 1
  {
  }

  lemma {:induction false} HasOr(a: nat, b: nat, i: nat)
    ensures Has(Or(a, b), i) <==> Has(a, i) || Has(b, i)
  {
    OrHalves(a, b);
    hide Or;
    if i > 0 {
      HasOr(a / 2, b / 2, i - 1);
    }
  }

  lemma {:induction false} HasBit(j: nat, i: nat)
    ensures Has(Bit(j), i) <==> i == j
  {
    if i > 0 {
      if j > 0 {
        HasBit(j - 1, i - 1);
        assert Bit(j) / 2 == Bit(j - 1);
      } else {
        HasNone(i - 1);
      }
    }
  }

  lemma {:induction false} HasNone(i: nat)
    ensures !Has(0, i)
  {
    if i > 0 {
      HasNone(i - 1);
    }
  }

  lemma {:induction false} BitMonotone(i: nat, j: nat)
    requires i < j
    ensures 0 < Bit(i) < Bit(j)
  {
    if i > 0 {
      BitMonotone(i - 1, j - 1);
    } else if j > 1 {
      BitMonotone(0, j - 1);
    }
  }

  lemma {:induction false} OrBound(a: nat, b: nat, k: nat)
    requires a < Bit(k) && b < Bit(k)
    ensures Or(a, b) < Bit(k)
  {
    if k > 0 {
      OrBound(a / 2, b / 2, k - 1);
    }
  }

  /** Masks of `k` bits with the same bits are equal. */
  lemma {:induction false} SameBits(a: nat, b: nat, k: nat)
    requires a < Bit(k) && b < Bit(k)
    requires forall i: nat :: i < k ==> (Has(a, i) <==> Has(b, i))
    ensures a == b
  {
    if k > 0 {
      assert Has(a, 0) <==> Has(b, 0);
      forall i: nat | i < k - 1
        ensures Has(a / 2, i) <==> Has(b / 2, i)
      {
        assert Has(a, i + 1) <==> Has(b, i + 1);
      }
      SameBits(a / 2, b / 2, k - 1);
    }
  }

  lemma Bits32()
    ensures Bit(32) == 0x1_0000_0000
  {
    assert Bit(8) == 0x100;
    assert Bit(16) == 0x1_0000;
    assert Bit(24) == 0x100_0000;
  }

  // ---------------------------------------------------------------- sets

  /** `full` tells the one full-set object, which also contains all other integers, from a set with
      the same mask. */
  datatype RawIntSet = IntSet(mask: Mask, full: bool)

  type IntSet = s: RawIntSet | s.full ==> s.mask == ALL_ONES witness IntSet(0, false)

  const EMPTY: IntSet := IntSet(0, false)
  const FULL: IntSet := IntSet(ALL_ONES, true)

  function Singleton(value: int): IntSet {
    if value < 0 || value > 31 then EMPTY
    else
      Bits32();
      BitMonotone(value, 32);
      IntSet(Bit(value), false)
  }

  function ByMask(mask: Mask): IntSet {
    if mask == 0 then EMPTY else IntSet(mask, false)
  }

  predicate Contains(s: IntSet, value: int) {
    if s.full then true
    else if value < 0 || value > 31 then false
    else Has(s.mask, value)
  }

  function Union(a: IntSet, b: IntSet): (u: IntSet)
    ensures forall v: int :: Contains(u, v) <==> Contains(a, v) || Contains(b, v)
  {
    if a.full then a
    else if b.full then b
    else
      Bits32();
      OrBound(a.mask, b.mask, 32);
      assert forall v: int :: 0 <= v <= 31 ==> (Has(Or(a.mask, b.mask), v) <==> Has(a.mask, v) || Has(b.mask, v))
        by {
          forall v: int | 0 <= v <= 31
            ensures Has(Or(a.mask, b.mask), v) <==> Has(a.mask, v) || Has(b.mask, v)
          {
            HasOr(a.mask, b.mask, v);
          }
        }
      IntSet(Or(a.mask, b.mask), false)
  }

  /** Equality of objects; the full-set object is equal to itself only. */
  predicate Equals(a: IntSet, b: IntSet) {
    if a.full && b.full then true       // the same object
    else if a.mask != b.mask then false
    else if a.mask == ALL_ONES then !a.full && !b.full
    else true
  }

  lemma SingletonContains(value: int, v: int)
    ensures Contains(Singleton(value), v) <==> v == value && 0 <= value <= 31
  {
    if 0 <= v <= 31 {
      HasNone(v);
      if 0 <= value <= 31 {
        HasBit(value, v);
      }
    }
  }

  /** Sets are equal exactly when they contain the same integers. */
  lemma EqualsIsExtensional(a: IntSet, b: IntSet)
    ensures Equals(a, b) <==> forall v: int :: Contains(a, v) <==> Contains(b, v)
  {
    assert Contains(a, -1) == a.full && Contains(b, -1) == b.full;
    if !a.full && !b.full && forall v: int :: Contains(a, v) <==> Contains(b, v) {
      forall i: nat | i < 32
        ensures Has(a.mask, i) <==> Has(b.mask, i)
      {
        assert Contains(a, i) <==> Contains(b, i);
      }
      Bits32();
      SameBits(a.mask, b.mask, 32);
    }
  }
}
