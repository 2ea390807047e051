/** Unsigned 64-bit words, as Go wraps them around. */
module Words {
  const TWO64: nat := 0x1_0000_0000_0000_0000

  /** x modulo 2^64. */
  function Wrap64(x: int): (r: nat)
    ensures r < TWO64
    decreases if x < 0 then TWO64 - x else x
  {
    if x < 0 then Wrap64(x + TWO64) else if x < TWO64 then x else Wrap64(x - TWO64)
  }

  lemma WrapBelowZero(x: int)
    requires 0 - TWO64 <= x < 0
    ensures Wrap64(x) == x + TWO64
  {
    assert Wrap64(x) == Wrap64(x + TWO64);
  }

  lemma {:induction false} WrapShift(x: int)
    ensures Wrap64(x + TWO64) == Wrap64(x)
  {
    if x < 0 {
    } else {
      assert Wrap64(x + TWO64) == Wrap64(x + TWO64 - TWO64);
    }
  }

  /** Wrapping early makes no difference to a sum. */
  lemma {:induction false} WrapAdd(x: int, y: int)
    ensures Wrap64(Wrap64(x) + y) == Wrap64(x + y)
    decreases if x < 0 then TWO64 - x else x
  {
    if x < 0 {
      WrapAdd(x + TWO64, y);
      WrapShift(x + y);
    } else if x >= TWO64 {
      WrapAdd(x - TWO64, y);
      WrapShift(x - TWO64 + y);
    }
  }

  lemma WrapAddRight(x: int, y: int)
    ensures Wrap64(x + Wrap64(y)) == Wrap64(x + y)
  {
    WrapAdd(y, x);
  }

  lemma {:induction false} WrapSub(x: int, y: int)
    ensures Wrap64(x - Wrap64(y)) == Wrap64(x - y)
    decreases if y < 0 then TWO64 - y else y
  {
    if y < 0 {
      WrapSub(x, y + TWO64);
      WrapShift(x - y - TWO64);
    } else if y >= TWO64 {
      WrapSub(x, y - TWO64);
      WrapShift(x - y);
    }
  }

  /** The bitwise complement of a word. */
  function Complement(x: int): nat {
    TWO64 - 1 - Wrap64(x)
  }

  /** Adding the complement of slots - 1 subtracts slots, for every word slots, zero included. */
  lemma ComplementSubtracts(h: int, slots: nat)
    requires slots < TWO64
    ensures Wrap64(h + Complement(slots - 1)) == Wrap64(h - slots)
  {
    if slots == 0 {
      WrapBelowZero(-1);
    } else {
      WrapShift(h - slots);
    }
  }
}
