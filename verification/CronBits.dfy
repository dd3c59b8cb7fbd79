/**
  Unsigned 64-bit words used as bit sets. A word is given by the positions of its one-bits,
  so `|`, `&` and complement are union, intersection and difference.
 */
module CronBits {

  type Word = w: set<nat> | forall i :: i in w ==> i < 64

  const ZERO: Word := {}
  const ONE: Word := {0}
  const ALL_ONES: Word := set i: nat | i < 64
  const STAR_BIT: Word := {63}

  /** Left shift: bits that pass position 63 are lost. */
  function Shl(x: Word, k: nat): Word {
    set i: nat | i < 64 && Lands(x, k, i)
  }

  predicate Lands(x: Word, k: nat, i: nat) { k <= i && i - k in x }

  function Or(x: Word, y: Word): Word { x + y }
  function And(x: Word, y: Word): Word { x * y }
  function Not(x: Word): Word { ALL_ONES - x }

  /** The test `1 << i & bits != 0`. */
  predicate HasBit(bits: Word, i: nat) { And(Shl(ONE, i), bits) != ZERO }

  lemma HasBitIsMember(bits: Word, i: nat)
    ensures HasBit(bits, i) <==> i in bits
  {
    var both := And(Shl(ONE, i), bits);
    if i in bits {
      assert i in both;
    } else {
      assert both == {};
    }
  }
}
