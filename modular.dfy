/**
  * The slot a position falls into in a buffer of n slots: position j modulo n, written as
  * repeated subtraction so that the proofs reason about it through the lemmas below rather
  * than through nonlinear arithmetic.
  */
module Modular {

  function Slot(j: nat, n: nat): (r: nat)
    requires n > 0
    ensures r < n
    decreases j
  {
    if j < n then j else Slot(j - n, n)
  }

  /** A position already inside [0, n) is its own slot. */
  lemma {:induction false} SlotSmall(j: nat, n: nat)
    requires j < n
    ensures Slot(j, n) == j
  {
  }

  /** Stepping one position back: the slot wraps from 0 to n - 1. */
  lemma {:induction false} SlotPredecessor(m: nat, n: nat)
    requires n > 0 && m >= 1
    ensures Slot(m - 1, n) == if Slot(m, n) == 0 then n - 1 else Slot(m, n) - 1
  {
    if m > n {
      SlotPredecessor(m - n, n);
    }
  }

  /** Two positions closer together than n fall into different slots. */
  lemma {:induction false} SlotDistinct(j: nat, m: nat, n: nat)
    requires n > 0 && j < m < j + n
    ensures Slot(j, n) != Slot(m, n)
  {
    if j >= n {
      SlotDistinct(j - n, m - n, n);
    } else if m >= n {
      SlotSmall(m - n, n);
    }
  }
}
