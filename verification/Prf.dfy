/** Slot arithmetic of the purpose-indexed generator: which words of the root
    stream seed the generator of one purpose and index. */
module Prf {
  import opened Arithmetic

  const SLOT_WORDS: nat := 8
  const MAX_INDEX: nat := 0x1FFF_FFFF
  const QUERY_NONZERO: nat := 4
  const QUERY_CODEWORD: nat := 5

  predicate IndexAllowed(index: nat) { index <= MAX_INDEX }

  function Position(purpose: nat, index: nat): nat { purpose * TWO32 + index * SLOT_WORDS }

  ghost predicate DisjointSlots(a: nat, b: nat) { a + SLOT_WORDS <= b || b + SLOT_WORDS <= a }

  /** The index check is exact: it accepts precisely the slots that end inside
      the window of their purpose. */
  lemma CheckIsExact(purpose: nat, index: nat)
    ensures IndexAllowed(index) <==>
              purpose * TWO32 <= Position(purpose, index)
              && Position(purpose, index) + SLOT_WORDS <= (purpose + 1) * TWO32
  {
  }

  /** Distinct purpose and index pairs read disjoint words. */
  lemma SlotsDisjoint(p1: nat, i1: nat, p2: nat, i2: nat)
    requires IndexAllowed(i1) && IndexAllowed(i2) && (p1 != p2 || i1 != i2)
    ensures DisjointSlots(Position(p1, i1), Position(p2, i2))
  {
    if p1 < p2 {
      MulMono(p1 + 1, p2, TWO32);
    } else if p2 < p1 {
      MulMono(p2 + 1, p1, TWO32);
    }
  }
}
