/**
 Numbers and lists every component uses: pages, 64-bit words, alignment, and
 lists without duplicates.
 */
module Basics {

  const PAGE_SIZE: nat := 4096
  /** How many values a 64-bit word has. */
  const WORD_LIMIT: nat := 0x1_0000_0000_0000_0000

  function AlignDown(x: nat): nat { x / PAGE_SIZE * PAGE_SIZE }

  /** The round-up wraps around with its 64-bit sum. */
  function AlignUp(x: nat): nat { (x + PAGE_SIZE - 1) % WORD_LIMIT / PAGE_SIZE * PAGE_SIZE }

  /** The page an address is on, and the page where the next one after it starts. */
  lemma AlignFacts(x: nat)
    ensures AlignDown(x) <= x < AlignDown(x) + PAGE_SIZE && AlignDown(x) % PAGE_SIZE == 0
    ensures x <= WORD_LIMIT - PAGE_SIZE ==> x <= AlignUp(x) < x + PAGE_SIZE && AlignUp(x) % PAGE_SIZE == 0
    ensures WORD_LIMIT - PAGE_SIZE < x < WORD_LIMIT ==> AlignUp(x) == 0
  {}

  ghost predicate Distinct<T>(s: seq<T>) {
    forall i: nat, j: nat :: i < j < |s| ==> s[i] != s[j]
  }
}
