/** The parent link and the balance factor or colour share one 64-bit word;
    nodes are aligned, so the two low bits of an address are zero.  Factors
    are two's complement. */
module Packing {

  const MINUS_ONE: bv64 := 0xFFFF_FFFF_FFFF_FFFF
  const ADDRESS: bv64 := 0xFFFF_FFFF_FFFF_FFFC

  predicate Aligned(p: bv64) {
    p & 3 == 0
  }

  predicate TwoBits(low: bv64) {
    low == 0 || low == 1 || low == 2 || low == 3
  }

  lemma {:induction false} LowBits(p: bv64, low: bv64)
    ensures ((p & ADDRESS) | low) & 3 == low & 3
  {
  }

  lemma {:induction false} LowFits(low: bv64)
    ensures low & 3 == low <==> TwoBits(low)
  {
  }

  // ----- avltree.h, avltree.c -----

  function AvlParent(word: bv64): bv64 {
    word & ADDRESS
  }

  function AvlBf(word: bv64): bv64 {
    (word & 3) - 1
  }

  function AvlSetParent(word: bv64, p: bv64): bv64 {
    p | (word & 3)
  }

  function AvlSetBf(word: bv64, bf: bv64): bv64 {
    AvlParent(word) | (bf + 1)
  }

  lemma {:induction false} Codes(bf: bv64)
    ensures bf + 1 == 0 <==> bf == MINUS_ONE
    ensures bf + 1 == 1 <==> bf == 0
    ensures bf + 1 == 2 <==> bf == 1
    ensures bf + 1 == 3 <==> bf == 2
  {
  }

  lemma {:induction false} OneLess(low: bv64, bf: bv64)
    ensures low - 1 == bf <==> low == bf + 1
  {
  }

  /** A stored factor can be read back if and only if it is one of -1, 0, 1 and 2. */
  lemma {:induction false} AvlFactorFits(word: bv64, bf: bv64)
    ensures AvlBf(AvlSetBf(word, bf)) == bf <==> bf == MINUS_ONE || bf == 0 || bf == 1 || bf == 2
  {
    var code := bf + 1;
    LowBits(word, code);
    LowFits(code);
    Codes(bf);
    OneLess(code & 3, bf);
  }

  /** And then it does not touch the parent. */
  lemma {:induction false} AvlFactorBeside(word: bv64, bf: bv64)
    requires TwoBits(bf + 1)
    ensures AvlParent(AvlSetBf(word, bf)) == AvlParent(word)
  {
  }

  lemma {:induction false} AlignedFits(p: bv64, word: bv64)
    ensures (p | (word & 3)) & ADDRESS == p <==> Aligned(p)
    ensures Aligned(p) ==> (p | (word & 3)) & 3 == word & 3
  {
    assert (p | (word & 3)) & ADDRESS == p & ADDRESS;
  }

  /** Storing a parent can be read back, and keeps the factor, if and only if the
      address is aligned. */
  lemma {:induction false} AvlParentFits(word: bv64, p: bv64)
    ensures AvlParent(AvlSetParent(word, p)) == p && AvlBf(AvlSetParent(word, p)) == AvlBf(word) <==> Aligned(p)
  {
    AlignedFits(p, word);
  }

  // ----- rbtree.h -----

  function RbParent(word: bv64): bv64 {
    word & ADDRESS
  }

  function RbColor(word: bv64): bv64 {
    word & 1
  }

  function RbSetParent(word: bv64, p: bv64): bv64 {
    (word & 3) | p
  }

  function RbSetColor(word: bv64, color: bv64): bv64 {
    (word & 0xFFFF_FFFF_FFFF_FFFE) | color
  }

  /** A stored colour can be read back if and only if it is one of the two. */
  lemma {:induction false} RbColorFits(word: bv64, color: bv64)
    ensures RbColor(RbSetColor(word, color)) == color <==> color == 0 || color == 1
  {
    assert RbColor(RbSetColor(word, color)) == color & 1;
  }

  lemma {:induction false} HighBits(word: bv64)
    ensures ((word & 0xFFFF_FFFF_FFFF_FFFE) | 0) & ADDRESS == word & ADDRESS
    ensures ((word & 0xFFFF_FFFF_FFFF_FFFE) | 1) & ADDRESS == word & ADDRESS
  {
  }

  /** And then it does not touch the parent. */
  lemma {:induction false} RbColorBeside(word: bv64, color: bv64)
    requires color == 0 || color == 1
    ensures RbParent(RbSetColor(word, color)) == RbParent(word)
  {
    HighBits(word);
  }

  /** Storing a parent keeps the colour if and only if the address is aligned;
      the bare parent that `rb_link_node` stores makes the node red. */
  lemma {:induction false} RbParentFits(word: bv64, p: bv64)
    ensures RbParent(RbSetParent(word, p)) == p && RbColor(RbSetParent(word, p)) == RbColor(word) <==> Aligned(p)
    ensures Aligned(p) ==> RbParent(p) == p && RbColor(p) == 0
  {
    AlignedFits(p, word);
  }
}
