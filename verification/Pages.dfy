/** Page-granular addresses: the constants and the mask shared by the range tree and the page tables. */
module Pages {

  const PAGE_SIZE: nat := 4096

  // Bits 12 to 47: every tracked address fits in them.
  const PAGE_MASK: nat := 0xFFFF_FFFF_F000

  predicate Aligned(a: nat) {
    a % PAGE_SIZE == 0
  }

  // a & PAGE_MASK
  function PageMask(a: nat): nat {
    a % 0x1_0000_0000_0000 / PAGE_SIZE * PAGE_SIZE
  }

  // Masking loses nothing exactly on the aligned addresses up to PAGE_MASK.
  lemma MaskIdentity(a: nat)
    ensures PageMask(a) == a <==> Aligned(a) && a <= PAGE_MASK
  {
    assert a == a % 0x1_0000_0000_0000 + a / 0x1_0000_0000_0000 * 0x1_0000_0000_0000;
    if Aligned(a) && a <= PAGE_MASK {
      assert a % 0x1_0000_0000_0000 == a;
    }
  }
}
