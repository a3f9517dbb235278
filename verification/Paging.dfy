/** Page sizes and the index macros of the page tables. */
module Paging {
  const PAGE4K := 0x1000
  const PAGE2M := 0x20_0000
  const PAGE1G := 0x4000_0000
  const ENTCNT := 512

  /** The lower half's first slot of the root: all that user address spaces use. */
  const LOWER := 0x80_0000_0000

  function PdptIdx(v: nat): nat { v / PAGE1G % ENTCNT }
  function PdIdx(v: nat): nat { v / PAGE2M % ENTCNT }
  function PtIdx(v: nat): nat { v / PAGE4K % ENTCNT }
}
