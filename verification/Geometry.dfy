// Sector addresses: what a population reads and writes, what a hit reads, and the last fragment of a LUN.

module Geometry {
  import opened SceState
  import opened Invariants

  const HEADER: nat := 2048 // IOSTASH_HEADERSCT
  const FRAGSPACE: nat := 0x20_0000 // fragment numbers whose first sector fits 32 bits

  function Trunc32(n: nat): nat { n % 0x1_0000_0000 }

  /** poptask_write: where the fragment at offset `off` of its device is written. All in 32 bits. */
  function PopWriteSector(off: nat): nat { Trunc32(Trunc32(off * SCTRPERFRAG) + HEADER) }

  /** _clone_init: where a hit on LUN sector `psn` reads. The sum is in 64 bits. */
  function HitSector(off: nat, psn: nat): nat { Trunc32(off * SCTRPERFRAG) + psn % SCTRPERFRAG + HEADER }

  /** poptask_read: the first disk sector of the buffer, and how many are read. */
  function PopReadSector(f: nat): nat { Trunc32(f * SCTRPERFRAG) }

  function PopReadCount(f: nat, nrSctr: nat): nat
    requires PopReadSector(f) <= nrSctr
  {
    if PopReadSector(f) + SCTRPERFRAG >= nrSctr then Trunc32(nrSctr - PopReadSector(f)) else SCTRPERFRAG
  }

  /** The pages _map_frag marks at the end of the last fragment, with its 32-bit product. */
  function TailCount32(nrSctr: nat, n: nat, f: nat): nat {
    var whole := Trunc32(n * SCTRPERFRAG);
    if f + 1 == n && nrSctr < whole then (whole - nrSctr + SCTRPERPAGE - 1) / SCTRPERPAGE else 0
  }

  // ----- 32-bit products

  lemma TruncScaled(x: nat)
    ensures Trunc32(x * SCTRPERFRAG) == x % FRAGSPACE * SCTRPERFRAG
    ensures Trunc32(x * SCTRPERFRAG) == x * SCTRPERFRAG <==> x < FRAGSPACE
  {
    var k, r := x / FRAGSPACE, x % FRAGSPACE;
    assert x * 2048 == k * 0x1_0000_0000 + r * 2048;
  }

  // ----- the cache device

  /** A hit reads the sector its population wrote, exactly unless the fragment number is the last one before a
      multiple of 2^21; there the population writes over the header. */
  lemma HitAgrees(off: nat, psn: nat)
    ensures HitSector(off, psn) == PopWriteSector(off) + psn % SCTRPERFRAG <==> off % FRAGSPACE != FRAGSPACE - 1
    ensures PopWriteSector(off) >= HEADER <==> off % FRAGSPACE != FRAGSPACE - 1
    ensures HitSector(off, psn) >= HEADER
  {
    TruncScaled(off);
  }

  predicate Clash(off: nat, off': nat, psn: nat, psn': nat) {
    HitSector(off, psn) == HitSector(off', psn') && (off != off' || psn % SCTRPERFRAG != psn' % SCTRPERFRAG)
  }

  ghost predicate NoClash(n: nat) {
    forall off: nat, off': nat, psn: nat, psn': nat :: off < n && off' < n ==> !Clash(off, off', psn, psn')
  }

  lemma ClashOnlyFar(off: nat, off': nat, psn: nat, psn': nat)
    requires off < FRAGSPACE && off' < FRAGSPACE
    ensures !Clash(off, off', psn, psn')
  {
    TruncScaled(off);
    TruncScaled(off');
  }

  /** On a device of `n` fragments different fragments and offsets have different sectors iff n is at most 2^21. */
  lemma NoClashIff(n: nat)
    ensures NoClash(n) <==> n <= FRAGSPACE
  {
    if n <= FRAGSPACE {
      forall off: nat, off': nat, psn: nat, psn': nat | off < n && off' < n ensures !Clash(off, off', psn, psn') {
        ClashOnlyFar(off, off', psn, psn');
      }
    } else {
      TruncScaled(0);
      TruncScaled(FRAGSPACE);
      assert Clash(0, FRAGSPACE, 0, 0);
    }
  }

  /** A device that holds the header and `n` whole fragments has room for all of them. */
  lemma InsideDevice(nrSctr: nat, off: nat, psn: nat)
    requires off < nrSctr / SCTRPERFRAG
    ensures HitSector(off, psn) < nrSctr + HEADER
  {
    TruncScaled(off);
  }

  // ----- the disk

  /** Fragment `f` of a LUN is read from its own first sector iff its number is below 2^21. */
  lemma ReadsOwnSectors(f: nat)
    ensures PopReadSector(f) == f * SCTRPERFRAG <==> f < FRAGSPACE
  {
    TruncScaled(f);
  }

  /** The buffer of a population of fragment `f` holds page `q` of that fragment. */
  predicate Fills(nrSctr: nat, f: nat, q: nat)
    requires PopReadSector(f) <= nrSctr
  {
    PopReadSector(f) == f * SCTRPERFRAG && (q + 1) * SCTRPERPAGE <= PopReadCount(f, nrSctr)
  }

  /** A population stays inside the LUN, and fills the pages wholly inside the LUN exactly if its number is below
      2^21. */
  lemma FillsInside(nrSctr: nat, f: nat, q: nat)
    requires f < (nrSctr + SCTRPERFRAG - 1) / SCTRPERFRAG && q < PAGEPERFRAG
    ensures PopReadSector(f) < nrSctr && 0 < PopReadCount(f, nrSctr) <= SCTRPERFRAG
    ensures PopReadSector(f) + PopReadCount(f, nrSctr) <= nrSctr
    ensures Fills(nrSctr, f, q) <==> f < FRAGSPACE && !BeyondEnd(nrSctr, f, q)
  {
    TruncScaled(f);
    ReadsOwnSectors(f);
    if f < FRAGSPACE {
      SmallRead(nrSctr, f);
    } else {
      FarRead(nrSctr, f);
    }
  }

  lemma SmallRead(nrSctr: nat, f: nat)
    requires f < (nrSctr + SCTRPERFRAG - 1) / SCTRPERFRAG && f < FRAGSPACE
    ensures PopReadSector(f) == f * SCTRPERFRAG < nrSctr
    ensures PopReadCount(f, nrSctr) == if f * SCTRPERFRAG + SCTRPERFRAG >= nrSctr then nrSctr - f * SCTRPERFRAG
        else SCTRPERFRAG
  {
    TruncScaled(f);
  }

  /** Beyond that a population reads some whole fragment further in front. */
  lemma FarRead(nrSctr: nat, f: nat)
    requires f < (nrSctr + SCTRPERFRAG - 1) / SCTRPERFRAG && f >= FRAGSPACE
    ensures PopReadSector(f) + SCTRPERFRAG <= f * SCTRPERFRAG < nrSctr && PopReadCount(f, nrSctr) == SCTRPERFRAG
  {
    TruncScaled(f);
  }

  /** A page of a just mapped fragment is clear iff it lies wholly inside the LUN. */
  lemma ClearIffInside(nrSctr: nat, l: nat, f: nat, q: nat)
    requires f < (nrSctr + SCTRPERFRAG - 1) / SCTRPERFRAG && q < PAGEPERFRAG
    ensures var n := (nrSctr + SCTRPERFRAG - 1) / SCTRPERFRAG;
            && TailCount(nrSctr, n, f) <= PAGEPERFRAG
            && (q !in NewFrag(l, f, TailCount(nrSctr, n, f)).invalid <==> !BeyondEnd(nrSctr, f, q))
  {
  }

  ghost predicate TailsAgree(nrSctr: nat, n: nat) {
    forall f: nat :: f < n ==> TailCount32(nrSctr, n, f) == TailCount(nrSctr, n, f)
  }

  /** The 32-bit product of _map_frag is right for every fragment of a LUN iff the LUN has fewer than 2^21 fragments
      or ends on a fragment boundary; otherwise its partial last page is left readable. */
  lemma TailsAgreeIff(nrSctr: nat)
    requires nrSctr > 0
    ensures var n := (nrSctr + SCTRPERFRAG - 1) / SCTRPERFRAG;
            TailsAgree(nrSctr, n) <==> n < FRAGSPACE || nrSctr % SCTRPERFRAG == 0
  {
    var n := (nrSctr + SCTRPERFRAG - 1) / SCTRPERFRAG;
    TruncScaled(n);
    LastFragment(nrSctr);
    if n >= FRAGSPACE {
      WrapsFar(n);
      assert TailCount32(nrSctr, n, n - 1) == 0;
      TailPositive(nrSctr);
    }
  }

  lemma LastFragment(nrSctr: nat)
    requires nrSctr > 0
    ensures var n := (nrSctr + SCTRPERFRAG - 1) / SCTRPERFRAG;
            n > 0 && (n - 1) * SCTRPERFRAG < nrSctr <= n * SCTRPERFRAG &&
                (nrSctr == n * SCTRPERFRAG <==> nrSctr % SCTRPERFRAG == 0)
  {
  }

  lemma WrapsFar(n: nat)
    requires n >= FRAGSPACE
    ensures Trunc32(n * SCTRPERFRAG) <= (n - 1) * SCTRPERFRAG
  {
    TruncScaled(n);
  }

  lemma TailPositive(nrSctr: nat)
    requires nrSctr > 0
    ensures var n := (nrSctr + SCTRPERFRAG - 1) / SCTRPERFRAG;
            n > 0 && (TailCount(nrSctr, n, n - 1) == 0 <==> nrSctr % SCTRPERFRAG == 0)
  {
    LastFragment(nrSctr);
  }

  // ----- end to end

  /** Where in the population's write, and so in its buffer, a hit on sector `psn` reads. */
  function InBuffer(off: nat, psn: nat): int { HitSector(off, psn) - PopWriteSector(off) }

  /** A hit on sector `psn` of a LUN reads the cache sector that the population of its fragment wrote with the
      contents of disk sector `psn`, exactly if neither product wraps: the LUN fragment is below 2^21 and the cache
      fragment is not one below a multiple of 2^21. */
  lemma EndToEnd(nrSctr: nat, psn: nat, off: nat)
    requires psn < nrSctr
    ensures PopReadSector(psn / SCTRPERFRAG) <= nrSctr
    ensures var f, k := psn / SCTRPERFRAG, InBuffer(off, psn);
            0 <= k < PopReadCount(f, nrSctr) && PopReadSector(f) + k == psn <==>
              f < FRAGSPACE && off % FRAGSPACE != FRAGSPACE - 1
  {
    var f := psn / SCTRPERFRAG;
    HitAgrees(off, psn);
    ReadsOwnSectors(f);
    FillsInside(nrSctr, f, 0);
    assert psn == f * SCTRPERFRAG + psn % SCTRPERFRAG;
    if off % FRAGSPACE == FRAGSPACE - 1 {
      LastBeforeWrap(off, psn);
    } else if f < FRAGSPACE {
      SmallRead(nrSctr, f);
    }
  }

  lemma LastBeforeWrap(off: nat, psn: nat)
    requires off % FRAGSPACE == FRAGSPACE - 1
    ensures InBuffer(off, psn) >= SCTRPERFRAG
  {
    TruncScaled(off);
  }
}
