// The page bitmaps of sce_fragment.c: loops over 32-bit words that implement a set of page numbers.

module Bitmap {
  import opened SceState

  const ENTRIES: nat := 8 // BITMAPARRAYSIZE: 256 pages in 32-bit words

  /** (bitmap_t) 1 << k */
  function Mask(k: nat): bv32 {
    if k == 0 then 1 else Shl(Mask(k - 1))
  }

  function Shl(x: bv32): bv32 { x << 1 }

  function Shr(x: bv32): bv32 { x >> 1 }

  /** The index and the bit of a page. */
  function Entry(q: nat): nat { q / 32 }

  function Place(q: nat): (k: nat)
    ensures k < 32
  {
    q % 32
  }

  function And(w: bv32, m: bv32): bv32 { w & m }

  predicate Test(w: bv32, m: bv32) { And(w, m) != 0 }

  function With(w: bv32, m: bv32): bv32 { w | m }

  function Without(w: bv32, m: bv32): bv32 { w & !m }

  predicate BitOf(w: bv32, k: nat) { Test(w, Mask(k)) }

  predicate Marks(bm: seq<bv32>, q: nat) {
    Entry(q) < |bm| && BitOf(bm[Entry(q)], Place(q))
  }

  /** The pages a bitmap marks. */
  function Pages(bm: seq<bv32>): set<nat> { set q: nat | q < 32 * |bm| && Marks(bm, q) }

  // ----- masks

  lemma MaskTable()
    ensures Mask(0) == 0x1 && Mask(1) == 0x2 && Mask(2) == 0x4 && Mask(3) == 0x8
    ensures Mask(4) == 0x10 && Mask(5) == 0x20 && Mask(6) == 0x40 && Mask(7) == 0x80
    ensures Mask(8) == 0x100 && Mask(9) == 0x200 && Mask(10) == 0x400 && Mask(11) == 0x800
    ensures Mask(12) == 0x1000 && Mask(13) == 0x2000 && Mask(14) == 0x4000 && Mask(15) == 0x8000
    ensures Mask(16) == 0x10000 && Mask(17) == 0x20000 && Mask(18) == 0x40000 && Mask(19) == 0x80000
    ensures Mask(20) == 0x100000 && Mask(21) == 0x200000 && Mask(22) == 0x400000 && Mask(23) == 0x800000
    ensures Mask(24) == 0x1000000 && Mask(25) == 0x2000000 && Mask(26) == 0x4000000 && Mask(27) == 0x8000000
    ensures Mask(28) == 0x10000000 && Mask(29) == 0x20000000 && Mask(30) == 0x40000000 && Mask(31) == 0x80000000
    ensures Mask(32) == 0x0
  {
    assert Mask(0) == 0x1 && Mask(1) == 0x2 && Mask(2) == 0x4 && Mask(3) == 0x8;
    assert Mask(4) == 0x10 && Mask(5) == 0x20 && Mask(6) == 0x40 && Mask(7) == 0x80;
    assert Mask(8) == 0x100 && Mask(9) == 0x200 && Mask(10) == 0x400 && Mask(11) == 0x800;
    assert Mask(12) == 0x1000 && Mask(13) == 0x2000 && Mask(14) == 0x4000 && Mask(15) == 0x8000;
    assert Mask(16) == 0x10000 && Mask(17) == 0x20000 && Mask(18) == 0x40000 && Mask(19) == 0x80000;
    assert Mask(20) == 0x100000 && Mask(21) == 0x200000 && Mask(22) == 0x400000 && Mask(23) == 0x800000;
    assert Mask(24) == 0x1000000 && Mask(25) == 0x2000000 && Mask(26) == 0x4000000 && Mask(27) == 0x8000000;
    assert Mask(28) == 0x10000000 && Mask(29) == 0x20000000 && Mask(30) == 0x40000000 && Mask(31) == 0x80000000;
    assert Mask(32) == 0x0;
  }

  lemma MaskValues()
    ensures forall k: nat :: k < 32 ==> Mask(k) != 0
    ensures Mask(32) == 0
  {
    hide Mask;
    MaskTable();
  }

  predicate Apart(m: bv32, x: bv32) { And(m, x) == 0 }

  lemma ApartSwap(m: bv32, x: bv32)
    requires Apart(m, x)
    ensures Apart(x, m)
  {
  }

  lemma ShiftApart(a: bv32, b: bv32)
    requires Apart(a, b)
    ensures Apart(Shl(a), Shl(b))
  {
  }

  lemma ShiftApartOne(b: bv32)
    ensures Apart(1, Shl(b))
  {
  }

  lemma {:induction false} MasksApart(j: nat, k: nat)
    requires j < k
    ensures Apart(Mask(j), Mask(k))
  {
    hide Apart, Shl;
    if j == 0 {
      ShiftApartOne(Mask(k - 1));
    } else {
      MasksApart(j - 1, k - 1);
      ShiftApart(Mask(j - 1), Mask(k - 1));
    }
  }

  // ----- one page

  lemma OrMask(w: bv32, m: bv32, x: bv32)
    requires Apart(m, x)
    ensures And(With(w, m), x) == And(w, x)
  {
  }

  lemma AndNotMask(w: bv32, m: bv32, x: bv32)
    requires Apart(m, x)
    ensures And(Without(w, m), x) == And(w, x)
  {
  }

  lemma OtherMask(w: bv32, m: bv32, x: bv32)
    requires Apart(m, x)
    ensures Test(With(w, m), x) == Test(w, x)
    ensures Test(Without(w, m), x) == Test(w, x)
  {
    hide Apart, And, With, Without;
    OrMask(w, m, x);
    AndNotMask(w, m, x);
  }

  lemma OwnMask(w: bv32, m: bv32)
    requires m != 0
    ensures Test(With(w, m), m) && !Test(Without(w, m), m)
  {
  }

  lemma SameBit(w: bv32, j: nat, k: nat)
    requires j < 32 && k < 32
    ensures BitOf(With(w, Mask(k)), j) <==> j == k || BitOf(w, j)
    ensures BitOf(Without(w, Mask(k)), j) <==> j != k && BitOf(w, j)
  {
    hide Mask, Test, With, Without, Apart;
    MaskValues();
    if j == k {
      OwnMask(w, Mask(k));
    } else {
      if j < k {
        MasksApart(j, k);
        ApartSwap(Mask(j), Mask(k));
      } else {
        MasksApart(k, j);
      }
      OtherMask(w, Mask(k), Mask(j));
    }
  }

  lemma PageOf(i: nat, k: nat)
    requires k < 32
    ensures Entry(32 * i + k) == i && Place(32 * i + k) == k
  {
  }

  lemma PageSplit(q: nat)
    ensures q == 32 * Entry(q) + Place(q)
  {
  }

  /** Setting the bit adds the page. */
  lemma SetPage(bm: seq<bv32>, i: nat, k: nat)
    requires i < |bm| && k < 32
    ensures Pages(bm[i := With(bm[i], Mask(k))]) == Pages(bm) + {32 * i + k}
    ensures 32 * i + k in Pages(bm) <==> BitOf(bm[i], k)
  {
    hide Mask, Entry, Place, BitOf, With;
    PageOf(i, k);
    var b' := bm[i := With(bm[i], Mask(k))];
    forall q: nat ensures q in Pages(b') <==> q in Pages(bm) || q == 32 * i + k {
      PageSplit(q);
      SameBit(bm[i], Place(q), k);
    }
  }

  /** Clearing the bit removes the page. */
  lemma ClearPage(bm: seq<bv32>, i: nat, k: nat)
    requires i < |bm| && k < 32
    ensures Pages(bm[i := Without(bm[i], Mask(k))]) == Pages(bm) - {32 * i + k}
    ensures 32 * i + k in Pages(bm) <==> BitOf(bm[i], k)
  {
    hide Mask, Entry, Place, BitOf, Without;
    PageOf(i, k);
    var b' := bm[i := Without(bm[i], Mask(k))];
    forall q: nat ensures q in Pages(b') <==> q in Pages(bm) && q != 32 * i + k {
      PageSplit(q);
      SameBit(bm[i], Place(q), k);
    }
  }

  // ----- ranges of pages

  lemma RangeGrows(first: nat, n: nat)
    ensures PageRange(first, n + 1) == PageRange(first, n) + {first + n}
    ensures first + n !in PageRange(first, n)
    ensures PageRange(first, 0) == {}
  {
  }

  /** Marking one more page of a range: one more newly set if it was not marked before. */
  lemma SetCount(old0: set<nat>, first: nat, n: nat)
    ensures old0 + PageRange(first, n + 1) == old0 + PageRange(first, n) + {first + n}
    ensures |PageRange(first, n + 1) - old0| == |PageRange(first, n) - old0| + if first + n in old0 then 0 else 1
    ensures first + n in old0 + PageRange(first, n) <==> first + n in old0
  {
    RangeGrows(first, n);
    if first + n in old0 {
      assert PageRange(first, n + 1) - old0 == PageRange(first, n) - old0;
    } else {
      assert PageRange(first, n + 1) - old0 == PageRange(first, n) - old0 + {first + n};
    }
  }

  lemma ClearCount(old0: set<nat>, first: nat, n: nat)
    ensures old0 - PageRange(first, n + 1) == old0 - PageRange(first, n) - {first + n}
    ensures |PageRange(first, n + 1) * old0| == |PageRange(first, n) * old0| + if first + n in old0 then 1 else 0
    ensures first + n in old0 - PageRange(first, n) <==> first + n in old0
  {
    RangeGrows(first, n);
    if first + n in old0 {
      assert PageRange(first, n + 1) * old0 == PageRange(first, n) * old0 + {first + n};
    } else {
      assert PageRange(first, n + 1) * old0 == PageRange(first, n) * old0;
    }
  }

  lemma MaskStep(k: nat)
    requires k < 32
    ensures Shl(Mask(k)) == Mask(k + 1)
    ensures Mask(k + 1) == 0 <==> k == 31
    ensures Mask(0) == 1
  {
    hide Shl;
    MaskValues();
  }

  /** The test and the update of one page in word `b` of entry `i`. */
  lemma SetStep(bm: seq<bv32>, b: bv32, i: nat, k: nat, pages: set<nat>)
    requires i < |bm| && k < 32 && Pages(bm[i := b]) == pages
    ensures Test(b, Mask(k)) <==> 32 * i + k in pages
    ensures Pages(bm[i := With(b, Mask(k))]) == pages + {32 * i + k}
  {
    hide Mask, With, Pages;
    SetPage(bm[i := b], i, k);
    assert bm[i := b][i := With(b, Mask(k))] == bm[i := With(b, Mask(k))];
  }

  lemma ClearStep(bm: seq<bv32>, b: bv32, i: nat, k: nat, pages: set<nat>)
    requires i < |bm| && k < 32 && Pages(bm[i := b]) == pages
    ensures Test(b, Mask(k)) <==> 32 * i + k in pages
    ensures Pages(bm[i := Without(b, Mask(k))]) == pages - {32 * i + k}
  {
    hide Mask, Without, Pages;
    ClearPage(bm[i := b], i, k);
    assert bm[i := b][i := Without(b, Mask(k))] == bm[i := Without(b, Mask(k))];
  }

  /** What one turn of the inner loop does. */
  lemma SetRound(bm: seq<bv32>, b: bv32, i: nat, k: nat, before: set<nat>, first: nat, n: nat)
    requires i < |bm| && k < 32 && 32 * i + k == first + n
    requires Pages(bm[i := b]) == before + PageRange(first, n)
    ensures Test(b, Mask(k)) ==>
      Pages(bm[i := b]) == before + PageRange(first, n + 1) &&
          |PageRange(first, n + 1) - before| == |PageRange(first, n) - before|
    ensures !Test(b, Mask(k)) ==>
      Pages(bm[i := With(b, Mask(k))]) == before + PageRange(first, n + 1) &&
          |PageRange(first, n + 1) - before| == |PageRange(first, n) - before| + 1
  {
    hide Mask, With, Pages, Test, PageRange;
    SetStep(bm, b, i, k, before + PageRange(first, n));
    SetCount(before, first, n);
  }

  lemma ClearRound(bm: seq<bv32>, b: bv32, i: nat, k: nat, before: set<nat>, first: nat, n: nat)
    requires i < |bm| && k < 32 && 32 * i + k == first + n
    requires Pages(bm[i := b]) == before - PageRange(first, n)
    ensures !Test(b, Mask(k)) ==>
      Pages(bm[i := b]) == before - PageRange(first, n + 1) &&
          |PageRange(first, n + 1) * before| == |PageRange(first, n) * before|
    ensures Test(b, Mask(k)) ==>
      Pages(bm[i := Without(b, Mask(k))]) == before - PageRange(first, n + 1) &&
          |PageRange(first, n + 1) * before| == |PageRange(first, n) * before| + 1
  {
    hide Mask, Without, Pages, Test, PageRange;
    ClearStep(bm, b, i, k, before - PageRange(first, n));
    ClearCount(before, first, n);
  }

  /** _set_bitmap: marks exactly the range and returns how many pages were not marked before. */
  method SetBitmap(bitmap: array<bv32>, pgnum: nat, pgcnt: nat) returns (nrSet: nat)
    requires bitmap.Length == ENTRIES && pgnum + pgcnt <= PAGEPERFRAG
    modifies bitmap
    ensures Pages(bitmap[..]) == old(Pages(bitmap[..])) + PageRange(pgnum, pgcnt)
    ensures nrSet == |PageRange(pgnum, pgcnt) - old(Pages(bitmap[..]))|
  {
    hide Mask, With, Pages, Test, PageRange, Entry, Place;
    ghost var before := Pages(bitmap[..]);
    var i: nat, cnt: nat, mask := Entry(pgnum), pgcnt, Mask(Place(pgnum));
    ghost var k: nat := Place(pgnum);
    PageSplit(pgnum);
    RangeGrows(pgnum, 0);
    nrSet := 0;
    while cnt > 0
      invariant cnt <= pgcnt && (cnt > 0 ==> 32 * i + k == pgnum + (pgcnt - cnt) && k < 32 && mask == Mask(k))
      invariant Pages(bitmap[..]) == before + PageRange(pgnum, pgcnt - cnt)
      invariant nrSet == |PageRange(pgnum, pgcnt - cnt) - before|
    {
      var b := bitmap[i];
      ghost var bm := bitmap[..];
      assert bm[i := b] == bm;
      MaskValues();
      ghost var start := cnt;
      while mask != 0 && cnt > 0
        invariant cnt <= start && k <= 32 && mask == Mask(k) && (mask == 0 <==> k == 32)
        invariant 32 * i + k == pgnum + (pgcnt - cnt) && bitmap[..] == bm
        invariant Pages(bm[i := b]) == before + PageRange(pgnum, pgcnt - cnt)
        invariant nrSet == |PageRange(pgnum, pgcnt - cnt) - before|
        decreases cnt
      {
        SetRound(bm, b, i, k, before, pgnum, pgcnt - cnt);
        if !Test(b, mask) {
          nrSet := nrSet + 1;
          b := With(b, mask);
        }
        MaskStep(k);
        mask, cnt, k := Shl(mask), cnt - 1, k + 1;
      }
      bitmap[i] := b;
      assert bitmap[..] == bm[i := b];
      MaskStep(0);
      i, mask, k := i + 1, 1, 0;
    }
  }

  /** _reset_bitmap: clears exactly the range and returns how many pages were marked before. */
  method ResetBitmap(bitmap: array<bv32>, pgnum: nat, pgcnt: nat) returns (nrReset: nat)
    requires bitmap.Length == ENTRIES && pgnum + pgcnt <= PAGEPERFRAG
    modifies bitmap
    ensures Pages(bitmap[..]) == old(Pages(bitmap[..])) - PageRange(pgnum, pgcnt)
    ensures nrReset == |PageRange(pgnum, pgcnt) * old(Pages(bitmap[..]))|
  {
    hide Mask, Without, Pages, Test, PageRange, Entry, Place;
    ghost var before := Pages(bitmap[..]);
    var i: nat, cnt: nat, mask := Entry(pgnum), pgcnt, Mask(Place(pgnum));
    ghost var k: nat := Place(pgnum);
    PageSplit(pgnum);
    RangeGrows(pgnum, 0);
    nrReset := 0;
    while cnt > 0
      invariant cnt <= pgcnt && (cnt > 0 ==> 32 * i + k == pgnum + (pgcnt - cnt) && k < 32 && mask == Mask(k))
      invariant Pages(bitmap[..]) == before - PageRange(pgnum, pgcnt - cnt)
      invariant nrReset == |PageRange(pgnum, pgcnt - cnt) * before|
    {
      var b := bitmap[i];
      ghost var bm := bitmap[..];
      assert bm[i := b] == bm;
      MaskValues();
      ghost var start := cnt;
      while mask != 0 && cnt > 0
        invariant cnt <= start && k <= 32 && mask == Mask(k) && (mask == 0 <==> k == 32)
        invariant 32 * i + k == pgnum + (pgcnt - cnt) && bitmap[..] == bm
        invariant Pages(bm[i := b]) == before - PageRange(pgnum, pgcnt - cnt)
        invariant nrReset == |PageRange(pgnum, pgcnt - cnt) * before|
        decreases cnt
      {
        ClearRound(bm, b, i, k, before, pgnum, pgcnt - cnt);
        if Test(b, mask) {
          nrReset := nrReset + 1;
          b := Without(b, mask);
        }
        MaskStep(k);
        mask, cnt, k := Shl(mask), cnt - 1, k + 1;
      }
      bitmap[i] := b;
      assert bitmap[..] == bm[i := b];
      MaskStep(0);
      i, mask, k := i + 1, 1, 0;
    }
  }

  // ----- whole words

  const ONES: bv32 := 0xffff_ffff

  function Left(x: bv32, n: nat): bv32 { if n == 0 then x else Shl(Left(x, n - 1)) }

  function Right(x: bv32, n: nat): bv32 { if n == 0 then x else Shr(Right(x, n - 1)) }

  predicate Single(m: bv32) { m & (m - 1) == 0 }

  lemma SingleShift(m: bv32)
    requires Single(m)
    ensures Single(Shl(m))
  {
  }

  lemma {:induction false} MaskSingle(k: nat)
    ensures Single(Mask(k))
  {
    hide Single, Shl;
    if k == 0 {
      SingleOne();
    } else {
      MaskSingle(k - 1);
      SingleShift(Mask(k - 1));
    }
  }

  lemma SingleOne()
    ensures Single(1)
  {
  }

  lemma SingleAnd(w: bv32, x: bv32)
    requires Single(x)
    ensures And(w, x) == 0 || And(w, x) == x
  {
  }

  lemma AndAssociates(w: bv32, m: bv32, x: bv32)
    ensures And(And(w, m), x) == And(w, And(m, x)) && And(w, 0) == 0
  {
  }

  lemma TestBoth(w: bv32, m: bv32, x: bv32)
    requires Single(x)
    ensures Test(And(w, m), x) <==> Test(w, x) && Test(m, x)
  {
    hide And, Single;
    SingleAnd(m, x);
    AndAssociates(w, m, x);
  }

  lemma LeftTest(x: bv32, m: bv32)
    requires And(m, 0x8000_0000) == 0
    ensures And(Shl(x), Shl(m)) == Shl(And(x, m))
    ensures Shl(And(x, m)) == 0 <==> And(x, m) == 0
  {
  }

  lemma LeftLow(x: bv32)
    ensures And(Shl(x), 1) == 0
  {
  }

  lemma RightTest(x: bv32, m: bv32)
    requires And(m, 0x8000_0000) == 0
    ensures And(Shr(x), m) == 0 <==> And(x, Shl(m)) == 0
  {
  }

  lemma RightHigh(x: bv32)
    ensures And(Shr(x), 0x8000_0000) == 0
  {
  }

  lemma OnesTest(m: bv32)
    ensures And(ONES, m) == m
  {
  }

  lemma LowMask(k: nat)
    requires k < 31
    ensures And(Mask(k), 0x8000_0000) == 0 && Mask(31) == 0x8000_0000
  {
    hide Mask, And;
    MaskTable();
    MasksApart(k, 31);
  }

  /** Shifting a word shifts its bits. */
  lemma LeftBit(x: bv32, j: nat)
    requires j < 32
    ensures BitOf(Shl(x), j) <==> j > 0 && BitOf(x, j - 1)
  {
    hide And, Shl;
    if j == 0 {
      LeftLow(x);
    } else {
      LowMask(j - 1);
      LeftTest(x, Mask(j - 1));
    }
  }

  lemma RightBit(x: bv32, j: nat)
    requires j < 32
    ensures BitOf(Shr(x), j) <==> j < 31 && BitOf(x, j + 1)
  {
    hide And, Shl, Shr;
    if j == 31 {
      LowMask(30);
      RightHigh(x);
    } else {
      LowMask(j);
      RightTest(x, Mask(j));
    }
  }

  lemma AllOnes(j: nat)
    requires j < 32
    ensures BitOf(ONES, j)
  {
    hide Mask, And;
    MaskValues();
    OnesTest(Mask(j));
  }

  /** The lowest 32 - n bits. */
  lemma {:induction false} RightOnes(n: nat, j: nat)
    requires n <= 32 && j < 32
    ensures BitOf(Right(ONES, n), j) <==> j < 32 - n
  {
    hide Mask, BitOf, Shr;
    if n == 0 {
      AllOnes(j);
    } else {
      RightBit(Right(ONES, n - 1), j);
      if j < 31 {
        RightOnes(n - 1, j + 1);
      }
    }
  }

  lemma {:induction false} LeftBits(x: bv32, n: nat, j: nat)
    requires j < 32
    ensures BitOf(Left(x, n), j) <==> j >= n && BitOf(x, j - n)
  {
    hide Mask, BitOf, Shl;
    if n > 0 {
      LeftBit(Left(x, n - 1), j);
      if j > 0 {
        LeftBits(x, n - 1, j - 1);
      }
    }
  }

  lemma NoBits(w: bv32)
    requires And(w, 0x1) == 0 && And(w, 0x2) == 0 && And(w, 0x4) == 0 && And(w, 0x8) == 0 && And(w, 0x10) == 0 &&
        And(w, 0x20) == 0 && And(w, 0x40) == 0 && And(w, 0x80) == 0
    requires And(w, 0x100) == 0 && And(w, 0x200) == 0 && And(w, 0x400) == 0 && And(w, 0x800) == 0 &&
        And(w, 0x1000) == 0 && And(w, 0x2000) == 0 && And(w, 0x4000) == 0 && And(w, 0x8000) == 0
    requires And(w, 0x10000) == 0 && And(w, 0x20000) == 0 && And(w, 0x40000) == 0 && And(w, 0x80000) == 0 &&
        And(w, 0x100000) == 0 && And(w, 0x200000) == 0 && And(w, 0x400000) == 0 && And(w, 0x800000) == 0
    requires And(w, 0x1000000) == 0 && And(w, 0x2000000) == 0 && And(w, 0x4000000) == 0 && And(w, 0x8000000) == 0 &&
        And(w, 0x10000000) == 0 && And(w, 0x20000000) == 0 && And(w, 0x40000000) == 0 && And(w, 0x80000000) == 0
    ensures w == 0
  {
  }

  /** A word is zero exactly if none of its bits is set. */
  lemma ZeroWord(w: bv32)
    ensures w == 0 <==> forall j: nat :: j < 32 ==> !BitOf(w, j)
  {
    hide Mask, And;
    AndAssociates(w, 0, 0);
    if w == 0 {
      forall j: nat | j < 32 ensures !BitOf(w, j) {
        ZeroAnd(Mask(j));
      }
    } else if forall j: nat :: j < 32 ==> !BitOf(w, j) {
      MaskTable();
      assert !BitOf(w, 0) && !BitOf(w, 1) && !BitOf(w, 2) && !BitOf(w, 3) && !BitOf(w, 4) && !BitOf(w, 5) &&
          !BitOf(w, 6) && !BitOf(w, 7);
      assert !BitOf(w, 8) && !BitOf(w, 9) && !BitOf(w, 10) && !BitOf(w, 11) && !BitOf(w, 12) && !BitOf(w, 13) &&
          !BitOf(w, 14) && !BitOf(w, 15);
      assert !BitOf(w, 16) && !BitOf(w, 17) && !BitOf(w, 18) && !BitOf(w, 19) && !BitOf(w, 20) && !BitOf(w, 21) &&
          !BitOf(w, 22) && !BitOf(w, 23);
      assert !BitOf(w, 24) && !BitOf(w, 25) && !BitOf(w, 26) && !BitOf(w, 27) && !BitOf(w, 28) && !BitOf(w, 29) &&
          !BitOf(w, 30) && !BitOf(w, 31);
      NoBits(w);
    }
  }

  lemma ZeroAnd(m: bv32)
    ensures And(0, m) == 0
  {
  }

  /** The bits of the mask are a run. */
  ghost predicate IsRun(mask: bv32, offset: nat, n: nat) {
    forall j: nat :: j < 32 ==> (BitOf(mask, j) <==> InRun(offset, n, j))
  }

  lemma AndBit(w: bv32, mask: bv32, j: nat)
    ensures BitOf(And(w, mask), j) <==> BitOf(w, j) && BitOf(mask, j)
  {
    hide Mask, Test, And, Single;
    MaskSingle(j);
    TestBoth(w, mask, Mask(j));
  }

  lemma RunPages(bm: seq<bv32>, i: nat, offset: nat, n: nat)
    requires i < |bm| && offset + n <= 32
    ensures PageRange(32 * i + offset, n) !! Pages(bm) <==> forall j: nat :: InRun(offset, n, j) ==> !BitOf(bm[i], j)
  {
    hide BitOf, Entry, Place;
    var range := PageRange(32 * i + offset, n);
    if range !! Pages(bm) {
      forall j: nat | InRun(offset, n, j) ensures !BitOf(bm[i], j) {
        PageOf(i, j);
        assert 32 * i + j in range;
      }
    } else {
      var q :| q in range && q in Pages(bm);
      PageOf(i, q - 32 * i);
      assert InRun(offset, n, q - 32 * i);
    }
  }

  /** A mask whose bits are a run tests a run of pages in one go. */
  lemma RunTest(bm: seq<bv32>, i: nat, offset: nat, n: nat, mask: bv32)
    requires i < |bm| && offset + n <= 32 && IsRun(mask, offset, n)
    ensures And(bm[i], mask) == 0 <==> PageRange(32 * i + offset, n) !! Pages(bm)
  {
    hide And, BitOf, Pages, PageRange;
    ZeroWord(And(bm[i], mask));
    forall j: nat | j < 32 ensures BitOf(And(bm[i], mask), j) <==> InRun(offset, n, j) && BitOf(bm[i], j) {
      AndBit(bm[i], mask, j);
    }
    RunPages(bm, i, offset, n);
  }

  lemma RunMask(offset: nat, n: nat)
    requires offset + n <= 32
    ensures IsRun(Left(Right(ONES, 32 - n), offset), offset, n)
  {
    hide BitOf, Left, Right;
    var mask := Left(Right(ONES, 32 - n), offset);
    forall j: nat | j < 32 ensures BitOf(mask, j) <==> InRun(offset, n, j) {
      LeftBits(Right(ONES, 32 - n), offset, j);
      if j >= offset {
        RightOnes(32 - n, j - offset);
      }
    }
  }

  lemma HighMask(offset: nat)
    requires offset <= 32
    ensures IsRun(Left(ONES, offset), offset, 32 - offset)
  {
    hide BitOf, Left, Right;
    var mask := Left(ONES, offset);
    forall j: nat | j < 32 ensures BitOf(mask, j) <==> InRun(offset, 32 - offset, j) {
      LeftBits(ONES, offset, j);
      if j >= offset {
        AllOnes(j - offset);
      }
    }
  }

  lemma OneBit(bm: seq<bv32>, i: nat, k: nat)
    requires i < |bm| && k < 32
    ensures Test(bm[i], Mask(k)) <==> !(PageRange(32 * i + k, 1) !! Pages(bm))
  {
    hide Mask, Test, Pages;
    SetPage(bm, i, k);
    assert PageRange(32 * i + k, 1) == {32 * i + k};
  }

  lemma RangeSplits(first: nat, n: nat, m: nat)
    ensures PageRange(first, n + m) == PageRange(first, n) + PageRange(first + n, m)
  {
  }

  /** _check_bitmap: succeeds iff no page of the range is marked. */
  method CheckBitmap(bitmap: array<bv32>, pgnum: nat, pgcnt: nat) returns (ok: bool)
    requires bitmap.Length == ENTRIES && pgnum + pgcnt <= PAGEPERFRAG
    ensures ok <==> PageRange(pgnum, pgcnt) !! Pages(bitmap[..])
  {
    hide Mask, Pages, Test, And, BitOf, PageRange, Left, Right, Entry, Place, IsRun;
    var i: nat, offset: nat, cnt: nat := Entry(pgnum), Place(pgnum), pgcnt;
    PageSplit(pgnum);
    if pgcnt == 1 {
      OneBit(bitmap[..], i, offset);
      return !Test(bitmap[i], Mask(offset));
    }
    RangeGrows(pgnum, 0);
    while cnt > 0
      invariant cnt <= pgcnt && (cnt > 0 ==> 32 * i + offset == pgnum + (pgcnt - cnt) && offset < 32)
      invariant PageRange(pgnum, pgcnt - cnt) !! Pages(bitmap[..])
    {
      var nrCheck, mask := 32 - offset, ONES;
      if cnt < nrCheck {
        mask := Right(mask, 32 - cnt);
        nrCheck := cnt;
        RunMask(offset, cnt);
      } else {
        HighMask(offset);
      }
      mask := Left(mask, offset);
      RunTest(bitmap[..], i, offset, nrCheck, mask);
      RangeSplits(pgnum, pgcnt - cnt, nrCheck);
      RangeSplits(pgnum, pgcnt - cnt + nrCheck, cnt - nrCheck);
      if And(bitmap[i], mask) != 0 {
        break;
      }
      cnt, offset, i := cnt - nrCheck, 0, i + 1;
    }
    ok := cnt == 0;
  }
}
