// The page protocol on its two bitmaps: the loops of sce_fragment.c over single bits, and the calls around them.

module AwtBitmaps {
  import opened SceState
  import opened Bitmap
  import opened Awt

  // ----- single bits

  /** _getabit */
  method GetBit(bitmap: array<bv32>, pgnum: nat) returns (b: bool)
    requires bitmap.Length == ENTRIES && pgnum < PAGEPERFRAG
    ensures b <==> pgnum in Pages(bitmap[..])
  {
    hide Mask, Test, Pages;
    PageSplit(pgnum);
    SetPage(bitmap[..], Entry(pgnum), Place(pgnum));
    b := Test(bitmap[Entry(pgnum)], Mask(Place(pgnum)));
  }

  /** _setabit */
  method SetBit(bitmap: array<bv32>, pgnum: nat)
    requires bitmap.Length == ENTRIES && pgnum < PAGEPERFRAG
    modifies bitmap
    ensures Pages(bitmap[..]) == old(Pages(bitmap[..])) + {pgnum}
  {
    hide Mask, With, Pages;
    PageSplit(pgnum);
    ghost var bm := bitmap[..];
    SetPage(bm, Entry(pgnum), Place(pgnum));
    bitmap[Entry(pgnum)] := With(bitmap[Entry(pgnum)], Mask(Place(pgnum)));
    assert bitmap[..] == bm[Entry(pgnum) := With(bm[Entry(pgnum)], Mask(Place(pgnum)))];
  }

  /** _resetabit */
  method ResetBit(bitmap: array<bv32>, pgnum: nat)
    requires bitmap.Length == ENTRIES && pgnum < PAGEPERFRAG
    modifies bitmap
    ensures Pages(bitmap[..]) == old(Pages(bitmap[..])) - {pgnum}
  {
    hide Mask, Without, Pages;
    PageSplit(pgnum);
    ghost var bm := bitmap[..];
    ClearPage(bm, Entry(pgnum), Place(pgnum));
    bitmap[Entry(pgnum)] := Without(bitmap[Entry(pgnum)], Mask(Place(pgnum)));
    assert bitmap[..] == bm[Entry(pgnum) := Without(bm[Entry(pgnum)], Mask(Place(pgnum)))];
  }

  // ----- whole bitmaps

  lemma OrSpreads(w: bv32, v: bv32, m: bv32)
    ensures And(With(w, v), m) == With(And(w, m), And(v, m))
  {
  }

  lemma OrZero(x: bv32, y: bv32)
    ensures With(x, y) == 0 <==> x == 0 && y == 0
  {
  }

  lemma OrBit(w: bv32, v: bv32, m: bv32)
    ensures Test(With(w, v), m) <==> Test(w, m) || Test(v, m)
  {
    hide And, With;
    OrSpreads(w, v, m);
    OrZero(And(w, m), And(v, m));
  }

  lemma MergedWord(bm: seq<bv32>, other: seq<bv32>, i: nat, q: nat)
    requires i < |bm| == |other|
    ensures Marks(bm[i := With(bm[i], other[i])], q) <==> Marks(bm, q) || (Entry(q) == i && Marks(other, q))
  {
    hide Mask, Test, With, Place;
    OrBit(bm[i], other[i], Mask(Place(q)));
  }

  lemma ZeroPages(bm: seq<bv32>)
    requires forall i :: 0 <= i < |bm| ==> bm[i] == 0
    ensures Pages(bm) == {}
  {
    hide Mask;
    forall q: nat ensures !Marks(bm, q) {
      ZeroAnd(Mask(Place(q)));
    }
  }

  /** The loop of _frag_mergebitmap. */
  method MergeInto(bitmap0: array<bv32>, bitmap1: array<bv32>)
    requires bitmap0.Length == bitmap1.Length == ENTRIES && bitmap0 != bitmap1
    modifies bitmap0
    ensures Pages(bitmap0[..]) == old(Pages(bitmap0[..])) + Pages(bitmap1[..])
  {
    hide Mask, With, Test, Entry, Place, Marks;
    ghost var before := bitmap0[..];
    EntryBound();
    var i := 0;
    while i < ENTRIES
      invariant i <= ENTRIES
      invariant forall q: nat :: Marks(bitmap0[..], q) <==> Marks(before, q) || (Entry(q) < i && Marks(bitmap1[..], q))
    {
      ghost var bm := bitmap0[..];
      forall q: nat ensures Marks(bm[i := With(bm[i], bitmap1[i])], q) <==>
          Marks(bm, q) || (Entry(q) == i && Marks(bitmap1[..], q)) {
        MergedWord(bm, bitmap1[..], i, q);
      }
      bitmap0[i] := With(bitmap0[i], bitmap1[i]);
      assert bitmap0[..] == bm[i := With(bm[i], bitmap1[i])];
      i := i + 1;
    }
    assert forall q: nat :: q in Pages(bitmap1[..]) ==> Entry(q) < ENTRIES;
  }

  lemma EntryBound()
    ensures forall q: nat :: q < 32 * ENTRIES ==> Entry(q) < ENTRIES
  {
  }

  // ----- one page at a time

  lemma SpoilNone(low: set<nat>, high: set<nat>)
    ensures LowAfter(low, high, {}) == low && NewlyInvalid(low, high, {}) == 0
  {
    assert low - ({} * high) + ({} - high) == low;
  }

  lemma SpoilNext(low: set<nat>, high: set<nat>, first: nat, n: nat)
    ensures var r, r', q := PageRange(first, n), PageRange(first, n + 1), first + n;
            var l, l', c, c' := LowAfter(low, high, r), LowAfter(low, high, r'), NewlyInvalid(low, high, r),
                NewlyInvalid(low, high, r');
            && (q in l <==> q in low)
            && (q !in low && q !in high ==> l' == l + {q} && c' == c + 1)
            && (q in low && q in high ==> l' == l - {q} && c' == c)
            && ((q in low) != (q in high) ==> l' == l && c' == c)
  {
    hide PageRange, LowAfter, NewlyInvalid;
    RangeGrows(first, n);
    LowNext(low, high, PageRange(first, n), first + n);
    CountNext(low, high, PageRange(first, n), first + n);
  }

  lemma LowNext(low: set<nat>, high: set<nat>, r: set<nat>, q: nat)
    requires q !in r
    ensures var l, l' := LowAfter(low, high, r), LowAfter(low, high, r + {q});
            && (q in l <==> q in low)
            && (q !in low && q !in high ==> l' == l + {q})
            && (q in low && q in high ==> l' == l - {q})
            && ((q in low) != (q in high) ==> l' == l)
  {
  }

  lemma CountNext(low: set<nat>, high: set<nat>, r: set<nat>, q: nat)
    requires q !in r
    ensures NewlyInvalid(low, high, r + {q}) == NewlyInvalid(low, high, r) + if q !in low && q !in high then 1 else 0
  {
    if q !in low && q !in high {
      assert r + {q} - low - high == (r - low - high) + {q};
    } else {
      assert r + {q} - low - high == r - low - high;
    }
  }

  /** _set_bitmap4awt: 00 becomes 01, 11 becomes 10; the number of pages that were 00. */
  method SetBitmap4Awt(bitmap0: array<bv32>, bitmap1: array<bv32>, pgnum: nat, pgcnt: nat) returns (nrSet: nat)
    requires bitmap0.Length == bitmap1.Length == ENTRIES && bitmap0 != bitmap1 && pgnum + pgcnt <= PAGEPERFRAG
    modifies bitmap0
    ensures var r, low, high := PageRange(pgnum, pgcnt), old(Pages(bitmap0[..])), Pages(bitmap1[..]);
            Pages(bitmap0[..]) == LowAfter(low, high, r) && nrSet == NewlyInvalid(low, high, r)
  {
    hide Pages, PageRange, LowAfter, NewlyInvalid;
    ghost var low, high := Pages(bitmap0[..]), Pages(bitmap1[..]);
    nrSet := 0;
    RangeGrows(pgnum, 0);
    SpoilNone(low, high);
    var n := 0;
    while n < pgcnt
      invariant n <= pgcnt
      invariant var r := PageRange(pgnum, n);
                Pages(bitmap0[..]) == LowAfter(low, high, r) && nrSet == NewlyInvalid(low, high, r)
    {
      SpoilNext(low, high, pgnum, n);
      var b0 := GetBit(bitmap0, pgnum + n);
      var b1 := GetBit(bitmap1, pgnum + n);
      if !b0 && !b1 {
        SetBit(bitmap0, pgnum + n);
        nrSet := nrSet + 1;
      } else if b0 && b1 {
        ResetBit(bitmap0, pgnum + n);
      }
      n := n + 1;
    }
  }

  // ----- the fragment and the pool of pending bitmaps

  /** Following the links from `head` visits exactly `free`. */
  ghost predicate Strung(next: map<array<bv32>, array?<bv32>>, head: array?<bv32>, free: seq<array<bv32>>)
    decreases |free|
  {
    if free == [] then head == null
    else head == free[0] && free[0] in next && Strung(next, next[free[0]], free[1..])
  }

  lemma {:induction false} StrungSame(next: map<array<bv32>, array?<bv32>>, abt: array<bv32>, link: array?<bv32>,
                                      head: array?<bv32>, free: seq<array<bv32>>)
    requires Strung(next, head, free) && abt !in free
    ensures Strung(next[abt := link], head, free)
    decreases |free|
  {
    if free != [] {
      assert free[0] in free;
      StrungSame(next, abt, link, next[free[0]], free[1..]);
    }
  }

  /** The pending bitmaps that are not in use, linked from the head of the list. The link of a listed bitmap lies over
      its first two words. */
  class Pool {
    var head: array?<bv32>
    var next: map<array<bv32>, array?<bv32>>
    ghost var free: seq<array<bv32>>

    ghost predicate Valid()
      reads this
    {
      && Strung(next, head, free)
      && (forall i :: 0 <= i < |free| ==> free[i].Length == ENTRIES)
      && (forall i, j :: 0 <= i < j < |free| ==> free[i] != free[j])
    }

    ghost function Head(): set<array<bv32>>
      reads this
    {
      if free == [] then {} else {free[0]}
    }

    constructor ()
      ensures Valid() && free == []
    {
      head, next, free := null, map[], [];
    }

    /** _awtbt_put: the bitmap becomes the head, and its first words hold a link now. */
    method Put(abt: array<bv32>)
      requires Valid() && abt.Length == ENTRIES && abt !in free
      modifies this, abt
      ensures Valid() && head == abt && free == [abt] + old(free)
    {
      StrungSame(next, abt, head, head, free);
      abt[0] := *;
      abt[1] := *;
      next := next[abt := head];
      head := abt;
      free := [abt] + free;
      assert free[1..] == old(free);
    }

    /** _awtbt_get: the bitmap comes back all zero. */
    method Get() returns (abt: array?<bv32>)
      requires Valid()
      modifies this, Head()
      ensures Valid() && abt == old(head)
      ensures old(free) == [] ==> abt == null && free == []
      ensures old(free) != [] ==>
        old(free) == [abt] + free && abt !in free && abt != null && abt.Length == ENTRIES && Pages(abt[..]) == {}
    {
      hide Pages;
      abt := head;
      if abt == null {
        return;
      }
      head := next[abt];
      free := free[1..];
      var i := 0;
      while i < ENTRIES
        invariant i <= ENTRIES && forall j :: 0 <= j < i ==> abt[j] == 0
        modifies abt
      {
        abt[i] := 0;
        i := i + 1;
      }
      ZeroPages(abt[..]);
    }
  }

  /** 00 and 01 become 11, 11 becomes 10. */
  function StartOne(a: Pages2, q: nat): Pages2 {
    if q in a.high then (if q in a.low then a.(low := a.low - {q}) else a)
    else a.(low := a.low + {q}, high := a.high + {q}, nrValid := if q in a.low then a.nrValid else a.nrValid - 1)
  }

  predicate AllPending(a: Pages2, first: nat, n: nat) { PageRange(first, n) <= a.high }

  class Fragment {
    const bitmap: array<bv32>
    var pendingAwt: array?<bv32>
    var nrValid: int
    var nrAwt: nat
    var nrService: nat
    var nrLunService: nat // of the fragment's LUN

    ghost predicate Valid()
      reads this
    {
      && bitmap.Length == ENTRIES
      && (pendingAwt != null ==> pendingAwt.Length == ENTRIES && pendingAwt != bitmap)
    }

    ghost function View(): Pages2
      reads this, bitmap, pendingAwt
    {
      Pages2(Pages(bitmap[..]), pendingAwt != null, if pendingAwt == null then {} else Pages(pendingAwt[..]),
             nrValid, nrAwt, nrService, nrLunService)
    }

    /** No bitmap is in the pool and in use. */
    ghost predicate Apart(pool: Pool)
      reads this, pool
    {
      bitmap !in pool.free && (pendingAwt == null || pendingAwt !in pool.free)
    }

    /** _frag_invalidate */
    method Invalidate(pgnum: nat, pgcnt: nat) returns (nrInvalidated: nat)
      requires Valid() && GoodRange(pgnum, pgcnt)
      requires |PageRange(pgnum, pgcnt) - View().low - View().high| <= nrValid
      modifies this`nrValid, bitmap
      ensures Valid() && View() == Spoil(old(View()), PageRange(pgnum, pgcnt))
      ensures nrInvalidated == |PageRange(pgnum, pgcnt) - old(View().low) - old(View().high)|
    {
      hide Pages, PageRange;
      ghost var a, r := View(), PageRange(pgnum, pgcnt);
      if pendingAwt == null {
        assert a.low + r == a.low - (r * {}) + (r - {});
        assert r - a.low == r - a.low - {};
        nrInvalidated := SetBitmap(bitmap, pgnum, pgcnt);
      } else {
        nrInvalidated := SetBitmap4Awt(bitmap, pendingAwt, pgnum, pgcnt);
      }
      assert nrInvalidated <= nrValid;
      nrValid := nrValid - nrInvalidated;
    }

    /** _frag_isvalid: both bitmaps are clear in the range. */
    method IsValid(pgnum: nat, pgcnt: nat) returns (ok: bool)
      requires Valid() && GoodRange(pgnum, pgcnt)
      ensures ok <==> forall q :: q in PageRange(pgnum, pgcnt) ==> ValidPage(View(), q)
    {
      hide Pages, PageRange;
      ok := CheckBitmap(bitmap, pgnum, pgcnt);
      if ok && pendingAwt != null {
        ok := CheckBitmap(pendingAwt, pgnum, pgcnt);
      }
    }

    /** The switch of _frag_writestart on one page: whether the page was not pending. */
    method StartPage(pgnum: nat) returns (counted: bool)
      requires Valid() && pendingAwt != null && pgnum < PAGEPERFRAG
      modifies this`nrValid, bitmap, pendingAwt
      ensures counted <==> pgnum !in old(View().high)
      ensures View() == StartOne(old(View()), pgnum)
    {
      hide Pages;
      var b0 := GetBit(bitmap, pgnum);
      var b1 := GetBit(pendingAwt, pgnum);
      if !b0 && !b1 {
        SetBit(bitmap, pgnum);
        SetBit(pendingAwt, pgnum);
        nrValid := nrValid - 1;
      } else if b0 && !b1 {
        assert View().low + {pgnum} == View().low;
        SetBit(pendingAwt, pgnum);
      } else if b0 && b1 {
        ResetBit(bitmap, pgnum);
      }
      counted := !b1;
    }

    /** _frag_writestart: succeeds iff some page was not pending. */
    method WriteStart(pgnum: nat, pgcnt: nat) returns (ok: bool)
      requires Valid() && GoodRange(pgnum, pgcnt)
      requires |PageRange(pgnum, pgcnt) - View().low - View().high| <= nrValid
      modifies this`nrValid, bitmap, pendingAwt
      ensures Valid()
      ensures var a, r := old(View()), PageRange(pgnum, pgcnt);
              && (ok <==> a.pending && !AllPending(a, pgnum, pgcnt))
              && View() == if a.pending then StartPages(a, r) else Spoil(a, r)
    {
      hide Pages, PageRange, StartPages, StartOne, Spoil, AllPending;
      if pendingAwt == null {
        var _ := Invalidate(pgnum, pgcnt);
        return false;
      }
      ghost var a := View();
      RangeGrows(pgnum, 0);
      StartNone(a);
      NonePending(a, pgnum);
      var validWrite, n := 0, 0;
      while n < pgcnt
        invariant n <= pgcnt
        invariant View() == StartPages(a, PageRange(pgnum, n))
        invariant validWrite > 0 <==> !AllPending(a, pgnum, n)
        modifies this`nrValid, bitmap, pendingAwt
      {
        StartNext(a, pgnum, n);
        var counted := StartPage(pgnum + n);
        validWrite := if counted then validWrite + 1 else validWrite;
        n := n + 1;
      }
      ok := validWrite > 0;
    }

    /** _frag_writeend on pages that are pending. */
    method WriteEnd(pgnum: nat, pgcnt: nat, failed: bool)
      requires Valid() && GoodRange(pgnum, pgcnt)
      requires pendingAwt != null && PageRange(pgnum, pgcnt) <= View().high
      modifies this`nrValid, bitmap, pendingAwt
      ensures Valid() && View() == EndPages(old(View()), PageRange(pgnum, pgcnt), failed)
    {
      hide Pages, PageRange, EndPages;
      ghost var a := View();
      RangeGrows(pgnum, 0);
      EndNone(a, failed);
      var n := 0;
      while n < pgcnt
        invariant n <= pgcnt
        invariant View() == EndPages(a, PageRange(pgnum, n), failed)
        modifies this`nrValid, bitmap, pendingAwt
      {
        EndNext(a, pgnum, n, failed);
        PageIn(pgnum, pgcnt, n);
        var b1 := GetBit(pendingAwt, pgnum + n);
        assert b1;
        var b0 := GetBit(bitmap, pgnum + n);
        if b0 {
          if !failed {
            ResetBit(bitmap, pgnum + n);
            ResetBit(pendingAwt, pgnum + n);
            nrValid := nrValid + 1;
          } else {
            ResetBit(pendingAwt, pgnum + n);
          }
        }
        n := n + 1;
      }
    }

    /** _frag_mergebitmap, with the pending bitmap given back to the pool. */
    method MergeBitmap(pool: Pool)
      requires Valid() && pendingAwt != null && pool.Valid() && Apart(pool)
      modifies this`pendingAwt, bitmap, pendingAwt, pool
      ensures Valid() && View() == Merge(old(View())) && pool.Valid() && Apart(pool)
      ensures pool.free == [old(pendingAwt)] + old(pool.free)
    {
      hide Pages;
      MergeInto(bitmap, pendingAwt);
      pool.Put(pendingAwt);
      pendingAwt := null;
    }

    /** sce_get4write on a mapped fragment. */
    method BeginWrite(pool: Pool, pgnum: nat, pgcnt: nat, aligned: bool) returns (ok: bool)
      requires Valid() && pool.Valid() && Apart(pool) && GoodRange(pgnum, pgcnt)
      requires |PageRange(pgnum, pgcnt) - View().low - View().high| <= nrValid
      modifies this, bitmap, pendingAwt, pool, pool.Head()
      ensures Valid() && pool.Valid() && Apart(pool)
      ensures (View(), ok) == Get4Write(old(View()), PageRange(pgnum, pgcnt), aligned, old(pool.free) != [])
    {
      hide Pages, PageRange, StartPages, Spoil, Merge;
      if !aligned {
        var _ := Invalidate(pgnum, pgcnt);
        return false;
      }
      ghost var a := View();
      if pendingAwt == null {
        pendingAwt := pool.Get();
      }
      var started := WriteStart(pgnum, pgcnt);
      if !started {
        if pendingAwt != null && nrAwt == 0 {
          MergeBitmap(pool);
        }
        return false;
      }
      nrAwt := nrAwt + 1;
      nrService := nrService + 1;
      nrLunService := nrLunService + 1;
      ok := true;
    }

    /** sce_put4write on a mapped, readable fragment; the pages are those of a write in flight. */
    method EndWrite(pool: Pool, pgnum: nat, pgcnt: nat, failed: bool) returns (ok: bool)
      requires Valid() && pool.Valid() && Apart(pool) && GoodRange(pgnum, pgcnt)
      requires pendingAwt != null && PageRange(pgnum, pgcnt) <= View().high
      modifies this, bitmap, pendingAwt, pool
      ensures Valid() && pool.Valid() && Apart(pool)
      ensures (View(), ok) == Put4Write(old(View()), PageRange(pgnum, pgcnt), failed)
    {
      hide Pages, PageRange, EndPages, Merge, Strung;
      EndFields(View(), PageRange(pgnum, pgcnt), failed);
      if nrService == 0 || nrAwt == 0 || nrLunService == 0 {
        return false;
      }
      WriteEnd(pgnum, pgcnt, failed);
      nrAwt := nrAwt - 1;
      if nrAwt == 0 {
        MergeBitmap(pool);
      }
      nrService := nrService - 1;
      nrLunService := nrLunService - 1;
      ok := true;
    }
  }

  lemma StartNone(a: Pages2)
    ensures StartPages(a, {}) == a
  {
    assert {} - a.low - a.high == {};
  }

  lemma NonePending(a: Pages2, first: nat)
    ensures AllPending(a, first, 0)
  {
  }

  lemma EndNone(a: Pages2, failed: bool)
    ensures EndPages(a, {}, failed) == a
  {
    assert {} * a.low * a.high == {};
  }

  lemma PageIn(first: nat, count: nat, n: nat)
    requires n < count
    ensures first + n in PageRange(first, count)
  {
  }

  /** The four cases of the page loop of _frag_writestart. */
  lemma StartNext(a: Pages2, first: nat, n: nat)
    ensures var r, r', q := PageRange(first, n), PageRange(first, n + 1), first + n;
            var b, b' := StartPages(a, r), StartPages(a, r');
            && (q in b.high <==> q in a.high)
            && (AllPending(a, first, n + 1) <==> AllPending(a, first, n) && q in a.high)
            && b' == StartOne(b, q)
  {
    hide PageRange, StartPages, StartOne;
    RangeGrows(first, n);
    StartGrows(a, PageRange(first, n), first + n);
  }

  lemma StartGrows(a: Pages2, r: set<nat>, q: nat)
    requires q !in r
    ensures StartPages(a, r + {q}) == StartOne(StartPages(a, r), q)
    ensures q in StartPages(a, r).high <==> q in a.high
  {
    hide LowAfter, NewlyInvalid, StartPages;
    LowNext(a.low, a.high, r, q);
    CountNext(a.low, a.high, r, q);
    HighNext(a.high, r, q);
    StartIs(a, r);
    StartIs(a, r + {q});
    SetAdd(StartPages(a, r).low, q);
  }

  lemma StartIs(a: Pages2, r: set<nat>)
    ensures StartPages(a, r) == a.(low := LowAfter(a.low, a.high, r), high := a.high + r,
        nrValid := a.nrValid - NewlyInvalid(a.low, a.high, r))
  {
  }

  lemma SetAdd(s: set<nat>, q: nat)
    ensures q in s ==> s + {q} == s
  {
  }

  lemma HighNext(high: set<nat>, r: set<nat>, q: nat)
    ensures high + (r + {q}) == if q in high then high + r else high + r + {q}
  {
  }

  lemma EndFields(a: Pages2, pages: set<nat>, failed: bool)
    ensures var b := EndPages(a, pages, failed);
            b.pending == a.pending && b.nrAwt == a.nrAwt && b.nrService == a.nrService &&
                b.nrLunService == a.nrLunService
    ensures forall b: Pages2 ::
        Merge(b).nrAwt == b.nrAwt && Merge(b).nrService == b.nrService && Merge(b).nrLunService == b.nrLunService
  {
  }

  lemma EndNext(a: Pages2, first: nat, n: nat, failed: bool)
    ensures var r, r', q := PageRange(first, n), PageRange(first, n + 1), first + n;
            var b, b' := EndPages(a, r, failed), EndPages(a, r', failed);
            && (q in b.low <==> q in a.low) && (q in b.high <==> q in a.high)
            && b' == if q !in a.low || q !in a.high then b
                     else if failed then b.(high := b.high - {q})
                     else b.(low := b.low - {q}, high := b.high - {q}, nrValid := b.nrValid + 1)
  {
    hide PageRange;
    RangeGrows(first, n);
    var r, r', q := PageRange(first, n), PageRange(first, n + 1), first + n;
    if q in a.low && q in a.high {
      assert r' * a.low * a.high == r * a.low * a.high + {q};
    } else {
      assert r' * a.low * a.high == r * a.low * a.high;
    }
  }
}
