// Asynchronous write-through on one readable fragment: the two-bit state of each page under overlapping writes.

module Awt {
  import opened SceState
  import opened Invariants
  import Preservation

  // ----- the fragment

  /** `low` and `high` are the two bitmaps; without a pending bitmap only `low` counts. A page is valid (00), invalid
      (01), pending (11) or pending and spoiled (10), high bit first. The last field is the service count of the
      fragment's LUN. */
  datatype Pages2 = Pages2(low: set<nat>, pending: bool, high: set<nat>, nrValid: int, nrAwt: nat, nrService: nat,
                            nrLunService: nat)

  predicate ValidPage(a: Pages2, q: nat) { q !in a.low && q !in a.high }

  predicate PendingPage(a: Pages2, q: nat) { q in a.low && q in a.high }

  /** The low bitmap after the pages are spoiled, and how many of them were valid. */
  function LowAfter(low: set<nat>, high: set<nat>, pages: set<nat>): set<nat> {
    low - (pages * high) + (pages - high)
  }

  function NewlyInvalid(low: set<nat>, high: set<nat>, pages: set<nat>): nat { |pages - low - high| }

  /** _frag_invalidate, with _set_bitmap4awt when a pending bitmap is there. */
  function Spoil(a: Pages2, pages: set<nat>): Pages2 {
    a.(low := LowAfter(a.low, a.high, pages), nrValid := a.nrValid - NewlyInvalid(a.low, a.high, pages))
  }

  /** The page loop of _frag_writestart: 00 and 01 become 11, 11 becomes 10. */
  function StartPages(a: Pages2, pages: set<nat>): Pages2 {
    a.(low := LowAfter(a.low, a.high, pages), high := a.high + pages,
        nrValid := a.nrValid - NewlyInvalid(a.low, a.high, pages))
  }

  /** _frag_mergebitmap, and the pending bitmap given back. */
  function Merge(a: Pages2): Pages2 {
    a.(low := a.low + a.high, pending := false, high := {})
  }

  /** The page loop of _frag_writeend: 11 becomes 00 after a successful write and 01 after a failed one. */
  function EndPages(a: Pages2, pages: set<nat>, failed: bool): Pages2 {
    var mine := pages * a.low * a.high;
    a.(low := if failed then a.low else a.low - mine, high := a.high - mine,
       nrValid := if failed then a.nrValid else a.nrValid + |mine|)
  }

  /** sce_get4write on the fragment, with or without a bitmap left in the pool. */
  function Get4Write(a: Pages2, pages: set<nat>, aligned: bool, pool: bool): (Pages2, bool) {
    if !aligned then (Spoil(a, pages), false) else
      var a1 := if !a.pending && pool then a.(pending := true, high := {}) else a;
      if !a1.pending then (Spoil(a1, pages), false) else
        var a2 := StartPages(a1, pages);
        if pages <= a1.high then (if a2.nrAwt == 0 then Merge(a2) else a2, false)
        else (a2.(nrAwt := a2.nrAwt + 1, nrService := a2.nrService + 1, nrLunService := a2.nrLunService + 1), true)
  }

  /** sce_put4write on the fragment. */
  function Put4Write(a: Pages2, pages: set<nat>, failed: bool): (Pages2, bool) {
    if a.nrService == 0 || a.nrAwt == 0 || a.nrLunService == 0 then (a, false) else
      var a1 := EndPages(a, pages, failed).(nrAwt := a.nrAwt - 1);
      var a2 := if a1.nrAwt == 0 then Merge(a1) else a1;
      (a2.(nrService := a.nrService - 1, nrLunService := a.nrLunService - 1), true)
  }

  // ----- the system around it

  /** A write on its way to both devices, born with event number `born`. The pages in `onHdd` and `onSsd` have landed;
      those in `clean` were not pending when it started. */
  datatype Write = Write(first: nat, count: nat, data: nat -> int, born: nat, clean: set<nat>, onHdd: set<nat>,
      onSsd: set<nat>)

  function Range(w: Write): set<nat> { PageRange(w.first, w.count) }

  /** `readers` reads hold the fragment, `others` services are on other fragments of its LUN; `touched` remembers the
      last start or invalidation of each page. */
  datatype Sys = Sys(frag: Pages2, mapped: bool, hdd: nat -> int, ssd: nat -> int, writes: map<nat, Write>,
      readers: nat,
                     others: nat, now: nat, touched: nat -> nat)

  datatype Event =
    | EvBegin(id: nat, first: nat, count: nat, aligned: bool, pool: bool, data: nat -> int)
    | EvLand(id: nat, page: nat, toSsd: bool)
    | EvEnd(id: nat, failed: bool)
    | EvInvalidate(first: nat, count: nat, data: nat -> int)
    | EvGetRead
    | EvPutRead
    | EvGetOther
    | EvPutOther

  /** `g` is `f` with the pages replaced by `data`. */
  ghost predicate Wrote(f: nat -> int, g: nat -> int, pages: set<nat>, data: nat -> int) {
    forall q: nat :: g(q) == if q in pages then data(q) else f(q)
  }

  ghost predicate SameOff(f: nat -> int, g: nat -> int, pages: set<nat>) {
    forall q: nat :: q !in pages ==> g(q) == f(q)
  }

  /** The pages get this event's number. */
  ghost predicate Touched(s: Sys, t: Sys, pages: set<nat>) {
    forall q: nat :: t.touched(q) == if q in pages then s.now else s.touched(q)
  }

  predicate GoodRange(first: nat, count: nat) { count > 0 && first + count <= PAGEPERFRAG }

  /** _lun_gc would unmap the fragment. */
  predicate Collected(a: Pages2) { a.nrService == 0 && a.nrValid == 0 }

  /** sce_get4write; a refused write goes to the disk alone, in the same step. */
  ghost predicate Begin(s: Sys, t: Sys, id: nat, first: nat, count: nat, aligned: bool, pool: bool, data: nat -> int) {
    var pages := PageRange(first, count);
    var (a, ok) := Get4Write(s.frag, pages, aligned, pool);
    && id !in s.writes && GoodRange(first, count)
    && t == s.(frag := a, now := s.now + 1, touched := t.touched, hdd := t.hdd,
               writes := if ok then s.writes[id := Write(first, count, data, s.now, pages - s.frag.high, {}, {})]
                   else s.writes)
    && Touched(s, t, pages)
    && if ok then t.hdd == s.hdd else Wrote(s.hdd, t.hdd, pages, data)
  }

  /** One page of a write reaches one of the devices. */
  ghost predicate Land(s: Sys, t: Sys, id: nat, page: nat, toSsd: bool) {
    && id in s.writes && page in Range(s.writes[id])
    && var w := s.writes[id];
       if toSsd then
         && t == s.(now := s.now + 1, ssd := t.ssd, writes := s.writes[id := w.(onSsd := w.onSsd + {page})])
         && Wrote(s.ssd, t.ssd, {page}, w.data)
       else
         && t == s.(now := s.now + 1, hdd := t.hdd, writes := s.writes[id := w.(onHdd := w.onHdd + {page})])
         && Wrote(s.hdd, t.hdd, {page}, w.data)
  }

  /** sce_put4write. A failed write may have left anything in its pages. */
  ghost predicate End(s: Sys, t: Sys, id: nat, failed: bool) {
    && id in s.writes
    && var w := s.writes[id];
       var a := Put4Write(s.frag, Range(w), failed).0;
       && t == s.(now := s.now + 1, frag := a, mapped := !Collected(a), hdd := t.hdd, ssd := t.ssd,
           writes := s.writes - {id})
       && if failed then SameOff(s.hdd, t.hdd, Range(w)) && SameOff(s.ssd, t.ssd, Range(w))
          else Range(w) <= w.onHdd && Range(w) <= w.onSsd && t.hdd == s.hdd && t.ssd == s.ssd
  }

  /** sce_invalidate and the disk write it is for. */
  ghost predicate Overwrite(s: Sys, t: Sys, first: nat, count: nat, data: nat -> int) {
    var pages := PageRange(first, count);
    var a := Spoil(s.frag, pages);
    && GoodRange(first, count)
    && t == s.(now := s.now + 1, frag := a, mapped := !Collected(a), touched := t.touched, hdd := t.hdd)
    && Touched(s, t, pages) && Wrote(s.hdd, t.hdd, pages, data)
  }

  /** One step, while the fragment is mapped. */
  ghost predicate Next(s: Sys, e: Event, t: Sys) {
    && s.mapped
    && match e
       case EvBegin(id, first, count, aligned, pool, data) => Begin(s, t, id, first, count, aligned, pool, data)
       case EvLand(id, page, toSsd) => Land(s, t, id, page, toSsd)
       case EvEnd(id, failed) => End(s, t, id, failed)
       case EvInvalidate(first, count, data) => Overwrite(s, t, first, count, data)
       case EvGetRead =>
         t == s.(now := s.now + 1, readers := s.readers + 1,
                 frag := s.frag.(nrService := s.frag.nrService + 1, nrLunService := s.frag.nrLunService + 1))
       case EvPutRead =>
         && s.readers > 0 && s.frag.nrService > 0 && s.frag.nrLunService > 0
         && var a := s.frag.(nrService := s.frag.nrService - 1, nrLunService := s.frag.nrLunService - 1);
            t == s.(now := s.now + 1, readers := s.readers - 1, frag := a, mapped := !Collected(a))
       case EvGetOther => t == s.(now := s.now + 1, others := s.others + 1,
           frag := s.frag.(nrLunService := s.frag.nrLunService + 1))
       case EvPutOther =>
         && s.others > 0 && s.frag.nrLunService > 0
         && t == s.(now := s.now + 1, others := s.others - 1, frag := s.frag.(nrLunService := s.frag.nrLunService - 1))
  }

  /** A readable fragment with no write on it, its valid pages equal to the disk. */
  ghost predicate Init(s: Sys) {
    && s.mapped && s.writes == map[] && s.readers == s.now == 0
    && !s.frag.pending && s.frag.high == {} && s.frag.nrAwt == s.frag.nrService == 0 && s.frag.nrLunService == s.others
    && (forall q :: q in s.frag.low ==> q < PAGEPERFRAG) && s.frag.nrValid == PAGEPERFRAG - |s.frag.low|
    && Faithful(s)
  }

  // ----- invariant

  predicate Covers(s: Sys, id: nat, q: nat) { id in s.writes && q in Range(s.writes[id]) }

  /** The page was not pending when write `id` started and neither a start nor an invalidation touched it since. */
  predicate Untouched(s: Sys, id: nat, q: nat) {
    id in s.writes && q in s.writes[id].clean && s.touched(q) == s.writes[id].born
  }

  ghost predicate Bookkeeping(s: Sys) {
    var a := s.frag;
    && (a.pending <==> a.nrAwt > 0) && (!a.pending ==> a.high == {})
    && a.nrAwt == |s.writes| && a.nrService == a.nrAwt + s.readers && a.nrLunService == a.nrService + s.others
    && (forall q :: q in a.low || q in a.high ==> q < PAGEPERFRAG)
    && a.nrValid == PAGEPERFRAG - |a.low + a.high|
    && (!s.mapped ==> a.nrService == 0 && a.nrValid == 0)
  }

  /** Writes are born one at a time, and a clean page of a write is covered by later writes only. */
  ghost predicate Order(s: Sys) {
    && (forall id :: id in s.writes ==>
          && GoodRange(s.writes[id].first, s.writes[id].count) && s.writes[id].clean <= Range(s.writes[id]) &&
              s.writes[id].born < s.now)
    && (forall id, q :: Covers(s, id, q) ==> s.writes[id].born <= s.touched(q))
    && (forall id, j, q :: Covers(s, j, q) && id in s.writes && q in s.writes[id].clean && j != id ==>
          s.writes[id].born < s.writes[j].born)
  }

  /** What has landed of an untouched page is the data of its write. */
  ghost predicate Landed(s: Sys) {
    && (forall id, q :: Untouched(s, id, q) && q in s.writes[id].onHdd ==> s.hdd(q) == s.writes[id].data(q))
    && (forall id, q :: Untouched(s, id, q) && q in s.writes[id].onSsd ==> s.ssd(q) == s.writes[id].data(q))
  }

  /** A page of a write in flight keeps its pending bit; it is pending unspoiled exactly if it is untouched. */
  ghost predicate Pending(s: Sys) {
    && (forall id, q :: Covers(s, id, q) ==> q in s.frag.high)
    && (forall id, q :: Untouched(s, id, q) ==> PendingPage(s.frag, q))
    && (forall q :: PendingPage(s.frag, q) ==> exists id :: Untouched(s, id, q))
  }

  /** A valid page holds what the disk holds. */
  ghost predicate Faithful(s: Sys) {
    forall q: nat :: q < PAGEPERFRAG && ValidPage(s.frag, q) ==> s.ssd(q) == s.hdd(q)
  }

  ghost predicate Inv(s: Sys) {
    Bookkeeping(s) && Order(s) && Landed(s) && Pending(s) && Faithful(s)
  }

  lemma InitInv(s: Sys)
    requires Init(s)
    ensures Inv(s) && s.now == 0
  {
    assert s.frag.low + s.frag.high == s.frag.low;
  }

  // ----- counting

  lemma Grows(a: set<nat>, pages: set<nat>)
    ensures |a + pages| == |a| + |pages - a|
  {
    assert a + pages == a + (pages - a);
  }

  lemma Shrinks(a: set<nat>, pages: set<nat>)
    requires pages <= a
    ensures |a - pages| == |a| - |pages|
  {
    assert a == a - pages + pages;
  }

  // ----- what the calls do to the pages

  lemma SpoilCounts(a: Pages2, pages: set<nat>)
    ensures var b := Spoil(a, pages);
            b.low + b.high == a.low + a.high + pages && a.nrValid - b.nrValid == |b.low + b.high| - |a.low + a.high|
  {
    var b := Spoil(a, pages);
    assert b.low + b.high == a.low + a.high + pages;
    Grows(a.low + a.high, pages);
    assert pages - (a.low + a.high) == pages - a.low - a.high;
  }

  lemma StartCounts(a: Pages2, pages: set<nat>)
    ensures var b := StartPages(a, pages);
            b.low + b.high == a.low + a.high + pages && a.nrValid - b.nrValid == |b.low + b.high| - |a.low + a.high|
  {
    var b := StartPages(a, pages);
    assert b.low + b.high == a.low + a.high + pages;
    Grows(a.low + a.high, pages);
    assert pages - (a.low + a.high) == pages - a.low - a.high;
  }

  lemma EndCounts(a: Pages2, pages: set<nat>, failed: bool)
    ensures var b := EndPages(a, pages, failed);
            b.low + b.high <= a.low + a.high && b.nrValid - a.nrValid == |a.low + a.high| - |b.low + b.high|
  {
    var b, mine := EndPages(a, pages, failed), pages * a.low * a.high;
    if failed {
      assert b.low + b.high == a.low + a.high;
    } else {
      assert b.low + b.high == a.low + a.high - mine;
      Shrinks(a.low + a.high, mine);
    }
  }

  /** sce_get4write takes a write exactly if it is aligned, has a pending bitmap and some page is not pending yet;
      otherwise it does what sce_invalidate does. It never merges the bitmaps. */
  lemma AcceptedIff(a: Pages2, first: nat, count: nat, aligned: bool, pool: bool)
    requires GoodRange(first, count) && (a.pending <==> a.nrAwt > 0) && (!a.pending ==> a.high == {})
    ensures var pages := PageRange(first, count);
            var (b, ok) := Get4Write(a, pages, aligned, pool);
            && (ok <==> aligned && (a.pending || pool) && !(pages <= a.high))
            && b == if ok then StartPages(a, pages).(pending := true, nrAwt := a.nrAwt + 1,
                nrService := a.nrService + 1,
                                                           nrLunService := a.nrLunService + 1)
                    else Spoil(a, pages)
  {
    var pages := PageRange(first, count);
    assert first in pages;
    if pages <= a.high {
      assert a.high + pages == a.high;
    }
  }

  /** Spoiling, page by page: pending pages lose their low bit, the others get it. */
  lemma SpoilAt(a: Pages2, pages: set<nat>, q: nat)
    ensures q in Spoil(a, pages).high <==> q in a.high
    ensures q in Spoil(a, pages).low <==> if q in pages then q !in a.high else q in a.low
  {
  }

  lemma StartAt(a: Pages2, pages: set<nat>, q: nat)
    ensures q in StartPages(a, pages).high <==> q in a.high || q in pages
    ensures q in StartPages(a, pages).low <==> if q in pages then q !in a.high else q in a.low
  {
  }

  // ----- an invalidation, or a refused write

  lemma SpoilUntouched(s: Sys, t: Sys, pages: set<nat>, id: nat, q: nat)
    requires Order(s) && t.writes == s.writes && Touched(s, t, pages)
    ensures Untouched(t, id, q) <==> Untouched(s, id, q) && q !in pages
  {
  }

  lemma SpoilBookkeeping(s: Sys, t: Sys, pages: set<nat>)
    requires Bookkeeping(s) && (forall q :: q in pages ==> q < PAGEPERFRAG)
    requires t.frag == Spoil(s.frag, pages) && t.writes == s.writes && t.readers == s.readers && t.others == s.others
    requires !t.mapped ==> t.frag.nrService == 0 && t.frag.nrValid == 0
    ensures Bookkeeping(t)
  {
    SpoilCounts(s.frag, pages);
  }

  lemma SpoilOrder(s: Sys, t: Sys, pages: set<nat>)
    requires Order(s) && t.writes == s.writes && t.now == s.now + 1 && Touched(s, t, pages)
    ensures Order(t)
  {
    hide Range;
    forall id, q | Covers(t, id, q) ensures t.writes[id].born <= t.touched(q) {
      assert Covers(s, id, q);
    }
    forall id, j, q | Covers(t, j, q) && id in t.writes && q in t.writes[id].clean && j != id
      ensures t.writes[id].born < t.writes[j].born
    {
      assert Covers(s, j, q);
    }
  }

  lemma SpoilLanded(s: Sys, t: Sys, pages: set<nat>, data: nat -> int)
    requires Order(s) && Landed(s) && t.writes == s.writes && t.ssd == s.ssd
    requires Touched(s, t, pages) && Wrote(s.hdd, t.hdd, pages, data)
    ensures Landed(t)
  {
    hide Order, Untouched, Touched;
    forall id, q | Untouched(t, id, q)
      ensures Untouched(s, id, q) && q !in pages
    {
      SpoilUntouched(s, t, pages, id, q);
    }
  }

  lemma SpoilPending(s: Sys, t: Sys, pages: set<nat>)
    requires Order(s) && Pending(s) && t.writes == s.writes
    requires Touched(s, t, pages) && t.frag == Spoil(s.frag, pages)
    ensures Pending(t)
  {
    hide Order, Untouched, Touched, Spoil, Range;
    forall id, q | Covers(t, id, q) ensures q in t.frag.high {
      SpoilAt(s.frag, pages, q);
      assert Covers(s, id, q);
    }
    forall id, q | Untouched(t, id, q) ensures PendingPage(t.frag, q) {
      SpoilAt(s.frag, pages, q);
      SpoilUntouched(s, t, pages, id, q);
    }
    forall q | PendingPage(t.frag, q) ensures exists id :: Untouched(t, id, q) {
      SpoilAt(s.frag, pages, q);
      assert PendingPage(s.frag, q);
      var id :| Untouched(s, id, q);
      SpoilUntouched(s, t, pages, id, q);
    }
  }

  lemma SpoilFaithful(s: Sys, t: Sys, pages: set<nat>, data: nat -> int)
    requires Faithful(s) && t.frag == Spoil(s.frag, pages) && t.ssd == s.ssd && Wrote(s.hdd, t.hdd, pages, data)
    ensures Faithful(t)
  {
    hide Spoil;
    forall q: nat | q < PAGEPERFRAG && ValidPage(t.frag, q) ensures t.ssd(q) == t.hdd(q) {
      SpoilAt(s.frag, pages, q);
    }
  }

  lemma SpoilKeeps(s: Sys, t: Sys, pages: set<nat>, data: nat -> int)
    requires Inv(s) && (forall q :: q in pages ==> q < PAGEPERFRAG)
    requires t == s.(frag := Spoil(s.frag, pages), now := s.now + 1, mapped := t.mapped, touched := t.touched,
        hdd := t.hdd)
    requires Touched(s, t, pages) && Wrote(s.hdd, t.hdd, pages, data)
    requires !t.mapped ==> t.frag.nrService == 0 && t.frag.nrValid == 0
    ensures Inv(t)
  {
    hide Spoil, Touched, Wrote, Bookkeeping, Order, Landed, Pending, Faithful;
    SpoilBookkeeping(s, t, pages);
    SpoilOrder(s, t, pages);
    SpoilLanded(s, t, pages, data);
    SpoilPending(s, t, pages);
    SpoilFaithful(s, t, pages, data);
  }

  // ----- a write starts

  /** Write `id` joins the writes and its pages become pending. */
  ghost predicate Accepted(s: Sys, t: Sys, id: nat, w: Write) {
    && id !in s.writes && GoodRange(w.first, w.count)
    && w.born == s.now && w.clean == Range(w) - s.frag.high && w.onHdd == w.onSsd == {}
    && t == s.(frag := StartPages(s.frag, Range(w)).(pending := true, nrAwt := s.frag.nrAwt + 1,
        nrService := s.frag.nrService + 1,
                                                               nrLunService := s.frag.nrLunService + 1),
               now := s.now + 1, touched := t.touched, writes := s.writes[id := w])
    && Touched(s, t, Range(w))
  }

  lemma StartUntouched(s: Sys, t: Sys, id: nat, w: Write, j: nat, q: nat)
    requires Order(s) && Accepted(s, t, id, w)
    ensures Untouched(t, j, q) <==> if j == id then q in w.clean else Untouched(s, j, q) && q !in Range(w)
  {
    hide StartPages, GoodRange;
  }

  lemma StartBookkeeping(s: Sys, t: Sys, id: nat, w: Write)
    requires Bookkeeping(s) && s.mapped && Accepted(s, t, id, w)
    ensures Bookkeeping(t)
  {
    hide Touched, StartPages, Range;
    StartCounts(s.frag, Range(w));
    StartKeeps(s.frag, Range(w));
    RangeInside(w);
    forall q | q in t.frag.low || q in t.frag.high ensures q < PAGEPERFRAG {
      StartAt(s.frag, Range(w), q);
    }
    assert |t.writes| == |s.writes| + 1;
  }

  lemma StartKeeps(a: Pages2, pages: set<nat>)
    ensures var b := StartPages(a, pages); b.nrAwt == a.nrAwt && b.nrService == a.nrService && b.pending == a.pending
    ensures StartPages(a, pages).nrLunService == a.nrLunService
  {
  }

  lemma RangeInside(w: Write)
    requires GoodRange(w.first, w.count)
    ensures forall q :: q in Range(w) ==> q < PAGEPERFRAG
  {
  }

  lemma StartOrder(s: Sys, t: Sys, id: nat, w: Write)
    requires Order(s) && Pending(s) && Accepted(s, t, id, w)
    ensures Order(t)
  {
    hide StartPages, Range, Untouched, PendingPage;
    forall j, q | Covers(t, j, q) ensures t.writes[j].born <= t.touched(q) {
      assert j != id ==> Covers(s, j, q);
    }
    forall i, j, q | Covers(t, j, q) && i in t.writes && q in t.writes[i].clean && j != i
      ensures t.writes[i].born < t.writes[j].born
    {
      assert j != id ==> Covers(s, j, q);
    }
  }

  lemma StartLanded(s: Sys, t: Sys, id: nat, w: Write)
    requires Order(s) && Landed(s) && Accepted(s, t, id, w)
    ensures Landed(t)
  {
    hide Order, Untouched, Touched, StartPages;
    forall j, q | Untouched(t, j, q)
      ensures j == id || Untouched(s, j, q)
    {
      StartUntouched(s, t, id, w, j, q);
    }
    assert forall j, q :: Untouched(s, j, q) ==> j in s.writes by {
      forall j, q | Untouched(s, j, q) ensures j in s.writes { UntouchedIn(s, j, q); }
    }
    assert forall j, q :: Untouched(t, j, q) ==> j in t.writes by {
      forall j, q | Untouched(t, j, q) ensures j in t.writes { UntouchedIn(t, j, q); }
    }
  }

  lemma UntouchedIn(s: Sys, id: nat, q: nat)
    requires Untouched(s, id, q)
    ensures id in s.writes
  {
  }

  /** An untouched page has one writer. */
  lemma SoleWriter(s: Sys, id: nat, j: nat, q: nat)
    requires Order(s) && Untouched(s, id, q) && Covers(s, j, q)
    ensures j == id
  {
  }

  lemma StartPending(s: Sys, t: Sys, id: nat, w: Write)
    requires Order(s) && Pending(s) && Accepted(s, t, id, w)
    ensures Pending(t)
  {
    hide Order, Untouched, Touched, StartPages, Range;
    forall j, q | Covers(t, j, q) ensures q in t.frag.high {
      StartAt(s.frag, Range(w), q);
      assert j != id ==> Covers(s, j, q);
    }
    forall j, q | Untouched(t, j, q) ensures PendingPage(t.frag, q) {
      StartAt(s.frag, Range(w), q);
      StartUntouched(s, t, id, w, j, q);
    }
    forall q | PendingPage(t.frag, q) ensures exists j :: Untouched(t, j, q) {
      StartAt(s.frag, Range(w), q);
      if q in Range(w) {
        StartUntouched(s, t, id, w, id, q);
      } else {
        assert PendingPage(s.frag, q);
        var j :| Untouched(s, j, q);
        UntouchedIn(s, j, q);
        StartUntouched(s, t, id, w, j, q);
      }
    }
  }

  lemma StartFaithful(s: Sys, t: Sys, id: nat, w: Write)
    requires Faithful(s) && Accepted(s, t, id, w)
    ensures Faithful(t)
  {
    hide StartPages, Range, Touched;
    forall q: nat | q < PAGEPERFRAG && ValidPage(t.frag, q) ensures t.ssd(q) == t.hdd(q) {
      StartAt(s.frag, Range(w), q);
    }
  }

  lemma BeginKeeps(s: Sys, t: Sys, id: nat, first: nat, count: nat, aligned: bool, pool: bool, data: nat -> int)
    requires Inv(s) && s.mapped && Begin(s, t, id, first, count, aligned, pool, data)
    ensures Inv(t)
  {
    hide Get4Write, Spoil, StartPages, Touched, Wrote, Order, Landed, Pending, Faithful;
    var pages := PageRange(first, count);
    AcceptedIff(s.frag, first, count, aligned, pool);
    if Get4Write(s.frag, pages, aligned, pool).1 {
      BeginAccepted(s, t, id, Write(first, count, data, s.now, pages - s.frag.high, {}, {}));
    } else {
      SpoilService(s.frag, pages);
      SpoilKeeps(s, t, pages, data);
    }
  }

  lemma SpoilService(a: Pages2, pages: set<nat>)
    ensures Spoil(a, pages).nrService == a.nrService
  {
  }

  lemma BeginAccepted(s: Sys, t: Sys, id: nat, w: Write)
    requires Inv(s) && s.mapped && Accepted(s, t, id, w)
    ensures Inv(t)
  {
    hide Accepted, Bookkeeping, Order, Landed, Pending, Faithful;
    StartBookkeeping(s, t, id, w);
    StartOrder(s, t, id, w);
    StartLanded(s, t, id, w);
    StartPending(s, t, id, w);
    StartFaithful(s, t, id, w);
  }

  // ----- a page lands

  lemma LandUntouched(s: Sys, t: Sys, id: nat, page: nat, toSsd: bool, j: nat, q: nat)
    requires Land(s, t, id, page, toSsd)
    ensures Untouched(t, j, q) <==> Untouched(s, j, q)
    ensures Covers(t, j, q) <==> Covers(s, j, q)
  {
    hide Wrote;
  }

  lemma LandBookkeeping(s: Sys, t: Sys, id: nat, page: nat, toSsd: bool)
    requires Bookkeeping(s) && Land(s, t, id, page, toSsd)
    ensures Bookkeeping(t)
  {
    hide Wrote, Range;
    assert t.writes.Keys == s.writes.Keys;
    assert |t.writes| == |t.writes.Keys| == |s.writes.Keys|;
  }

  lemma LandOrder(s: Sys, t: Sys, id: nat, page: nat, toSsd: bool)
    requires Order(s) && Land(s, t, id, page, toSsd)
    ensures Order(t)
  {
    hide Wrote, Covers;
    forall j, q | Covers(t, j, q)
      ensures Covers(s, j, q)
    {
      LandUntouched(s, t, id, page, toSsd, j, q);
    }
  }

  lemma LandLanded(s: Sys, t: Sys, id: nat, page: nat, toSsd: bool)
    requires Order(s) && Landed(s) && Land(s, t, id, page, toSsd)
    ensures Landed(t)
  {
    hide Untouched, Order, Range;
    assert Covers(s, id, page);
    forall j, q | Untouched(t, j, q)
      ensures Untouched(s, j, q) && j in s.writes && (q == page ==> j == id)
    {
      LandUntouched(s, t, id, page, toSsd, j, q);
      UntouchedIn(s, j, q);
      if q == page {
        SoleWriter(s, j, id, q);
      }
    }
  }

  lemma LandPending(s: Sys, t: Sys, id: nat, page: nat, toSsd: bool)
    requires Pending(s) && Land(s, t, id, page, toSsd)
    ensures Pending(t)
  {
    hide Untouched, Covers, Land;
    assert t.frag == s.frag by { LandFrag(s, t, id, page, toSsd); }
    forall j, q ensures Untouched(t, j, q) <==> Untouched(s, j, q)
                ensures Covers(t, j, q) <==> Covers(s, j, q)
    {
      LandUntouched(s, t, id, page, toSsd, j, q);
    }
  }

  lemma LandFrag(s: Sys, t: Sys, id: nat, page: nat, toSsd: bool)
    requires Land(s, t, id, page, toSsd)
    ensures t.frag == s.frag
  {
    hide Wrote;
  }

  lemma LandFaithful(s: Sys, t: Sys, id: nat, page: nat, toSsd: bool)
    requires Pending(s) && Faithful(s) && Land(s, t, id, page, toSsd)
    ensures Faithful(t)
  {
    assert Covers(s, id, page);
  }

  lemma LandKeeps(s: Sys, t: Sys, id: nat, page: nat, toSsd: bool)
    requires Inv(s) && Land(s, t, id, page, toSsd)
    ensures Inv(t)
  {
    hide Land, Bookkeeping, Order, Landed, Pending, Faithful;
    LandBookkeeping(s, t, id, page, toSsd);
    LandOrder(s, t, id, page, toSsd);
    LandLanded(s, t, id, page, toSsd);
    LandPending(s, t, id, page, toSsd);
    LandFaithful(s, t, id, page, toSsd);
  }

  // ----- a write ends

  /** Ending, page by page: an unspoiled pending page of the write stops being pending. With no other write in flight
      every page does. */
  lemma EndAt(a: Pages2, pages: set<nat>, failed: bool, q: nat)
    requires a.nrAwt > 0 && a.nrService > 0 && a.nrLunService > 0
    ensures var b, last := Put4Write(a, pages, failed).0, a.nrAwt == 1;
            var mine := q in pages && PendingPage(a, q);
            && (q in b.high <==> !last && q in a.high && !mine)
            && (q in b.low <==> (q in a.low && (failed || !mine)) || (last && q in a.high && !mine))
  {
  }

  lemma EndCounters(a: Pages2, pages: set<nat>, failed: bool)
    requires a.nrAwt > 0 && a.nrService > 0 && a.nrLunService > 0
    ensures var b := Put4Write(a, pages, failed).0;
            && b.nrAwt == a.nrAwt - 1 && b.nrService == a.nrService - 1 && b.nrLunService == a.nrLunService - 1 &&
                b.pending == (a.pending && a.nrAwt > 1)
            && b.nrValid - a.nrValid == |a.low + a.high| - |b.low + b.high|
            && (!b.pending && a.pending ==> b.high == {})
  {
    EndCounts(a, pages, failed);
    var a1 := EndPages(a, pages, failed);
    assert a1.low + a1.high == a1.low + a1.high + {};
  }

  lemma EndUntouched(s: Sys, t: Sys, id: nat, failed: bool, j: nat, q: nat)
    requires End(s, t, id, failed)
    ensures Untouched(t, j, q) <==> j != id && Untouched(s, j, q)
    ensures Covers(t, j, q) <==> j != id && Covers(s, j, q)
    ensures Covers(t, j, q) ==> j in t.writes
  {
    hide Put4Write, SameOff;
  }

  /** A write in flight is counted. */
  lemma Counted(s: Sys, id: nat)
    requires Bookkeeping(s) && id in s.writes
    ensures s.frag.nrAwt > 0 && s.frag.nrService > 0 && s.frag.nrLunService > 0 && s.frag.pending
    ensures s.frag.nrAwt == 1 ==> forall j :: j in s.writes ==> j == id
  {
    assert s.writes.Keys == {id} + (s.writes.Keys - {id});
    assert |s.writes| == |s.writes.Keys| == 1 + |s.writes.Keys - {id}|;
    if j :| j in s.writes && j != id {
      assert j in s.writes.Keys - {id};
    }
  }

  lemma EndBookkeeping(s: Sys, t: Sys, id: nat, failed: bool)
    requires Bookkeeping(s) && s.mapped && End(s, t, id, failed)
    ensures Bookkeeping(t)
  {
    hide Put4Write, SameOff, Range;
    var pages := Range(s.writes[id]);
    Counted(s, id);
    EndCounters(s.frag, pages, failed);
    forall q | q in t.frag.low || q in t.frag.high ensures q < PAGEPERFRAG {
      EndAt(s.frag, pages, failed, q);
    }
    assert s.writes.Keys == t.writes.Keys + {id};
    assert |s.writes| == |s.writes.Keys| && |t.writes| == |t.writes.Keys|;
  }

  lemma EndOrder(s: Sys, t: Sys, id: nat, failed: bool)
    requires Order(s) && End(s, t, id, failed)
    ensures Order(t)
  {
    hide Put4Write, SameOff, Covers;
    forall j, q | Covers(t, j, q)
      ensures Covers(s, j, q) && j in t.writes
    {
      EndUntouched(s, t, id, failed, j, q);
    }
  }

  lemma EndLanded(s: Sys, t: Sys, id: nat, failed: bool)
    requires Order(s) && Landed(s) && End(s, t, id, failed)
    ensures Landed(t)
  {
    hide Put4Write, Untouched, Order, Range;
    forall j, q | Untouched(t, j, q)
      ensures Untouched(s, j, q) && j in s.writes && j != id && q !in Range(s.writes[id])
    {
      EndUntouched(s, t, id, failed, j, q);
      UntouchedIn(s, j, q);
      if q in Range(s.writes[id]) {
        assert Covers(s, id, q);
        SoleWriter(s, j, id, q);
      }
    }
  }

  lemma EndPending(s: Sys, t: Sys, id: nat, failed: bool)
    requires Bookkeeping(s) && Order(s) && Pending(s) && End(s, t, id, failed)
    ensures Pending(t)
  {
    hide Put4Write, Bookkeeping, Order, Untouched, Range, SameOff;
    var pages := Range(s.writes[id]);
    Counted(s, id);
    forall j, q | Covers(t, j, q) ensures q in t.frag.high {
      EndAt(s.frag, pages, failed, q);
      EndUntouched(s, t, id, failed, j, q);
      if q in pages && PendingPage(s.frag, q) {
        var i :| Untouched(s, i, q);
        SoleWriter(s, i, j, q);
        assert Covers(s, id, q);
        SoleWriter(s, i, id, q);
      }
    }
    forall j, q | Untouched(t, j, q) ensures PendingPage(t.frag, q) {
      EndAt(s.frag, pages, failed, q);
      EndUntouched(s, t, id, failed, j, q);
      UntouchedIn(s, j, q);
      if q in pages {
        assert Covers(s, id, q);
        SoleWriter(s, j, id, q);
      }
    }
    forall q | PendingPage(t.frag, q) ensures exists j :: Untouched(t, j, q) {
      EndAt(s.frag, pages, failed, q);
      assert PendingPage(s.frag, q);
      var j :| Untouched(s, j, q);
      UntouchedCovers(s, j, q);
      EndUntouched(s, t, id, failed, j, q);
    }
  }

  lemma UntouchedCovers(s: Sys, id: nat, q: nat)
    requires Order(s) && Untouched(s, id, q)
    ensures Covers(s, id, q)
  {
  }

  /** The one way a page of the write becomes valid: unspoiled, written on both devices. */
  lemma EndFaithful(s: Sys, t: Sys, id: nat, failed: bool)
    requires Bookkeeping(s) && Order(s) && Landed(s) && Pending(s) && Faithful(s) && End(s, t, id, failed)
    ensures Faithful(t)
  {
    hide Put4Write, Bookkeeping, Order, Untouched, Range;
    var pages := Range(s.writes[id]);
    Counted(s, id);
    forall q: nat | q < PAGEPERFRAG && ValidPage(t.frag, q) ensures t.ssd(q) == t.hdd(q) {
      EndAt(s.frag, pages, failed, q);
      if q in pages {
        assert Covers(s, id, q);
        assert PendingPage(s.frag, q);
        var j :| Untouched(s, j, q);
        SoleWriter(s, j, id, q);
      } else {
        assert ValidPage(s.frag, q);
      }
    }
  }

  lemma EndKeeps(s: Sys, t: Sys, id: nat, failed: bool)
    requires Inv(s) && s.mapped && End(s, t, id, failed)
    ensures Inv(t)
  {
    hide End, Bookkeeping, Order, Landed, Pending, Faithful;
    EndBookkeeping(s, t, id, failed);
    EndOrder(s, t, id, failed);
    EndLanded(s, t, id, failed);
    EndPending(s, t, id, failed);
    EndFaithful(s, t, id, failed);
  }

  // ----- runs

  lemma ReadKeeps(s: Sys, e: Event, t: Sys)
    requires Inv(s) && Next(s, e, t) && (e.EvGetRead? || e.EvPutRead? || e.EvGetOther? || e.EvPutOther?)
    ensures Inv(t)
  {
    hide Landed, Pending, Order, Faithful, Begin, Land, End, Overwrite, Bookkeeping;
    ReadBookkeeping(s, e, t);
    SameView(s, t);
  }

  lemma ReadBookkeeping(s: Sys, e: Event, t: Sys)
    requires Bookkeeping(s) && Next(s, e, t) && (e.EvGetRead? || e.EvPutRead? || e.EvGetOther? || e.EvPutOther?)
    ensures Bookkeeping(t)
  {
    hide Begin, Land, End, Overwrite, Bookkeeping;
    ServiceCounts(s);
    ServiceBookkeeping(s, t);
  }

  lemma ServiceCounts(s: Sys)
    requires Bookkeeping(s)
    ensures s.frag.nrService == s.frag.nrAwt + s.readers && s.frag.nrLunService == s.frag.nrService + s.others
    ensures !s.mapped ==> s.frag.nrService == 0 && s.frag.nrValid == 0
  {
  }

  lemma ServiceBookkeeping(s: Sys, t: Sys)
    requires Bookkeeping(s) && t.writes == s.writes && (!t.mapped ==> t.frag.nrService == 0 && t.frag.nrValid == 0)
    requires t.frag == s.frag.(nrService := t.frag.nrService, nrLunService := t.frag.nrLunService)
    requires t.frag.nrService == s.frag.nrAwt + t.readers && t.frag.nrLunService == t.frag.nrService + t.others
    ensures Bookkeeping(t)
  {
  }

  lemma SameView(s: Sys, t: Sys)
    requires t == s.(now := t.now, readers := t.readers, others := t.others, mapped := t.mapped, frag := t.frag) &&
        t.now == s.now + 1
    requires t.frag == s.frag.(nrService := t.frag.nrService, nrLunService := t.frag.nrLunService)
    ensures Order(s) ==> Order(t)
    ensures Landed(s) ==> Landed(t)
    ensures Pending(s) ==> Pending(t)
    ensures Faithful(s) ==> Faithful(t)
  {
    assert forall id, q :: Untouched(t, id, q) == Untouched(s, id, q);
    assert forall id, q :: Covers(t, id, q) == Covers(s, id, q);
    assert forall q :: PendingPage(t.frag, q) == PendingPage(s.frag, q);
  }

  lemma OverwriteKeeps(s: Sys, t: Sys, first: nat, count: nat, data: nat -> int)
    requires Inv(s) && Overwrite(s, t, first, count, data)
    ensures Inv(t)
  {
    hide Spoil, Touched, Wrote, Bookkeeping, Order, Landed, Pending, Faithful;
    SpoilKeeps(s, t, PageRange(first, count), data);
  }

  lemma StepInv(s: Sys, e: Event, t: Sys)
    requires Inv(s) && Next(s, e, t)
    ensures Inv(t)
  {
    hide Inv, Begin, Land, End, Overwrite;
    match e {
      case EvBegin(id, first, count, aligned, pool, data) => BeginKeeps(s, t, id, first, count, aligned, pool, data);
      case EvLand(id, page, toSsd) => LandKeeps(s, t, id, page, toSsd);
      case EvEnd(id, failed) => EndKeeps(s, t, id, failed);
      case EvInvalidate(first, count, data) => OverwriteKeeps(s, t, first, count, data);
      case _ => ReadKeeps(s, e, t);
    }
  }

  ghost predicate IsRun(run: seq<Sys>, events: seq<Event>) {
    && |run| == |events| + 1 && Init(run[0])
    && forall i :: 0 <= i < |events| ==> Next(run[i], events[i], run[i + 1])
  }

  lemma {:induction false} RunInv(run: seq<Sys>, events: seq<Event>, i: nat)
    requires IsRun(run, events) && i < |run|
    ensures Inv(run[i]) && run[i].now == i
  {
    hide Inv, Init, Next;
    if i == 0 {
      InitInv(run[0]);
    } else {
      RunInv(run, events, i - 1);
      StepInv(run[i - 1], events[i - 1], run[i]);
      StepNumber(run[i - 1], events[i - 1], run[i]);
    }
  }

  /** Events are numbered from zero. */
  lemma StepNumber(s: Sys, e: Event, t: Sys)
    requires Next(s, e, t)
    ensures t.now == s.now + 1
  {
    hide Touched, Wrote, SameOff, Get4Write, Put4Write, Spoil, Collected, Range, PageRange;
  }

  /** The put of a write is not refused. */
  predicate Serving(a: Pages2) { a.nrAwt > 0 && a.nrService > 0 && a.nrLunService > 0 }

  /** In every run no BUG_ON of the page protocol fires: the pages of a write in flight keep their pending bit and
      there is a pending bitmap, its put is accepted, a valid count never underflows, and the fragment is given up only
      with no write or read left and no page valid. */
  lemma NoBugOn(run: seq<Sys>, events: seq<Event>, i: nat)
    requires IsRun(run, events) && i < |run|
    ensures var s := run[i];
            && (forall id :: id in s.writes ==> s.frag.pending && Range(s.writes[id]) <= s.frag.high && Serving(s.frag))
            && (forall first, count ::
                    GoodRange(first, count) ==> |PageRange(first, count) - s.frag.low - s.frag.high| <= s.frag.nrValid)
            && (!s.mapped ==> && s.writes == map[] && !s.frag.pending && s.readers == 0
                              && forall q: nat :: q < PAGEPERFRAG ==> q in s.frag.low)
  {
    hide Init, Next;
    RunInv(run, events, i);
    var s := run[i];
    forall id | id in s.writes ensures s.frag.pending && Range(s.writes[id]) <= s.frag.high && Serving(s.frag) {
      Counted(s, id);
      PendingKept(s, id);
    }
    forall first, count | GoodRange(first, count)
        ensures |PageRange(first, count) - s.frag.low - s.frag.high| <= s.frag.nrValid {
      RoomLeft(s.frag.low, s.frag.high, PageRange(first, count));
    }
    if !s.mapped {
      assert |s.writes| == 0;
      NoneValid(s.frag);
    }
  }

  lemma NoneValid(a: Pages2)
    requires (forall q :: q in a.low || q in a.high ==> q < PAGEPERFRAG) && |a.low + a.high| == PAGEPERFRAG
    ensures forall q: nat :: q < PAGEPERFRAG ==> q in a.low || q in a.high
  {
    Preservation.FewPages(a.low + a.high);
    forall q: nat | q < PAGEPERFRAG ensures q in a.low || q in a.high {
      assert q in PageRange(0, PAGEPERFRAG);
    }
  }

  lemma PendingKept(s: Sys, id: nat)
    requires Pending(s) && id in s.writes
    ensures Range(s.writes[id]) <= s.frag.high
  {
    assert forall q :: q in Range(s.writes[id]) ==> Covers(s, id, q);
  }

  lemma RoomLeft(low: set<nat>, high: set<nat>, pages: set<nat>)
    requires forall q :: q in low || q in high || q in pages ==> q < PAGEPERFRAG
    ensures |pages - low - high| <= PAGEPERFRAG - |low + high|
  {
    Grows(low + high, pages);
    assert pages - (low + high) == pages - low - high;
    Preservation.FewPages(low + high + pages);
  }

  lemma AllPages(all: set<nat>, ok: set<nat>, bad: set<nat>)
    requires all == PageRange(0, PAGEPERFRAG) && (forall q :: q in bad ==> q < PAGEPERFRAG)
    requires forall q: nat :: q in ok <==> q < PAGEPERFRAG && q !in bad
    ensures |ok| == |all| - |bad|
  {
    assert ok == all - bad;
    assert bad <= all;
    Shrinks(all, bad);
  }

  /** The valid count is the number of pages in state 00. */
  lemma ValidCount(run: seq<Sys>, events: seq<Event>, i: nat)
    requires IsRun(run, events) && i < |run|
    ensures run[i].frag.nrValid == |set q: nat | q < PAGEPERFRAG && ValidPage(run[i].frag, q)|
  {
    hide Init, Next, Order, Landed, Pending, Faithful;
    RunInv(run, events, i);
    var a := run[i].frag;
    var ok := set q: nat | q < PAGEPERFRAG && ValidPage(a, q);
    var all := PageRange(0, PAGEPERFRAG);
    RangeSize(0, PAGEPERFRAG);
    AllPages(all, ok, a.low + a.high);
  }

  /** A pending page becomes valid exactly when a write ends well whose page it is, that found it not pending, and no
      write start and no invalidation has touched it since. Then both devices hold that write's data. */
  lemma ReturnsToValid(run: seq<Sys>, events: seq<Event>, i: nat, q: nat)
    requires IsRun(run, events) && i < |events| && q in run[i].frag.high
    ensures ValidPage(run[i + 1].frag, q) <==>
            events[i].EvEnd? && !events[i].failed && Untouched(run[i], events[i].id, q)
    ensures ValidPage(run[i + 1].frag, q) ==>
            run[i + 1].hdd(q) == run[i + 1].ssd(q) == run[i].writes[events[i].id].data(q)
  {
    hide Inv, Init, Next;
    RunInv(run, events, i);
    PendingStep(run[i], events[i], run[i + 1], q);
  }

  lemma PendingStep(s: Sys, e: Event, t: Sys, q: nat)
    requires Inv(s) && Next(s, e, t) && q in s.frag.high
    ensures ValidPage(t.frag, q) <==> e.EvEnd? && !e.failed && Untouched(s, e.id, q)
    ensures ValidPage(t.frag, q) ==> t.hdd(q) == t.ssd(q) == s.writes[e.id].data(q)
  {
    hide Begin, Land, Overwrite, Put4Write, Spoil, Order, Bookkeeping, Untouched, Range;
    match e {
      case EvBegin(id, first, count, aligned, pool, data) => BeginHigh(s, t, id, first, count, aligned, pool, data, q);
      case EvLand(id, page, toSsd) => LandFrag(s, t, id, page, toSsd);
      case EvEnd(id, failed) =>
        Counted(s, id);
        var pages := Range(s.writes[id]);
        EndAt(s.frag, pages, failed, q);
        if ValidPage(t.frag, q) {
          var j :| Untouched(s, j, q);
          assert Covers(s, id, q);
          SoleWriter(s, j, id, q);
        } else if Untouched(s, id, q) {
          UntouchedCovers(s, id, q);
        }
      case EvInvalidate(first, count, data) => OverwriteHigh(s, t, first, count, data, q);
      case _ =>
    }
  }

  lemma BeginHigh(s: Sys, t: Sys, id: nat, first: nat, count: nat, aligned: bool, pool: bool, data: nat -> int, q: nat)
    requires Bookkeeping(s) && Begin(s, t, id, first, count, aligned, pool, data) && q in s.frag.high
    ensures q in t.frag.high
  {
    hide Get4Write, Spoil, StartPages, PageRange, Touched, Wrote;
    AcceptedIff(s.frag, first, count, aligned, pool);
    SpoilAt(s.frag, PageRange(first, count), q);
    StartAt(s.frag, PageRange(first, count), q);
  }

  lemma OverwriteHigh(s: Sys, t: Sys, first: nat, count: nat, data: nat -> int, q: nat)
    requires Overwrite(s, t, first, count, data) && q in s.frag.high
    ensures q in t.frag.high
  {
    hide Spoil, PageRange, Touched, Wrote;
    SpoilAt(s.frag, PageRange(first, count), q);
  }
}
