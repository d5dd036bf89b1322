// The engine as the source writes it: tables, counters, the linked free list and the miss log updated in place. Every
// method computes the value-level call of the same name.

module Engine {
  import opened Arithmetic
  import opened Words
  import opened SceState
  import opened Invariants
  import opened FreeList
  import opened MissLog
  import opened Preservation
  import opened Requests
  import opened Invalidation
  import opened Population
  import opened Configuration
  import Clock
  import Eviction
  import LogBounds

  class Engine {
    var cdevtbl: seq<Cdev>
    var nrCdev: nat
    var luntbl: seq<Lun>
    var nrLun: nat
    var nrFrag: nat
    var nrFreefrag: nat
    var freefraglist: Word
    var fragtbl: map<nat, Frag> // all device tables, by physical fragment id
    var next: map<nat, Word>
    var arm: nat
    var nrHit: nat
    var nrMiss: nat
    var nrEviction: nat
    const misslog: Log
    ghost var free: seq<nat>

    ghost function View(): Sce
      requires misslog.Valid()
      reads this, misslog, misslog.fragnums, misslog.lunidxs
    {
      Sce(cdevtbl, nrCdev, luntbl, nrLun, nrFrag, free, fragtbl, arm, nrHit, nrMiss, nrEviction, misslog.Contents())
    }

    ghost predicate ListOk()
      reads this, misslog
    {
      && misslog.Valid() && Linked(next, freefraglist, nrFreefrag, free, fragtbl)
      && nrFrag == |fragtbl| && nrCdev <= |cdevtbl|
    }

    ghost predicate Valid()
      reads this, misslog
    {
      ListOk() && NoSecondary(next, fragtbl)
    }

    /** sce_create */
    constructor ()
      ensures Valid() && View() == Create()
      ensures fresh(misslog) && fresh(misslog.fragnums) && fresh(misslog.lunidxs)
    {
      cdevtbl, nrCdev := seq(MAXCDEV, _ => EMPTYCDEV), 0;
      luntbl, nrLun := seq(MAXLUN, _ => EMPTYLUN), 0;
      nrFrag, nrFreefrag, freefraglist, free := 0, 0, ZERO, [];
      fragtbl, next := map[], map[];
      arm, nrHit, nrMiss, nrEviction := 0, 0, 0, 0;
      misslog := new Log();
    }

    // ----- the free list

    /** _freefraglist_put: refuses a fragment that does not exist or is listed already. */
    method FreeFragListPut(pfid: Word) returns (ok: bool)
      requires ListOk()
      modifies this`fragtbl, this`next, this`freefraglist, this`nrFreefrag, this`free
      ensures ListOk() && (old(Valid()) ==> Valid())
      ensures next == if ok then old(next)[pfid.data := old(freefraglist)] else old(next)
      ensures ok <==> pfid.data in old(fragtbl) && old(fragtbl)[pfid.data].fragnum != WITHINFREELIST
      ensures free == if ok then [pfid.data] + old(free) else old(free)
      ensures fragtbl == if ok then Listed(old(fragtbl), pfid.data) else old(fragtbl)
    {
      hide Log.Contents, Linked, NoSecondary;
      ok := false;
      var p := pfid.data;
      if p in fragtbl && fragtbl[p].fragnum != WITHINFREELIST {
        PutLinked(next, freefraglist, nrFreefrag, free, fragtbl, pfid);
        fragtbl := fragtbl[p := fragtbl[p].(fragnum := WITHINFREELIST)];
        next := next[p := freefraglist];
        freefraglist := pfid.(mapped := true);
        nrFreefrag := nrFreefrag + 1;
        assert nrFreefrag <= nrFrag;
        free := [p] + free;
        ok := true;
      }
    }

    /** _freefraglist_get */
    method FreeFragListGet() returns (ok: bool, pfid: Word)
      requires Valid()
      modifies this`fragtbl, this`next, this`freefraglist, this`nrFreefrag, this`free
      ensures Valid()
      ensures ok <==> old(free) != []
      ensures !ok ==> free == [] && fragtbl == old(fragtbl)
      ensures ok ==> var p := pfid.data;
                     && pfid.mapped && old(free) == [p] + free && p !in free && p in old(fragtbl)
                     && old(fragtbl)[p].fragnum == WITHINFREELIST && fragtbl == Taken(old(fragtbl), p)
    {
      hide Log.Contents, Linked, NoSecondary;
      GetLinked(next, freefraglist, nrFreefrag, free, fragtbl);
      ok, pfid := false, freefraglist;
      if pfid != ZERO {
        var p := pfid.data;
        freefraglist := next[p];
        next := next[p := ZERO];
        fragtbl := fragtbl[p := fragtbl[p].(fragnum := UNLISTED)];
        assert nrFreefrag != 0;
        nrFreefrag := nrFreefrag - 1;
        free := free[1..];
        ok := true;
      }
    }

    /** _freefraglist_rmcdev: takes the fragments of one device out of the list and keeps the order of the others. */
    method FreeFragListRmCdev(devnum: nat)
      requires Valid()
      modifies this`next, this`freefraglist, this`nrFreefrag, this`free
      ensures Valid() && free == OffDevice(old(free), devnum)
    {
      hide Log.Contents, Linked, NoSecondary, Chain, OffDevice, NoDuplicates, Join;
      ghost var seen, rest, kept := [], free, [];
      var parent: Option<nat> := None;
      var pfid := freefraglist;
      JoinEnds(free);
      StartChain(next, freefraglist, nrFreefrag, free, fragtbl, devnum);
      while pfid != ZERO
        invariant old(free) == Join(seen, rest) && kept == OffDevice(seen, devnum) && free == Join(kept, rest)
        invariant Linked(next, freefraglist, nrFreefrag, free, fragtbl) && Chain(next, pfid, rest)
        invariant NoSecondary(next, fragtbl)
        invariant if kept == [] then parent.None? else parent == Some(kept[|kept| - 1])
        decreases |rest|
      {
        var p := pfid.data;
        ChainHead(next, pfid, rest);
        TurnLinked(next, freefraglist, nrFreefrag, kept, rest, fragtbl);
        OffDeviceAppend(seen, p, devnum);
        JoinNext(seen, rest);
        JoinNext(kept, rest);
        if Dev(p) == devnum {
          if parent.Some? {
            next := next[parent.value := next[p]];
          } else {
            freefraglist := next[p];
          }
          nrFreefrag := nrFreefrag - 1;
          free := Join(kept, rest[1..]);
        } else {
          parent := Some(p);
          kept := kept + [p];
        }
        pfid := next[p];
        seen, rest := seen + [p], rest[1..];
      }
      ChainHead(next, pfid, rest);
      JoinEnds(seen);
      JoinEnds(kept);
    }

    // ----- fragments and mappings

    /** _frag_invalidate; the range and the count are what its BUG_ONs ask for. */
    static method FragInvalidate(frag: Frag, pgnum: nat, pgcnt: nat) returns (r: Frag)
      requires pgcnt > 0 && pgnum + pgcnt <= PAGEPERFRAG && |PageRange(pgnum, pgcnt) - frag.invalid| <= frag.nrValid
      ensures r == InvalidatePages(frag, PageRange(pgnum, pgcnt)) && r.nrValid >= 0
    {
      var pages := PageRange(pgnum, pgcnt);
      var nrInvalidated := |pages - frag.invalid|;
      r := frag.(invalid := frag.invalid + pages, nrValid := frag.nrValid - nrInvalidated);
    }

    /** _frag_init and the pages past the end of the LUN, as _map_frag marks them. */
    static method InitFrag(nrSctr: nat, nrFragmap: nat, l: nat, fragnum: nat) returns (frag: Frag)
      requires TailCount(nrSctr, nrFragmap, fragnum) <= PAGEPERFRAG
      ensures frag == NewFrag(l, fragnum, TailCount(nrSctr, nrFragmap, fragnum)).(nrService := 0)
    {
      hide TailCount, InvalidatePages, NewFrag;
      NewFragTail(nrSctr, l, fragnum, nrFragmap);
      frag := Frag(0, 0, {}, PAGEPERFRAG, 0, 0, 0, 0);
      if fragnum + 1 == nrFragmap {
        var whole := nrFragmap * SCTRPERFRAG;
        if nrSctr < whole {
          var pagecnt := (whole - nrSctr + SCTRPERPAGE - 1) / SCTRPERPAGE;
          assert pagecnt <= PAGEPERFRAG;
          frag := FragInvalidate(frag, PAGEPERFRAG - pagecnt, pagecnt);
        }
      }
      frag := frag.(lunidx := l, fragnum := fragnum);
    }

    /** _map_frag: a fragment that is not on the free list becomes the one of an unmapped entry. */
    method MapFrag(l: nat, fragnum: nat, pfid: Word) returns (ok: bool)
      requires Valid() && Shape(View()) && pfid.data !in free
      modifies this`luntbl, this`fragtbl, this`next
      ensures Valid()
      ensures var s, p := old(View()), pfid.data;
              && (ok <==>
                      l < |s.luns| && fragnum < |s.luns[l].fragmap| && p in s.frags
                      && !s.luns[l].fragmap[fragnum].mapped)
              && (!ok ==> unchanged(this))
              && (ok ==> var tail := TailCount(s.luns[l].nrSctr, |s.luns[l].fragmap|, fragnum);
                         && tail <= PAGEPERFRAG && fragtbl == s.frags[p := NewFrag(l, fragnum, tail).(nrService := 0)]
                         && luntbl == SetDesc(s, l, fragnum, Word(true, false, 0, p)).luns)
    {
      hide Log.Contents, Linked, NoSecondary, Shape, PagesOk, TailCount, NewFrag;
      var p := pfid.data;
      if l >= |luntbl| || fragnum >= |luntbl[l].fragmap| || p !in fragtbl || luntbl[l].fragmap[fragnum].mapped {
        return false;
      }
      var lun := luntbl[l];
      TailFits(View(), l, fragnum);
      var frag := InitFrag(lun.nrSctr, |lun.fragmap|, l, fragnum);
      MapLinked(next, freefraglist, nrFreefrag, free, fragtbl, p, frag);
      next := next[p := ZERO];
      fragtbl := fragtbl[p := frag];
      luntbl := luntbl[l := lun.(fragmap := lun.fragmap[fragnum := Word(true, false, 0, p)])];
      ok := true;
    }

    /** _unmap_frag */
    method UnmapFrag(l: nat, fragnum: nat) returns (ok: bool)
      requires Valid()
      modifies this`luntbl, this`fragtbl, this`next, this`freefraglist, this`nrFreefrag, this`free
      ensures Valid() && View() == Unmap(old(View()), l, fragnum) && (ok <==> Unmappable(old(View()), l, fragnum))
    {
      hide Log.Contents, Linked, NoSecondary;
      ok := false;
      if l < |luntbl| && fragnum < |luntbl[l].fragmap| && luntbl[l].fragmap[fragnum].mapped {
        var fdesc := luntbl[l].fragmap[fragnum];
        if fdesc.data in fragtbl && fragtbl[fdesc.data].nrService == 0 {
          var nrMissed := fragtbl[fdesc.data].nrMiss;
          ok := FreeFragListPut(fdesc);
          if ok {
            luntbl := luntbl[l := luntbl[l].(fragmap := luntbl[l].fragmap[fragnum := Heat(nrMissed)])];
          }
        }
      }
    }

    // ----- eviction

    /** _get_frag_advance_clockarm */
    method GetFragAdvanceClockArm() returns (frag: Option<nat>)
      requires Valid()
      modifies this`arm
      ensures Valid() && (View(), frag) == Advance(old(View()))
    {
      hide Log.Contents, Linked, NoSecondary;
      frag := None;
      if nrCdev > 0 {
        var devnum: nat := Phase(Dev(arm) % DEVSPACE, nrCdev);
        var fragnum: nat := Off(arm);
        var n := cdevtbl[devnum].nrFrag;
        if n > 0 {
          fragnum := Phase(fragnum, n);
          frag := Some(Pfid(devnum, fragnum));
          fragnum := fragnum + 1;
          if fragnum >= n {
            fragnum, devnum := 0, devnum + 1;
          }
        } else {
          devnum := devnum + 1;
        }
        arm := Pfid(devnum, fragnum);
      }
    }

    /** _evict_frag */
    method EvictFrag() returns (ok: bool)
      requires Valid() && Shape(View()) && Tables(View())
      modifies this`arm, this`luntbl, this`fragtbl, this`next, this`freefraglist, this`nrFreefrag, this`free
      ensures Valid() && (View(), ok) == Evict(old(View()))
    {
      hide Log.Contents, Linked, NoSecondary, Shape, Tables, Advance, Unmap, Unmappable;
      ok := false;
      CountIsLength();
      if nrFreefrag < nrFrag {
        ghost var s0 := View();
        var i: nat := nrFrag * REFCEILING;
        while i > 0
          invariant Valid() && cdevtbl == s0.cdevs && fragtbl.Keys == s0.frags.Keys
          invariant Shape(s0) && Tables(s0)
          invariant EvictLoop(View(), i) == EvictLoop(s0, s0.nrFrag * REFCEILING)
          invariant !ok
        {
          ghost var s := View();
          var frag := GetFragAdvanceClockArm();
          Clock.AdvanceKnown(s0, s);
          if frag.None? {
            break;
          }
          var p := frag.value;
          var fr := fragtbl[p];
          if fr.fragnum < UNLISTED && fr.nrService == 0 {
            if fr.nrRef == 0 {
              var _ := UnmapFrag(fr.lunidx, fr.fragnum);
              ok := true;
              break;
            }
            AdjustLinked(next, freefraglist, nrFreefrag, free, fragtbl, p, fr.(nrRef := fr.nrRef - 1));
            fragtbl := fragtbl[p := fr.(nrRef := fr.nrRef - 1)];
          }
          i := i - 1;
        }
      }
    }

    ghost method CountIsLength()
      requires Valid()
      ensures nrFreefrag == |free|
    {
    }

    // ----- LUN life cycle

    /** _lun_purge */
    method LunPurge(l: nat) returns (ok: bool)
      requires Valid()
      modifies this`luntbl, this`nrLun, this`fragtbl, this`next, this`freefraglist, this`nrFreefrag, this`free
      ensures Valid() && (View(), ok) == Purge(old(View()), l)
    {
      hide Log.Contents, Linked, NoSecondary, Unmap, Unmappable;
      ok := false;
      if l < |luntbl| && luntbl[l].present && luntbl[l].nrService == 0 && nrLun > 0 {
        ghost var s0 := View();
        var fragnum := 0;
        while fragnum < |luntbl[l].fragmap|
          invariant Valid() && View() == UnmapUpTo(s0, l, fragnum) && |luntbl| == |s0.luns|
          invariant fragnum <= |luntbl[l].fragmap| == |s0.luns[l].fragmap|
          invariant nrLun == s0.nrLun
        {
          UnmapLengths(View(), l, fragnum);
          var _ := UnmapFrag(l, fragnum);
          fragnum := fragnum + 1;
        }
        luntbl := luntbl[l := EMPTYLUN];
        nrLun := nrLun - 1;
        ok := true;
      }
    }

    /** _lun_gc */
    method LunGc(l: nat, p: nat)
      requires Valid() && l < |luntbl| && p in fragtbl
      modifies this`luntbl, this`nrLun, this`fragtbl, this`next, this`freefraglist, this`nrFreefrag, this`free
      ensures Valid() && View() == Gc(old(View()), l, p)
    {
      hide Log.Contents, Linked, NoSecondary, Unmap, Unmappable, Purge;
      if fragtbl[p].nrService == 0 && fragtbl[p].nrValid == 0 {
        UnmapLengths(View(), l, fragtbl[p].fragnum);
        var _ := UnmapFrag(l, fragtbl[p].fragnum);
      }
      if luntbl[l].waiting && luntbl[l].nrService == 0 {
        var _ := LunPurge(l);
      }
    }

    // ----- reads and writes

    /** The engine between two calls. */
    ghost predicate Ok()
      reads this, misslog, misslog.fragnums, misslog.lunidxs
    {
      Valid() && Boundary(View())
    }

    /** _lock_lun */
    method LockLun(l: nat, sctrnum: nat, nrSctr: nat, svcchk: bool) returns (ok: bool)
      requires Valid()
      ensures ok <==>
        && l < |luntbl| && luntbl[l].present && nrSctr > 0 && sctrnum + nrSctr <= luntbl[l].nrSctr
        && (svcchk ==> !luntbl[l].waiting)
    {
      if l >= |luntbl| || !luntbl[l].present || nrSctr == 0 || sctrnum + nrSctr > luntbl[l].nrSctr {
        return false;
      }
      if svcchk && luntbl[l].waiting {
        return false;
      }
      ok := true;
    }

    /** _frag_isvalid */
    static method FragIsValid(frag: Frag, pgnum: nat, pgcnt: nat) returns (ok: bool)
      requires pgcnt > 0 && pgnum + pgcnt <= PAGEPERFRAG
      ensures ok <==> PageRange(pgnum, pgcnt) !! frag.invalid
    {
      ok := PageRange(pgnum, pgcnt) !! frag.invalid;
    }

    /** A miss is counted and logged. */
    method LogMiss(l: nat, fragnum: nat)
      requires Valid()
      modifies this`nrMiss, misslog, misslog.fragnums, misslog.lunidxs
      ensures Valid() && View() == Miss(old(View()), l, fragnum)
    {
      hide Log.Contents, Linked, NoSecondary, LogPut;
      nrMiss := nrMiss + 1;
      misslog.Put(l, fragnum);
    }

    /** The branch of sce_get4read for a mapped entry. */
    method ServeRead(l: nat, fdesc: Word, pgoff: nat, pgcnt: nat) returns (served: bool)
      requires Valid() && l < |luntbl| && fdesc.data in fragtbl && pgcnt > 0 && pgoff + pgcnt <= PAGEPERFRAG
      modifies this`luntbl, this`fragtbl, this`nrHit
      ensures Valid()
      ensures var s, p := old(View()), fdesc.data;
              var fr := s.frags[p];
              && (served <==> fdesc.valid && PageRange(pgoff, pgcnt) !! fr.invalid)
              && (served ==>
                    var ref := if fr.nrRef < REFCEILING then fr.nrRef + 1 else fr.nrRef;
                    && fragtbl == s.frags[p := fr.(nrHit := fr.nrHit + 1, nrService := fr.nrService + 1, nrRef := ref)]
                    && luntbl == SetService(s, l, s.luns[l].nrService + 1).luns && nrHit == s.nrHit + 1)
              && (!served ==>
                      fragtbl == s.frags[p := fr.(nrMiss := fr.nrMiss + 1)] && luntbl == s.luns && nrHit == s.nrHit)
    {
      hide Log.Contents, Linked, NoSecondary, PageRange;
      var frag := fragtbl[fdesc.data];
      served := false;
      if fdesc.valid {
        served := FragIsValid(frag, pgoff, pgcnt);
      }
      if served {
        frag := frag.(nrHit := frag.nrHit + 1, nrService := frag.nrService + 1);
        luntbl := luntbl[l := luntbl[l].(nrService := luntbl[l].nrService + 1)];
        if frag.nrRef < REFCEILING {
          frag := frag.(nrRef := frag.nrRef + 1);
        }
        nrHit := nrHit + 1;
      } else {
        frag := frag.(nrMiss := frag.nrMiss + 1);
      }
      AdjustLinked(next, freefraglist, nrFreefrag, free, fragtbl, fdesc.data, frag);
      fragtbl := fragtbl[fdesc.data := frag];
    }

    /** sce_get4read once the request is known to lie in fragment `fragnum`. */
    method ReadFragment(l: nat, fragnum: nat, pgoff: nat, pgcnt: nat) returns (hit: Option<nat>)
      requires Valid() && l < |luntbl| && fragnum < |luntbl[l].fragmap| && pgcnt > 0 && pgoff + pgcnt <= PAGEPERFRAG
      requires luntbl[l].fragmap[fragnum].mapped ==> luntbl[l].fragmap[fragnum].data in fragtbl
      modifies this`luntbl, this`fragtbl, this`nrHit, this`nrMiss, misslog, misslog.fragnums, misslog.lunidxs
      ensures Valid() && (View(), hit) == FragmentRead(old(View()), l, fragnum, PageRange(pgoff, pgcnt))
    {
      hide Log.Contents, Linked, NoSecondary, PageRange, Miss;
      hit := None;
      var fdesc := luntbl[l].fragmap[fragnum];
      if !fdesc.mapped {
        luntbl := luntbl[l := luntbl[l].(fragmap := luntbl[l].fragmap[fragnum := Inc(fdesc)])];
        fdesc := ZERO;
      } else {
        var p := fdesc.data;
        var served := ServeRead(l, fdesc, pgoff, pgcnt);
        if served {
          hit := Some(p);
        } else {
          fdesc := ZERO;
        }
      }
      if fdesc == ZERO {
        LogMiss(l, fragnum);
      }
    }

    /** sce_get4read: on a hit, the physical fragment to read from. */
    method Get4Read(l: nat, sctrnum: nat, nrSctr: nat) returns (hit: Option<nat>, fmap: Option<Fmap>)
      requires Ok()
      modifies this, misslog, misslog.fragnums, misslog.lunidxs
      ensures Ok() && (View(), hit) == SceState.Get4Read(old(View()), l, sctrnum, nrSctr)
      ensures
        hit.Some? ==> Dev(hit.value) < |cdevtbl| && fmap == Some(Fmap(cdevtbl[Dev(hit.value)].ctx, Off(hit.value)))
    {
      hide Log.Contents, Linked, NoSecondary, Boundary, PageRange, FragmentRead, SceState.Get4Read, Dev, Off;
      ghost var s := View();
      GetBoundary(s, l, sctrnum, nrSctr);
      hit, fmap := None, None;
      var locked := LockLun(l, sctrnum, nrSctr, true);
      if !locked {
        ReadRefused(s, l, sctrnum, nrSctr);
        return;
      }
      ReadCases(s, l, sctrnum, nrSctr);
      var firstpg := sctrnum / SCTRPERPAGE;
      var lastpg := (sctrnum + nrSctr - 1) / SCTRPERPAGE;
      var fragnum, pgoff, pgcnt := firstpg / PAGEPERFRAG, firstpg % PAGEPERFRAG, lastpg - firstpg + 1;
      if pgoff + pgcnt > PAGEPERFRAG {
        return;
      }
      var fdesc := luntbl[l].fragmap[fragnum];
      if fdesc.mapped {
        EntryDevice(s, l, fragnum);
        fmap := Some(Fmap(cdevtbl[Dev(fdesc.data)].ctx, Off(fdesc.data)));
      }
      HitIsEntry(s, l, fragnum, PageRange(pgoff, pgcnt));
      hit := ReadFragment(l, fragnum, pgoff, pgcnt);
    }

    /** sce_put4read */
    method Put4Read(l: nat, sctrnum: nat, nrSctr: nat) returns (ok: bool)
      requires Ok()
      modifies this
      ensures Ok() && (View(), ok) == SceState.Put4Read(old(View()), l, sctrnum, nrSctr)
    {
      hide Log.Contents, Linked, NoSecondary, Boundary, Gc, Shape, Tables, OneFragment;
      ghost var s := View();
      PutBoundary(s, l, sctrnum, nrSctr);
      ok := LockLun(l, sctrnum, nrSctr, false);
      if !ok {
        return;
      }
      BoundaryTables(s);
      InRange(s, l, sctrnum, nrSctr, false);
      var fragnum := sctrnum / SCTRPERFRAG;
      ok := false;
      if (sctrnum + nrSctr - 1) / SCTRPERFRAG != fragnum {
        return;
      }
      var fdesc := luntbl[l].fragmap[fragnum];
      if !fdesc.mapped || !fdesc.valid || fdesc.data !in fragtbl {
        return;
      }
      var p := fdesc.data;
      var frag := fragtbl[p];
      if frag.nrService == 0 || luntbl[l].nrService == 0 {
        return;
      }
      frag := frag.(nrService := frag.nrService - 1);
      AdjustLinked(next, freefraglist, nrFreefrag, free, fragtbl, p, frag);
      fragtbl := fragtbl[p := frag];
      luntbl := luntbl[l := luntbl[l].(nrService := luntbl[l].nrService - 1)];
      if frag.nrService == 0 {
        LunGc(l, p);
      }
      ok := true;
    }

    /** sce_invalidate: the loop visits the fragments one by one and ends with no page left. */
    method Invalidate(l: nat, sctrnum: nat, nrSctr: nat) returns (ok: bool)
      requires Ok()
      modifies this
      ensures Ok() && (View(), ok) == SceState.Invalidate(old(View()), l, sctrnum, nrSctr)
    {
      hide Log.Contents, Linked, NoSecondary, Boundary, InvalidateOne, PageRange, PagesOk, SceState.Invalidate;
      ghost var s := View();
      InvalidateCases(s, l, sctrnum, nrSctr);
      ok := LockLun(l, sctrnum, nrSctr, true);
      if !ok {
        return;
      }
      var start := sctrnum / SCTRPERPAGE;
      var end := (sctrnum + nrSctr - 1) / SCTRPERPAGE;
      var count: nat := end - start + 1;
      var fragnum: nat, pgoff: nat := start / PAGEPERFRAG, start % PAGEPERFRAG;
      ghost var goal := InvalidateFrom(s, l, fragnum, pgoff, count);
      while count > 0
        invariant Ok() && l < |luntbl| == |s.luns| && !luntbl[l].waiting && |luntbl[l].fragmap| == |s.luns[l].fragmap|
        invariant pgoff < PAGEPERFRAG && 0 <= count
        invariant count > 0 ==> fragnum * PAGEPERFRAG + pgoff + count - 1 == end
        invariant end / PAGEPERFRAG < |s.luns[l].fragmap|
        invariant InvalidateFrom(View(), l, fragnum, pgoff, count) == goal
        decreases count
      {
        var pgcnt := PAGEPERFRAG - pgoff;
        if pgcnt > count {
          pgcnt := count;
        }
        ghost var s1 := View();
        InvalidateFragment(l, fragnum, pgoff, pgcnt);
        fragnum, pgoff, count := fragnum + 1, 0, count - pgcnt;
      }
      assert count == 0;
    }

    /** The body of the loop for one fragment. */
    method InvalidateFragment(l: nat, fragnum: nat, pgoff: nat, pgcnt: nat)
      requires Ok() && l < |luntbl| && !luntbl[l].waiting && fragnum < |luntbl[l].fragmap|
      requires pgcnt > 0 && pgoff + pgcnt <= PAGEPERFRAG
      modifies this
      ensures Ok() && View() == InvalidateOne(old(View()), l, fragnum, PageRange(pgoff, pgcnt))
      ensures |luntbl| == |old(luntbl)| && !luntbl[l].waiting && |luntbl[l].fragmap| == |old(luntbl)[l].fragmap|
    {
      hide Log.Contents, Linked, NoSecondary, Core, Deferred, NoDead, Shrinks, Gc, PageRange;
      ghost var s := View();
      PagesInside(pgoff, pgcnt);
      InvalidateOneKeeps(s, l, fragnum, PageRange(pgoff, pgcnt));
      OneKeepsLun(s, l, fragnum, PageRange(pgoff, pgcnt));
      var fdesc := luntbl[l].fragmap[fragnum];
      if fdesc.mapped {
        var p := fdesc.data;
        assert MappedTo(s, l, fragnum, p);
        MappedFacts(s, l, fragnum, p);
        RoomForPages(fragtbl[p].invalid, PageRange(pgoff, pgcnt));
        var frag := FragInvalidate(fragtbl[p], pgoff, pgcnt);
        AdjustLinked(next, freefraglist, nrFreefrag, free, fragtbl, p, frag);
        fragtbl := fragtbl[p := frag];
        if fdesc.valid {
          LunGc(l, p);
        }
      }
    }

    // ----- population

    /** The allocation loop of _alloc4population: it runs at most twice. */
    method TakeFragment() returns (ok: bool, pfid: Word)
      requires Ok()
      modifies this
      ensures Valid()
      ensures var (s1, got) := Reclaim(old(View()));
              && Boundary(s1) && ok == got
              && (!ok ==> View() == s1)
              && (ok ==> && s1.free == [pfid.data] + free && pfid.data !in free && pfid.data in s1.frags
                         && s1.frags[pfid.data].fragnum == WITHINFREELIST && fragtbl == Taken(s1.frags, pfid.data)
                         && View() == s1.(frags := fragtbl, free := free))
    {
      hide Log.Contents, Linked, NoSecondary, Boundary, Shape, Tables, Evict, Reclaim, Taken;
      ghost var s := View();
      ReclaimBoundary(s);
      ReclaimCases(s);
      ghost var rounds := 0;
      while true
        invariant Valid() && rounds <= 1
        invariant View() == if rounds == 0 then s else Reclaim(s).0
        invariant rounds == 1 ==> s.free == [] && Reclaim(s).1
        decreases 1 - rounds
      {
        ok, pfid := FreeFragListGet();
        if ok {
          break;
        }
        BoundaryTables(View());
        ok := EvictFrag();
        if !ok {
          break;
        }
        nrEviction := nrEviction + 1;
        rounds := rounds + 1;
      }
    }

    /** The end of _alloc4population: map the fragment taken and count its service, or put it back. */
    method PlaceFragment(l: nat, fragnum: nat, pfid: Word, ghost s: Sce) returns (ok: bool)
      requires Valid() && Shape(s) && l < |s.luns| && fragnum < |s.luns[l].fragmap|
      requires s.free == [pfid.data] + free && pfid.data !in free && pfid.data in s.frags
      requires s.frags[pfid.data].fragnum == WITHINFREELIST &&
          View() == s.(frags := Taken(s.frags, pfid.data), free := free)
      modifies this`luntbl, this`fragtbl, this`next, this`freefraglist, this`nrFreefrag, this`free
      ensures Valid() && (ok <==> !s.luns[l].fragmap[fragnum].mapped) && (!ok ==> View() == s)
      ensures ok ==> CanMap(s, l, fragnum) && View() == MapHead(s, l, fragnum)
    {
      hide Log.Contents, Linked, NoSecondary, Taken, MapHead, Listed, Shape, NewFrag, TailCount;
      TakenShape(s, pfid.data, free);
      PutBack(s.frags, pfid.data);
      ok := MapFrag(l, fragnum, pfid);
      if ok {
        luntbl := luntbl[l := luntbl[l].(nrService := luntbl[l].nrService + 1)];
        var frag := fragtbl[pfid.data];
        frag := frag.(nrService := frag.nrService + 1);
        AdjustLinked(next, freefraglist, nrFreefrag, free, fragtbl, pfid.data, frag);
        fragtbl := fragtbl[pfid.data := frag];
        MapHeadIs(s, l, fragnum, free, View());
      } else {
        var _ := FreeFragListPut(pfid);
      }
    }

    /** _alloc4population */
    method Alloc4Population(l: nat, fragnum: nat) returns (out: Option<nat>)
      requires Ok()
      modifies this
      ensures Ok() && (View(), out) == Alloc(old(View()), l, fragnum)
    {
      hide Log.Contents, Linked, NoSecondary, Boundary, Shrinks, SameTables, Reclaim, Taken, CanMap, MapHead, Alloc,
          TailCount;
      ghost var s := View();
      AllocKeeps(s, l, fragnum);
      out := None;
      if l >= |luntbl| || !luntbl[l].present || fragnum >= |luntbl[l].fragmap| {
        return;
      }
      var ok, pfid := TakeFragment();
      if !ok {
        return;
      }
      ghost var s1 := Reclaim(s).0;
      BoundaryTables(s1);
      SameTablesLun(s, s1, l);
      ok := PlaceFragment(l, fragnum, pfid, s1);
      if ok {
        out := Some(pfid.data);
      }
    }

    /** _complete_population; there is never a link behind a mapped fragment. */
    method CompletePopulation(l: nat, fragnum: nat) returns (ok: bool)
      requires Ok()
      modifies this
      ensures Valid() && (View(), ok) == Complete(old(View()), l, fragnum)
    {
      hide Log.Contents, Linked, NoSecondary, Boundary, Gc, PagesOk;
      ok := false;
      if l >= |luntbl| || fragnum >= |luntbl[l].fragmap| {
        return;
      }
      var fdesc := luntbl[l].fragmap[fragnum];
      if !fdesc.mapped || fdesc.data !in fragtbl {
        return;
      }
      var p := fdesc.data;
      EntryFacts(View(), l, fragnum);
      NoLink(next, freefraglist, nrFreefrag, free, fragtbl, p);
      assert next[p] == ZERO;
      if !fdesc.valid {
        if fragtbl[p].nrService != 1 {
          return;
        }
        luntbl := luntbl[l := luntbl[l].(fragmap := luntbl[l].fragmap[fragnum := fdesc.(valid := true)])];
        ReleaseFrag(p);
      }
      ReleaseLun(l);
      LunGc(l, p);
      ok := true;
    }

    /** One service less on LUN `l`. */
    method ReleaseLun(l: nat)
      requires Valid() && l < |luntbl|
      modifies this`luntbl
      ensures Valid() && View() == SetService(old(View()), l, Dec32(old(luntbl)[l].nrService))
    {
      hide Log.Contents, Linked, NoSecondary;
      luntbl := luntbl[l := luntbl[l].(nrService := Dec32(luntbl[l].nrService))];
    }

    /** nr_service set to zero. */
    method ReleaseFrag(p: nat)
      requires Valid() && p in fragtbl
      modifies this`fragtbl
      ensures Valid() && View() == SetFrag(old(View()), p, old(fragtbl)[p].(nrService := 0))
    {
      hide Log.Contents, Linked, NoSecondary;
      var frag := fragtbl[p].(nrService := 0);
      AdjustLinked(next, freefraglist, nrFreefrag, free, fragtbl, p, frag);
      fragtbl := fragtbl[p := frag];
    }

    /** _cancel_population; a readable entry has no secondary fragment to cancel. */
    method CancelPopulation(l: nat, fragnum: nat) returns (ok: bool)
      requires Ok()
      modifies this
      ensures Valid() && (View(), ok) == Cancel(old(View()), l, fragnum)
    {
      hide Log.Contents, Linked, NoSecondary, Boundary, Gc, PagesOk, Unmap, Unmappable, Cancel;
      CancelCases(View(), l, fragnum);
      ok := false;
      if l >= |luntbl| || fragnum >= |luntbl[l].fragmap| {
        return;
      }
      var fdesc := luntbl[l].fragmap[fragnum];
      if !fdesc.mapped || fdesc.data !in fragtbl {
        return;
      }
      var p := fdesc.data;
      EntryFacts(View(), l, fragnum);
      NoLink(next, freefraglist, nrFreefrag, free, fragtbl, p);
      assert next[p] == ZERO;
      if fdesc.valid || fragtbl[p].nrService != 1 {
        return;
      }
      ReleaseFrag(p);
      var _ := UnmapFrag(l, fragnum);
      ReleaseLun(l);
      LunGc(l, p);
      ok := true;
    }

    /** _lun_search */
    method FindLunByCtx(ctx: nat) returns (lunidx: Option<nat>)
      ensures lunidx == LunSearch(luntbl, ctx, 0)
    {
      var i := 0;
      while i < |luntbl|
        invariant i <= |luntbl| && LunSearch(luntbl, ctx, i) == LunSearch(luntbl, ctx, 0)
      {
        if luntbl[i].ctx == ctx {
          return Some(i);
        }
        i := i + 1;
      }
      lunidx := None;
    }

    /** sce_put4pop: for an outstanding population it succeeds and leaves the engine sound. */
    method Put4Pop(lunctx: nat, fragnum: nat, failed: bool) returns (ok: bool)
      requires Ok()
      modifies this
      ensures Valid() && (View(), ok) == SceState.Put4Pop(old(View()), lunctx, fragnum, failed)
      ensures Outstanding(old(View()), lunctx, fragnum) ==> ok && Ok()
    {
      hide Log.Contents, Linked, NoSecondary, Boundary, Complete, Cancel, LunSearch, Outstanding;
      OutstandingPut(View(), lunctx, fragnum, failed);
      var lunidx := FindLunByCtx(lunctx);
      if lunidx.None? {
        return false;
      }
      if !failed {
        ok := CompletePopulation(lunidx.value, fragnum);
      } else {
        ok := CancelPopulation(lunidx.value, fragnum);
      }
    }

    /** sce_get4pop: the task names the LUN and the device by their contexts. */
    method Get4Pop() returns (task: Option<Poptask>, ghost chosen: Option<LogEntry>)
      requires Ok() && LogBounds.ScanInside(View())
      modifies this
      ensures Ok() && IsChoice(old(luntbl), old(misslog.Contents()), chosen)
      ensures chosen.None? ==> task.None? && View() == old(View())
      ensures chosen.Some? ==>
        var (s, got) := Alloc(old(View()), chosen.value.lunidx, chosen.value.fragnum);
        && View() == s && task.Some? == got.Some?
        && (task.Some? ==>
              && chosen.value.lunidx < |luntbl| && Dev(got.value) < |cdevtbl|
              && task.value == Poptask(luntbl[chosen.value.lunidx].ctx, cdevtbl[Dev(got.value)].ctx,
                                       chosen.value.fragnum, Off(got.value)))
    {
      hide Log.Contents, Linked, NoSecondary, Boundary, Alloc, IsChoice, Window, InBounds, LogBounds.ScanInside;
      task := None;
      ghost var s := View();
      ScanReads(s);
      var choice := Choose4Population(misslog, luntbl);
      chosen := choice;
      if choice.None? {
        return;
      }
      var l, fragnum := choice.value.lunidx, choice.value.fragnum;
      AllocatedWhere(View(), l, fragnum);
      var pfid := Alloc4Population(l, fragnum);
      if pfid.None? {
        return;
      }
      task := Some(Poptask(luntbl[l].ctx, cdevtbl[Dev(pfid.value)].ctx, fragnum, Off(pfid.value)));
    }

    // ----- configuration

    /** _cdev_search */
    method CdevSearch(ctx: nat) returns (found: bool)
      requires misslog.Valid()
      ensures found <==> CtxUsed(View(), ctx)
    {
      var i := 0;
      while i < |cdevtbl|
        invariant i <= |cdevtbl| && forall d :: 0 <= d < i ==> cdevtbl[d].ctx != ctx
      {
        if cdevtbl[i].ctx == ctx {
          return true;
        }
        i := i + 1;
      }
      found := false;
    }

    /** sce_addcdev: the fragments of the new device go on the free list, the last one first. */
    method AddCdev(nrSctr: nat, cdctx: nat) returns (slot: Option<nat>)
      requires Ok() && nrSctr / SCTRPERFRAG <= OFFSPACE
      modifies this
      ensures Ok() && (View(), slot) == SceState.AddCdev(old(View()), nrSctr, cdctx)
    {
      hide Log.Contents, Linked, NoSecondary, Boundary, Plug, SceState.AddCdev, CtxUsed;
      ghost var s := View();
      AddBoundary(s, nrSctr, cdctx);
      AddCases(s, nrSctr, cdctx);
      slot := None;
      if nrSctr == 0 || nrCdev >= MAXCDEV {
        return;
      }
      var used := CdevSearch(cdctx);
      if used {
        return;
      }
      var devnum := 0;
      while devnum < MAXCDEV && cdevtbl[devnum].present
        invariant devnum <= MAXCDEV && FindCdev(cdevtbl, devnum) == FindCdev(cdevtbl, 0)
      {
        devnum := devnum + 1;
      }
      if devnum == MAXCDEV || nrSctr < SCTRPERFRAG {
        return;
      }
      InstallDevice(devnum, nrSctr / SCTRPERFRAG, cdctx);
      slot := Some(devnum);
    }

    /** _cdev_init and what sce_addcdev does with the new device. */
    method InstallDevice(devnum: nat, n: nat, cdctx: nat)
      requires Ok() && devnum < |cdevtbl| && !cdevtbl[devnum].present && nrCdev < |cdevtbl| && 0 < n <= OFFSPACE
      modifies this`cdevtbl, this`nrCdev, this`nrFrag, this`fragtbl, this`next, this`freefraglist, this`nrFreefrag,
          this`free
      ensures Valid() && View() == Plug(old(View()), devnum, n, cdctx)
    {
      hide Log.Contents, Linked, NoSecondary, Boundary, Shape, Tables, Plug, DevicePfids, Filled, FreshLinks, OnlyFresh;
      ghost var s := View();
      BoundaryTables(s);
      PlugIs(s, devnum, n, cdctx);
      PlugStart(fragtbl, devnum, n, next, freefraglist, nrFreefrag, free);
      cdevtbl := cdevtbl[devnum := Cdev(true, cdctx, n)];
      fragtbl := Filled(fragtbl, devnum, n, n);
      next := FreshLinks(next, devnum, n);
      nrCdev := nrCdev + 1;
      nrFrag := nrFrag + n;
      ListDevice(devnum, n, s);
    }

    /** The loop of sce_addcdev over the new fragments. */
    method ListDevice(devnum: nat, n: nat, ghost s: Sce)
      requires ListOk() && devnum < DEVSPACE && 0 < n <= OFFSPACE && free == s.free
      requires fragtbl == Filled(s.frags, devnum, n, n) && OnlyFresh(next, fragtbl, devnum, n, n)
      modifies this`fragtbl, this`next, this`freefraglist, this`nrFreefrag, this`free
      ensures Valid() && free == DevicePfids(devnum, n) + s.free && fragtbl == Filled(s.frags, devnum, n, 0)
    {
      hide Log.Contents, Linked, NoSecondary, DevicePfids, Filled, OnlyFresh, Pfid, Listed, ListFrom;
      var fragnum: nat := n - 1;
      ListStart(devnum, n, s.free);
      while true
        invariant fragnum < n && ListOk() && free == ListFrom(devnum, n, fragnum + 1, s.free)
        invariant fragtbl == Filled(s.frags, devnum, n, fragnum + 1) && OnlyFresh(next, fragtbl, devnum, n, fragnum + 1)
        decreases fragnum
      {
        PutNext(s.frags, next, freefraglist, devnum, n, fragnum);
        ListNext(devnum, n, fragnum, s.free);
        var p := Pfid(devnum, fragnum);
        var _ := FreeFragListPut(Word(false, false, 0, p));
        if fragnum == 0 {
          break;
        }
        fragnum := fragnum - 1;
      }
      NoneFresh(next, fragtbl, devnum, n);
    }

    /** _lun_rmcdev */
    method LunRmCdev(l: nat, devnum: nat)
      requires Valid() && l < |luntbl|
      modifies this`luntbl
      ensures Valid() && luntbl == old(luntbl)[l := DropDevice(old(luntbl)[l], fragtbl, devnum)]
    {
      hide Linked, NoSecondary, Dev;
      ghost var lun := luntbl[l];
      var fragnum := 0;
      while fragnum < |luntbl[l].fragmap|
        invariant |luntbl| == |old(luntbl)| && fragnum <= |luntbl[l].fragmap| == |lun.fragmap|
        invariant luntbl == old(luntbl)[l := lun.(fragmap := luntbl[l].fragmap)]
        invariant forall f :: 0 <= f < fragnum ==> luntbl[l].fragmap[f] == DropDesc(lun.fragmap[f], fragtbl, devnum)
        invariant forall f :: fragnum <= f < |lun.fragmap| ==> luntbl[l].fragmap[f] == lun.fragmap[f]
      {
        var fdesc := luntbl[l].fragmap[fragnum];
        if fdesc.mapped && devnum == Dev(fdesc.data) && fdesc.data in fragtbl {
          var nrMissed := fragtbl[fdesc.data].nrMiss;
          luntbl := luntbl[l := luntbl[l].(fragmap := luntbl[l].fragmap[fragnum := Heat(nrMissed)])];
        }
        fragnum := fragnum + 1;
      }
      assert luntbl[l] == DropDevice(lun, fragtbl, devnum);
    }

    /** The loop of sce_rmcdev over the LUNs. */
    method DropFromLuns(devnum: nat)
      requires Valid() && forall l :: 0 <= l < |luntbl| && !luntbl[l].present ==> luntbl[l].fragmap == []
      modifies this`luntbl
      ensures Valid() && |luntbl| == |old(luntbl)|
      ensures forall l :: 0 <= l < |luntbl| ==> luntbl[l] == DropDevice(old(luntbl)[l], fragtbl, devnum)
    {
      hide Linked, NoSecondary, DropDevice;
      var i := 0;
      while i < |luntbl|
        invariant i <= |luntbl| == |old(luntbl)|
        invariant forall l :: 0 <= l < i ==> luntbl[l] == DropDevice(old(luntbl)[l], fragtbl, devnum)
        invariant forall l :: i <= l < |luntbl| ==> luntbl[l] == old(luntbl)[l]
      {
        if luntbl[i].present {
          LunRmCdev(i, devnum);
        } else {
          NothingToDrop(luntbl[i], fragtbl, devnum);
        }
        i := i + 1;
      }
    }

    /** sce_rmcdev; the engine is sound afterwards exactly if no fragment of the device was in service. */
    method RmCdev(devnum: nat) returns (ok: bool)
      requires Ok()
      modifies this
      ensures Valid() && (View(), ok) == SceState.RmCdev(old(View()), devnum)
      ensures ok ==> (Ok() <==> DeviceIdle(old(View()), devnum))
    {
      hide Log.Contents, Linked, NoSecondary, Boundary, DeviceIdle, SceState.RmCdev;
      ghost var s := View();
      if devnum >= |cdevtbl| || !cdevtbl[devnum].present {
        RmCdevRefused(s, devnum);
        return false;
      }
      RemoveBoundary(s, devnum);
      RemoveDevice(devnum);
      ok := true;
    }

    /** sce_rmcdev for a device there is. */
    method RemoveDevice(devnum: nat)
      requires Ok() && devnum < |cdevtbl| && cdevtbl[devnum].present
      modifies this
      ensures Valid() && View() == SceState.RmCdev(old(View()), devnum).0
    {
      hide Log.Contents, Linked, NoSecondary, Boundary, Shape, Tables, DropDevice, Dev, OffDevice, SceState.RmCdev,
          NoDuplicates, OtherDevices;
      ghost var s := View();
      RemoveCounts(s, devnum);
      LinkedDistinct(next, freefraglist, nrFreefrag, free, fragtbl);
      BoundaryTables(s);
      EmptySlots(s);
      FreeFragListRmCdev(devnum);
      DropFromLuns(devnum);
      RmCdevIs(s, devnum, luntbl);
      DestroyDevice(devnum, s);
    }

    /** The end of sce_rmcdev: the counts, and the device's table freed. */
    method DestroyDevice(devnum: nat, ghost s: Sce)
      requires Valid() && devnum < |cdevtbl| && nrCdev > 0 && nrFrag >= cdevtbl[devnum].nrFrag
      requires free == OffDevice(s.free, devnum) && NoDuplicates(s.free)
      requires |OtherDevices(fragtbl, devnum)| == nrFrag - cdevtbl[devnum].nrFrag
      modifies this`cdevtbl, this`nrCdev, this`nrFrag, this`fragtbl, this`next
      ensures Valid() && cdevtbl == old(cdevtbl)[devnum := EMPTYCDEV]
      ensures nrCdev == old(nrCdev) - 1 && nrFrag == old(nrFrag) - old(cdevtbl)[devnum].nrFrag
      ensures fragtbl == OtherDevices(old(fragtbl), devnum)
    {
      hide Linked, NoSecondary, Dev, OffDevice, NoDuplicates, OtherDevices;
      FilterLinked(next, freefraglist, nrFreefrag, free, fragtbl, devnum, s.free);
      nrCdev := nrCdev - 1;
      nrFrag := nrFrag - cdevtbl[devnum].nrFrag;
      cdevtbl := cdevtbl[devnum := EMPTYCDEV];
      fragtbl := OtherDevices(fragtbl, devnum);
      next := map p | p in next && Dev(p) != devnum :: next[p];
    }

    /** sce_addlun */
    method AddLun(nrSctr: nat, lunctx: nat) returns (slot: Option<nat>)
      requires Valid()
      modifies this
      ensures Valid() && (View(), slot) == SceState.AddLun(old(View()), nrSctr, lunctx)
      ensures old(Ok()) ==> (Ok() <==> slot.None? || NewLunOk(old(View()), nrSctr, lunctx))
    {
      hide Log.Contents, Linked, NoSecondary, Boundary, NewLunOk;
      AddLunBoundary(View(), nrSctr, lunctx);
      slot := None;
      if nrSctr == 0 {
        return;
      }
      var l := 0;
      while l < |luntbl| && luntbl[l].present
        invariant l <= |luntbl| && FindLun(luntbl, l) == FindLun(luntbl, 0)
      {
        l := l + 1;
      }
      if l < |luntbl| {
        var nrFragmap := (nrSctr + SCTRPERFRAG - 1) / SCTRPERFRAG;
        luntbl := luntbl[l := Lun(true, lunctx, nrSctr, seq(nrFragmap, _ => FRESH), 0, false)];
        nrLun := nrLun + 1;
        slot := Some(l);
      }
    }

    /** sce_rmlun */
    method RmLun(l: nat) returns (ok: bool)
      requires Ok()
      modifies this
      ensures Ok() && (View(), ok) == SceState.RmLun(old(View()), l)
    {
      hide Log.Contents, Linked, NoSecondary, Boundary, Purge;
      RmLunBoundary(View(), l);
      ok := false;
      if l < |luntbl| && luntbl[l].present {
        if luntbl[l].nrService > 0 {
          luntbl := luntbl[l := luntbl[l].(waiting := true)];
          ok := true;
        } else {
          ok := LunPurge(l);
        }
      }
    }
  }

  // ----- a new device

  /** What vmalloc and memset leave in a fragment table entry: every byte 0x55. */
  const RAWFRAG := FRESHFRAG.(fragnum := 0x5555_5555)

  /** The tables with `n` entries of device `d` added, those from offset `k` on already listed. */
  function Filled(frags: map<nat, Frag>, d: nat, n: nat, k: nat): map<nat, Frag> {
    map p | p in frags.Keys + Clock.DeviceIds(d, n) :: if p in Clock.DeviceIds(d, n)
        then (if Off(p) >= k then FRESHFRAG else RAWFRAG) else frags[p]
  }

  function FreshLinks(next: map<nat, Word>, d: nat, n: nat): map<nat, Word> {
    map p | p in next.Keys + Clock.DeviceIds(d, n) :: if p in Clock.DeviceIds(d, n) then FRESH else next[p]
  }

  /** Only fragments of device `d` below offset `k` look mapped without being so. */
  ghost predicate OnlyFresh(next: map<nat, Word>, frags: map<nat, Frag>, d: nat, n: nat, k: nat) {
    forall p ::
      p in frags && p in next && frags[p].fragnum < UNLISTED && next[p] != ZERO ==>
        p in Clock.DeviceIds(d, n) && Off(p) < k
  }

  lemma NoneFresh(next: map<nat, Word>, frags: map<nat, Frag>, d: nat, n: nat)
    requires OnlyFresh(next, frags, d, n, 0)
    ensures NoSecondary(next, frags)
  {
  }

  lemma AddCases(s: Sce, nrSctr: nat, ctx: nat)
    requires Boundary(s)
    ensures |s.cdevs| == MAXCDEV
    ensures var d := FindCdev(s.cdevs, 0);
            SceState.AddCdev(s, nrSctr, ctx) ==
              if nrSctr == 0 || s.nrCdev >= MAXCDEV || CtxUsed(s, ctx) || d == |s.cdevs| ||
                  nrSctr < SCTRPERFRAG then (s, None)
              else (Plug(s, d, nrSctr / SCTRPERFRAG, ctx), Some(d))
  {
    hide Plug, Distinct, Tables, Links, FreeOk, FragsOk, Services, Deferred, NoDead;
  }

  lemma AddBoundary(s: Sce, nrSctr: nat, ctx: nat)
    requires Boundary(s) && nrSctr / SCTRPERFRAG <= OFFSPACE
    ensures Boundary(SceState.AddCdev(s, nrSctr, ctx).0)
  {
    hide Boundary;
    AddCdevKeeps(s, nrSctr, ctx);
  }

  lemma RmLunBoundary(s: Sce, l: nat)
    requires Boundary(s)
    ensures Boundary(SceState.RmLun(s, l).0)
  {
    hide Boundary;
    RmLunKeeps(s, l);
  }

  lemma RemoveBoundary(s: Sce, d: nat)
    requires Boundary(s) && d < |s.cdevs| && s.cdevs[d].present
    ensures var (s', ok) := SceState.RmCdev(s, d);
            ok && (Boundary(s') <==> DeviceIdle(s, d))
  {
    hide Boundary, DeviceIdle, Dev, OffDevice, DropDevice;
    RmCdevKeeps(s, d);
  }

  lemma RemoveCounts(s: Sce, d: nat)
    requires Boundary(s) && d < |s.cdevs| && s.cdevs[d].present
    ensures s.nrCdev > 0 && s.nrFrag >= s.cdevs[d].nrFrag && |OtherDevices(s.frags, d)| == s.nrFrag - s.cdevs[d].nrFrag
  {
    hide Boundary, DeviceIdle, Dev, OffDevice, DropDevice;
    RmCdevKeeps(s, d);
  }

  lemma RmCdevIs(s: Sce, d: nat, luns: seq<Lun>)
    requires d < |s.cdevs| && s.cdevs[d].present && s.nrCdev > 0 && s.nrFrag >= s.cdevs[d].nrFrag
    requires |luns| == |s.luns| && forall l :: 0 <= l < |luns| ==> luns[l] == DropDevice(s.luns[l], s.frags, d)
    ensures SceState.RmCdev(s, d) ==
      (s.(free := OffDevice(s.free, d), luns := luns, frags := OtherDevices(s.frags, d),
          nrCdev := s.nrCdev - 1, nrFrag := s.nrFrag - s.cdevs[d].nrFrag, cdevs := s.cdevs[d := EMPTYCDEV]), true)
  {
    hide DropDevice, OffDevice, Dev;
    assert SceState.RmCdev(s, d).0.luns == luns;
  }

  lemma RmCdevRefused(s: Sce, d: nat)
    requires d >= |s.cdevs| || !s.cdevs[d].present
    ensures SceState.RmCdev(s, d) == (s, false)
  {
  }

  /** The links and tables without device `d`. */
  lemma FilterLinked(next: map<nat, Word>, head: Word, count: nat, free: seq<nat>, frags: map<nat, Frag>, d: nat,
      free0: seq<nat>)
    requires Linked(next, head, count, free, frags) && free == OffDevice(free0, d) && NoDuplicates(free0)
    ensures var next' := map p | p in next && Dev(p) != d :: next[p];
            && Linked(next', head, count, free, OtherDevices(frags, d))
            && (NoSecondary(next, frags) ==> NoSecondary(next', OtherDevices(frags, d)))
  {
    hide Dev, OffDevice;
    FilterIs(free0, d);
    var next' := map p | p in next && Dev(p) != d :: next[p];
    ChainSame(next, next', head, free);
  }

  lemma LinkedDistinct(next: map<nat, Word>, head: Word, count: nat, free: seq<nat>, frags: map<nat, Frag>)
    requires Linked(next, head, count, free, frags)
    ensures NoDuplicates(free)
  {
  }

  lemma PlugIs(s: Sce, d: nat, n: nat, ctx: nat)
    requires Boundary(s) && d < MAXCDEV && !s.cdevs[d].present && 0 < n <= OFFSPACE
    ensures Plug(s, d, n, ctx) == s.(cdevs := s.cdevs[d := Cdev(true, ctx, n)], nrCdev := s.nrCdev + 1,
        nrFrag := s.nrFrag + n,
                                     frags := Filled(s.frags, d, n, 0), free := DevicePfids(d, n) + s.free)
    ensures |Filled(s.frags, d, n, n)| == s.nrFrag + n && |DevicePfids(d, n)| == n
    ensures forall p :: p in s.frags ==> Dev(p) != d
  {
    hide Boundary, Shape, Tables, Clock.DeviceIds, Dev, Off, DevicePfids, Filled;
    BoundaryTables(s);
    SlotRange(s);
    DeviceList(d, n);
    PlugFrags(s, d, n, ctx);
    PlugKeys(s, d, n, ctx);
    FilledIs(s.frags, d, n, Plug(s, d, n, ctx).frags);
  }

  lemma FilledIs(frags: map<nat, Frag>, d: nat, n: nat, plugged: map<nat, Frag>)
    requires plugged.Keys == frags.Keys + Clock.DeviceIds(d, n)
    requires forall p :: p in plugged ==> plugged[p] == if p in Clock.DeviceIds(d, n) then FRESHFRAG else frags[p]
    ensures Filled(frags, d, n, 0) == plugged && |Filled(frags, d, n, n)| == |plugged|
  {
    hide Clock.DeviceIds, Off;
    assert Filled(frags, d, n, n).Keys == plugged.Keys;
    SizeOfKeys(Filled(frags, d, n, n));
    SizeOfKeys(plugged);
  }

  lemma PlugStart(frags: map<nat, Frag>, d: nat, n: nat, next: map<nat, Word>, head: Word, count: nat, free: seq<nat>)
    requires Linked(next, head, count, free, frags) && NoSecondary(next, frags)
    requires forall p :: p in frags ==> Dev(p) != d
    ensures Linked(FreshLinks(next, d, n), head, count, free, Filled(frags, d, n, n))
    ensures OnlyFresh(FreshLinks(next, d, n), Filled(frags, d, n, n), d, n, n)
  {
    hide Dev, Off;
    ChainSame(next, FreshLinks(next, d, n), head, free);
  }

  /** The free list once the new fragments from offset `k` on are listed. */
  function ListFrom(d: nat, n: nat, k: nat, free: seq<nat>): seq<nat>
    requires k <= n
  {
    DevicePfids(d, n)[k..] + free
  }

  lemma ListStart(d: nat, n: nat, free: seq<nat>)
    ensures ListFrom(d, n, n, free) == free && ListFrom(d, n, 0, free) == DevicePfids(d, n) + free
  {
  }

  lemma ListNext(d: nat, n: nat, k: nat, free: seq<nat>)
    requires k < n
    ensures [Pfid(d, k)] + ListFrom(d, n, k + 1, free) == ListFrom(d, n, k, free)
  {
    hide Pfid;
    var ids := DevicePfids(d, n);
    assert ids[k..] == [Pfid(d, k)] + ids[k + 1..];
  }

  /** A new fragment is known by its offset. */
  lemma NewFragment(d: nat, n: nat, k: nat)
    requires k < n <= OFFSPACE && d < DEVSPACE
    ensures var p := Pfid(d, k);
            && p in Clock.DeviceIds(d, n) && Dev(p) == d && Off(p) == k && p < DATASPACE
            && forall q :: q in Clock.DeviceIds(d, n) && Off(q) == k ==> q == p
  {
    var p, ids := Pfid(d, k), DevicePfids(d, n);
    DeviceList(d, n);
    assert ids[k] == p && p in ids;
    hide Dev, Off, Clock.DeviceIds;
    forall q | q in Clock.DeviceIds(d, n) && Off(q) == k ensures q == p {
      var i :| 0 <= i < n && ids[i] == q;
    }
  }

  lemma FilledNext(frags: map<nat, Frag>, d: nat, n: nat, k: nat, p: nat)
    requires p in Clock.DeviceIds(d, n) && Off(p) == k && forall q :: q in Clock.DeviceIds(d, n) && Off(q) == k ==>
        q == p
    ensures var before := Filled(frags, d, n, k + 1);
            p in before && before[p] == RAWFRAG && Listed(before, p) == Filled(frags, d, n, k)
  {
    hide Off, Clock.DeviceIds;
    assert RAWFRAG.(fragnum := WITHINFREELIST) == FRESHFRAG;
  }

  /** Putting fragment `k` of the new device on the list. */
  lemma PutNext(frags: map<nat, Frag>, next: map<nat, Word>, head: Word, d: nat, n: nat, k: nat)
    requires k < n <= OFFSPACE && d < DEVSPACE
    ensures var p, before := Pfid(d, k), Filled(frags, d, n, k + 1);
            && p in before && before[p].fragnum != WITHINFREELIST && Listed(before, p) == Filled(frags, d, n, k)
            && p < DATASPACE
            && (OnlyFresh(next, before, d, n, k + 1) ==> OnlyFresh(next[p := head], Listed(before, p), d, n, k))
  {
    hide Dev, Off, Pfid, Clock.DeviceIds, Filled, OnlyFresh, Listed;
    NewFragment(d, n, k);
    FilledNext(frags, d, n, k, Pfid(d, k));
    if OnlyFresh(next, Filled(frags, d, n, k + 1), d, n, k + 1) {
      FreshNext(frags, next, head, d, n, k, Pfid(d, k));
    }
  }

  lemma FreshNext(frags: map<nat, Frag>, next: map<nat, Word>, head: Word, d: nat, n: nat, k: nat, p: nat)
    requires var before := Filled(frags, d, n, k + 1); p in before && OnlyFresh(next, before, d, n, k + 1)
    requires forall q :: q in Clock.DeviceIds(d, n) && Off(q) == k ==> q == p
    ensures OnlyFresh(next[p := head], Listed(Filled(frags, d, n, k + 1), p), d, n, k)
  {
    hide Filled, Clock.DeviceIds, Off;
  }

  lemma NothingToDrop(lun: Lun, frags: map<nat, Frag>, d: nat)
    requires lun.fragmap == []
    ensures DropDevice(lun, frags, d) == lun
  {
  }

  /** sce_fmap_t: where on which device a hit is to be read. */
  datatype Fmap = Fmap(cdevctx: nat, fragnum: nat)

  lemma EntryDevice(s: Sce, l: nat, f: nat)
    requires Boundary(s) && l < |s.luns| && f < |s.luns[l].fragmap| && s.luns[l].fragmap[f].mapped
    ensures Dev(s.luns[l].fragmap[f].data) < |s.cdevs|
  {
    EntryFacts(s, l, f);
    assert InDevice(s.cdevs, s.luns[l].fragmap[f].data);
  }

  lemma HitIsEntry(s: Sce, l: nat, f: nat, pages: set<nat>)
    requires l < |s.luns| && f < |s.luns[l].fragmap|
    requires s.luns[l].fragmap[f].mapped ==> s.luns[l].fragmap[f].data in s.frags
    ensures var (s', hit) := FragmentRead(s, l, f, pages);
            && s'.cdevs == s.cdevs
            && (hit.Some? ==> s.luns[l].fragmap[f].mapped && hit.value == s.luns[l].fragmap[f].data)
  {
  }

  /** sce_poptask_t */
  datatype Poptask = Poptask(lunctx: nat, cdevctx: nat, lunFragnum: nat, cdevFragnum: nat)

  /** The LUN with this context has a population on this fragment. */
  ghost predicate Outstanding(s: Sce, ctx: nat, f: nat) {
    exists l: nat, p: nat :: Populating(s, l, f, p) && s.luns[l].ctx == ctx
  }

  lemma OutstandingPut(s: Sce, ctx: nat, f: nat, failed: bool)
    requires Boundary(s)
    ensures var (s', ok) := SceState.Put4Pop(s, ctx, f, failed);
            Outstanding(s, ctx, f) ==> ok && Boundary(s')
  {
    hide Boundary, Core, Pins, Shrinks, Purged, Ready, SceState.Put4Pop;
    if Outstanding(s, ctx, f) {
      var l: nat, p: nat :| Populating(s, l, f, p) && s.luns[l].ctx == ctx;
      Put4PopKeeps(s, l, f, p, failed);
    }
  }

  lemma AddLunBoundary(s: Sce, nrSctr: nat, ctx: nat)
    ensures var (s', got) := SceState.AddLun(s, nrSctr, ctx);
            Boundary(s) ==> (Boundary(s') <==> got.None? || NewLunOk(s, nrSctr, ctx))
  {
    hide Boundary, NewLunOk, SceState.AddLun;
    if Boundary(s) {
      AddLunKeeps(s, nrSctr, ctx);
    }
  }

  lemma ScanReads(s: Sce)
    requires LogBounds.ScanInside(s)
    ensures forall i :: 0 <= i < Window(s.luns, s.log, 0) ==> InBounds(s.luns, s.log[i])
  {
    assert forall i: nat :: i < Window(s.luns, s.log, 0) ==> LogBounds.Scanned(s.luns, s.log, i);
  }

  lemma AllocatedWhere(s: Sce, l: nat, f: nat)
    requires Boundary(s)
    ensures var (s', got) := Alloc(s, l, f);
            got.Some? ==> l < |s'.luns| && Dev(got.value) < |s'.cdevs|
  {
    hide Core, Deferred, NoDead, Reclaim, MapHead, Shrinks, SameTables;
    AllocKeeps(s, l, f);
    var (s', got) := Alloc(s, l, f);
    if got.Some? {
      HeadDevice(Reclaim(s).0);
      MapHeadTables(Reclaim(s).0, l, f);
    }
  }

  lemma HeadDevice(s: Sce)
    requires Core(s) && s.free != []
    ensures Dev(s.free[0]) < |s.cdevs|
  {
    assert s.free[0] in s.free;
    assert InDevice(s.cdevs, s.free[0]);
  }

  lemma MapHeadTables(s: Sce, l: nat, f: nat)
    requires CanMap(s, l, f)
    ensures MapHead(s, l, f).cdevs == s.cdevs && |MapHead(s, l, f).luns| == |s.luns|
  {
  }

  lemma CancelCases(s: Sce, l: nat, f: nat)
    ensures var able := IsMapped(s, l, f) && s.luns[l].fragmap[f].data in s.frags;
            if able && !s.luns[l].fragmap[f].valid && s.frags[s.luns[l].fragmap[f].data].nrService == 1 then
              var p := s.luns[l].fragmap[f].data;
              var s1 := Unmap(SetFrag(s, p, s.frags[p].(nrService := 0)), l, f);
              && l < |s1.luns| && p in s1.frags
              && Cancel(s, l, f) == (Gc(SetService(s1, l, Dec32(s1.luns[l].nrService)), l, p), true)
            else Cancel(s, l, f) == (s, false)
  {
    hide Unmap, Gc;
    if IsMapped(s, l, f) && s.luns[l].fragmap[f].data in s.frags {
      var p := s.luns[l].fragmap[f].data;
      UnmapLengths(SetFrag(s, p, s.frags[p].(nrService := 0)), l, f);
      UnmapKeepsKeys(SetFrag(s, p, s.frags[p].(nrService := 0)), l, f);
    }
  }

  lemma UnmapKeepsKeys(s: Sce, l: nat, f: nat)
    ensures Unmap(s, l, f).frags.Keys == s.frags.Keys
  {
  }

  lemma NoLink(next: map<nat, Word>, head: Word, count: nat, free: seq<nat>, frags: map<nat, Frag>, p: nat)
    requires Linked(next, head, count, free, frags) && NoSecondary(next, frags)
    requires p in frags && frags[p].fragnum < UNLISTED
    ensures p in next && next[p] == ZERO
  {
  }

  lemma SameTablesLun(s: Sce, s1: Sce, l: nat)
    requires SameTables(s, s1) && l < |s.luns|
    ensures |s1.luns| == |s.luns| && |s1.luns[l].fragmap| == |s.luns[l].fragmap| &&
        s1.luns[l].present == s.luns[l].present
  {
  }

  lemma TakenShape(s: Sce, p: nat, free: seq<nat>)
    requires Shape(s) && p in s.frags
    ensures Shape(s.(frags := Taken(s.frags, p), free := free)) && Taken(s.frags, p).Keys == s.frags.Keys
    ensures Taken(s.frags, p)[p].fragnum == UNLISTED
  {
  }

  /** Mapping the fragment taken and counting the service amounts to MapHead. */
  lemma MapHeadIs(s: Sce, l: nat, f: nat, free: seq<nat>, t: Sce)
    requires CanMap(s, l, f) && s.free == [s.free[0]] + free
    requires var p, tail := s.free[0], TailCount(s.luns[l].nrSctr, |s.luns[l].fragmap|, f);
             && p in s.frags && tail <= PAGEPERFRAG
             && t == s.(free := free, frags := t.frags, luns := t.luns)
             && t.luns == SetService(SetDesc(s, l, f, Word(true, false, 0, p)), l, s.luns[l].nrService + 1).luns
             && t.frags == Taken(s.frags, p)[p := NewFrag(l, f, tail).(nrService := 0)][p :=
                 NewFrag(l, f, tail).(nrService := 1)]
    ensures t == MapHead(s, l, f)
  {
    hide TailCount;
    var p, tail := s.free[0], TailCount(s.luns[l].nrSctr, |s.luns[l].fragmap|, f);
    assert NewFrag(l, f, tail).(nrService := 1) == NewFrag(l, f, tail);
    assert t.frags == s.frags[p := NewFrag(l, f, tail)];
  }

  /** A fragment taken and put back is as it was. */
  lemma PutBack(frags: map<nat, Frag>, p: nat)
    requires p in frags && frags[p].fragnum == WITHINFREELIST
    ensures Taken(frags, p).Keys == frags.Keys && Listed(Taken(frags, p), p) == frags
  {
  }

  lemma GetBoundary(s: Sce, l: nat, sctr: nat, n: nat)
    requires Boundary(s)
    ensures Boundary(SceState.Get4Read(s, l, sctr, n).0)
  {
    hide Boundary;
    Get4ReadKeeps(s, l, sctr, n);
  }

  /** The loop sce_invalidate runs, and that it stays inside the map. */
  lemma InvalidateCases(s: Sce, l: nat, sctr: nat, n: nat)
    requires Boundary(s)
    ensures if l < |s.luns| && s.luns[l].present && !s.luns[l].waiting && n > 0 && sctr + n <= s.luns[l].nrSctr then
      var start, end := sctr / SCTRPERPAGE, (sctr + n - 1) / SCTRPERPAGE;
      && start <= end && end / PAGEPERFRAG < |s.luns[l].fragmap|
      && SceState.Invalidate(s, l, sctr, n) ==
           (InvalidateFrom(s, l, start / PAGEPERFRAG, start % PAGEPERFRAG, end - start + 1), true)
      else SceState.Invalidate(s, l, sctr, n) == (s, false)
  {
    hide Boundary, Shape, InvalidateFrom;
    BoundaryTables(s);
    if Admits(s, l, sctr, n, true) {
      InRange(s, l, sctr, n, true);
    }
  }

  lemma PutBoundary(s: Sce, l: nat, sctr: nat, n: nat)
    requires Boundary(s)
    ensures Boundary(SceState.Put4Read(s, l, sctr, n).0)
  {
    hide Boundary;
    Put4ReadKeeps(s, l, sctr, n);
  }

  lemma ReclaimBoundary(s: Sce)
    requires Boundary(s)
    ensures Boundary(Reclaim(s).0) && (Reclaim(s).1 <==> Reclaim(s).0.free != [])
  {
    hide Boundary, Shrinks, SameTables, Reclaim;
    ReclaimKeeps(s);
  }

  lemma ReclaimCases(s: Sce)
    ensures s.free != [] ==> Reclaim(s) == (s, true)
    ensures s.free == [] ==>
      var (s1, ok) := SceState.Evict(s);
      Reclaim(s) == (if ok then s1.(nrEviction := s1.nrEviction + 1) else s1, ok)
  {
  }

  lemma PagesInside(first: nat, count: nat)
    requires first + count <= PAGEPERFRAG
    ensures forall q :: q in PageRange(first, count) ==> q < PAGEPERFRAG
  {
  }

  /** A valid count cannot underflow. */
  lemma RoomForPages(invalid: set<nat>, pages: set<nat>)
    requires forall q :: q in invalid || q in pages ==> q < PAGEPERFRAG
    ensures |pages - invalid| <= PAGEPERFRAG - |invalid|
  {
    FewPages(invalid + pages);
    assert invalid + pages == invalid + (pages - invalid);
  }

  lemma UnmapLengths(s: Sce, l: nat, f: nat)
    ensures var s' := Unmap(s, l, f);
            && |s'.luns| == |s.luns| && s'.nrLun == s.nrLun
            && forall m :: 0 <= m < |s.luns| ==> |s'.luns[m].fragmap| == |s.luns[m].fragmap|
  {
  }

  /** What _frag_init and the tail invalidation leave. */
  lemma NewFragTail(nrSctr: nat, l: nat, f: nat, n: nat)
    requires TailCount(nrSctr, n, f) <= PAGEPERFRAG
    ensures var tail, fr := TailCount(nrSctr, n, f), Frag(0, 0, {}, PAGEPERFRAG, 0, 0, 0, 0);
            && tail == (if f + 1 == n && nrSctr < n * SCTRPERFRAG
                then (n * SCTRPERFRAG - nrSctr + SCTRPERPAGE - 1) / SCTRPERPAGE else 0)
            && |PageRange(PAGEPERFRAG - tail, tail) - fr.invalid| <= fr.nrValid
            && NewFrag(l, f, tail).(nrService := 0) ==
               (if tail == 0 then fr else InvalidatePages(fr, PageRange(PAGEPERFRAG - tail, tail))).(lunidx := l,
                   fragnum := f)
  {
    var tail := TailCount(nrSctr, n, f);
    RangeSize(PAGEPERFRAG - tail, tail);
    assert PageRange(PAGEPERFRAG - tail, tail) - {} == PageRange(PAGEPERFRAG - tail, tail);
    if tail == 0 {
      assert PageRange(PAGEPERFRAG, 0) == {};
    }
  }
}
