// Miss counts: kept in the descriptor while an entry is unmapped and in the fragment while it is mapped.

module Heat {
  import opened Words
  import opened SceState
  import opened Invariants
  import opened Requests
  import opened Population
  import opened Configuration
  import Preservation
  import System

  /** The miss count of an entry, wherever it is kept; a descriptor has 28 bits for it. */
  function MissCount(s: Sce, l: nat, f: nat): nat {
    if !IsEntry(s, l, f) then 0 else
      var d := s.luns[l].fragmap[f];
      if !d.mapped then d.data else if d.data in s.frags then s.frags[d.data].nrMiss % DATASPACE else 0
  }

  predicate IsEntry(s: Sce, l: nat, f: nat) { l < |s.luns| && f < |s.luns[l].fragmap| }

  /** Every entry that is left has the count it had; entries go only with their whole LUN. */
  ghost predicate CountsKept(s: Sce, s': Sce) {
    && |s'.luns| == |s.luns|
    && (forall l: nat ::
            l < |s.luns| && s'.luns[l].present ==> |s'.luns[l].fragmap| == |s.luns[l].fragmap| && s.luns[l].present)
    && (forall l: nat, f: nat :: IsEntry(s', l, f) ==> IsEntry(s, l, f) && MissCount(s', l, f) == MissCount(s, l, f))
  }

  lemma CountsTwice(s: Sce, s1: Sce, s2: Sce)
    requires CountsKept(s, s1) && CountsKept(s1, s2)
    ensures CountsKept(s, s2)
  {
    hide MissCount;
    forall l: nat, f: nat | IsEntry(s2, l, f) ensures IsEntry(s, l, f) && MissCount(s2, l, f) == MissCount(s, l, f) {
      assert IsEntry(s1, l, f);
    }
  }

  // ----- the calls that keep all counts

  /** Dropping a mapping moves the fragment's count into the descriptor. */
  lemma UnmapCounts(s: Sce, l: nat, f: nat)
    ensures CountsKept(s, Unmap(s, l, f))
  {
  }

  lemma {:induction false} UnmapUpToCounts(s: Sce, l: nat, n: nat)
    ensures CountsKept(s, UnmapUpTo(s, l, n))
  {
    hide Unmap, CountsKept;
    if n > 0 {
      UnmapUpToCounts(s, l, n - 1);
      UnmapCounts(UnmapUpTo(s, l, n - 1), l, n - 1);
      CountsTwice(s, UnmapUpTo(s, l, n - 1), UnmapUpTo(s, l, n));
    } else {
      CountsSelf(s);
    }
  }

  lemma CountsSelf(s: Sce)
    ensures CountsKept(s, s)
  {
  }

  lemma PurgeCounts(s: Sce, l: nat)
    ensures CountsKept(s, Purge(s, l).0)
  {
    hide UnmapUpTo;
    if Purge(s, l).1 {
      var s1 := UnmapUpTo(s, l, |s.luns[l].fragmap|);
      UnmapUpToCounts(s, l, |s.luns[l].fragmap|);
      CountsTwice(s, s1, Purge(s, l).0);
    }
  }

  lemma GcCounts(s: Sce, l: nat, p: nat)
    requires p in s.frags && l < |s.luns|
    ensures CountsKept(s, Gc(s, l, p))
  {
    hide Unmap, Purge, CountsKept;
    var fr := s.frags[p];
    var s1 := if fr.nrService == 0 && fr.nrValid == 0 then Unmap(s, l, fr.fragnum) else s;
    CountsSelf(s);
    UnmapCounts(s, l, fr.fragnum);
    PurgeCounts(s1, l);
    CountsTwice(s, s1, Purge(s1, l).0);
  }

  /** Same descriptors up to the valid bit, same fragments up to everything but the miss count. */
  lemma AdjustCounts(s: Sce, s': Sce)
    requires |s'.luns| == |s.luns| && s'.frags.Keys == s.frags.Keys
    requires forall l: nat ::
        l < |s.luns| ==> s'.luns[l].present == s.luns[l].present && |s'.luns[l].fragmap| == |s.luns[l].fragmap|
    requires forall l: nat, f: nat :: IsEntry(s, l, f) ==>
      s'.luns[l].fragmap[f].mapped == s.luns[l].fragmap[f].mapped &&
          s'.luns[l].fragmap[f].data == s.luns[l].fragmap[f].data
    requires forall p :: p in s.frags ==> s'.frags[p].nrMiss == s.frags[p].nrMiss
    ensures CountsKept(s, s')
  {
  }

  lemma {:induction false} EvictLoopCounts(s: Sce, i: nat)
    ensures CountsKept(s, EvictLoop(s, i).0)
    decreases i
  {
    hide Unmap, CountsKept;
    CountsSelf(s);
    if i > 0 {
      var (s1, at) := Advance(s);
      AdjustCounts(s, s1);
      if at.Some? && at.value in s.frags {
        var fr := s.frags[at.value];
        if !Idle(fr) {
          EvictLoopCounts(s1, i - 1);
          CountsTwice(s, s1, EvictLoop(s, i).0);
        } else if fr.nrRef == 0 {
          UnmapCounts(s1, fr.lunidx, fr.fragnum);
          CountsTwice(s, s1, EvictLoop(s, i).0);
        } else {
          var s2 := SetFrag(s1, at.value, fr.(nrRef := fr.nrRef - 1));
          AdjustCounts(s, s2);
          EvictLoopCounts(s2, i - 1);
          CountsTwice(s, s2, EvictLoop(s, i).0);
        }
      }
    }
  }

  /** Evictions forget no miss: the entry of the victim keeps its count. */
  lemma ReclaimCounts(s: Sce)
    ensures CountsKept(s, Reclaim(s).0)
  {
    hide EvictLoop, CountsKept;
    CountsSelf(s);
    EvictLoopCounts(s, s.nrFrag * REFCEILING);
    if s.free == [] && Evict(s).1 {
      AdjustCounts(Evict(s).0, Reclaim(s).0);
      CountsTwice(s, Evict(s).0, Reclaim(s).0);
    }
  }

  lemma Put4ReadCounts(s: Sce, l: nat, sctr: nat, n: nat)
    ensures CountsKept(s, Put4Read(s, l, sctr, n).0)
  {
    hide Gc, CountsKept;
    CountsSelf(s);
    if Put4Read(s, l, sctr, n).1 {
      var p := s.luns[l].fragmap[sctr / SCTRPERFRAG].data;
      var fr := s.frags[p];
      var s1 := SetService(SetFrag(s, p, fr.(nrService := fr.nrService - 1)), l, s.luns[l].nrService - 1);
      AdjustCounts(s, s1);
      GcCounts(s1, l, p);
      CountsTwice(s, s1, Gc(s1, l, p));
    }
  }

  lemma InvalidateOneCounts(s: Sce, l: nat, f: nat, pages: set<nat>)
    ensures CountsKept(s, InvalidateOne(s, l, f, pages))
  {
    hide Gc, CountsKept;
    CountsSelf(s);
    if IsMapped(s, l, f) && s.luns[l].fragmap[f].data in s.frags {
      var p := s.luns[l].fragmap[f].data;
      var s1 := SetFrag(s, p, InvalidatePages(s.frags[p], pages));
      AdjustCounts(s, s1);
      GcCounts(s1, l, p);
      CountsTwice(s, s1, Gc(s1, l, p));
    }
  }

  lemma {:induction false} InvalidateCounts(s: Sce, l: nat, f: nat, off: nat, count: nat)
    requires off < PAGEPERFRAG
    ensures CountsKept(s, InvalidateFrom(s, l, f, off, count))
    decreases count
  {
    hide InvalidateOne, CountsKept;
    CountsSelf(s);
    if count > 0 {
      var n := if PAGEPERFRAG - off > count then count else PAGEPERFRAG - off;
      var s1 := InvalidateOne(s, l, f, PageRange(off, n));
      InvalidateOneCounts(s, l, f, PageRange(off, n));
      InvalidateCounts(s1, l, f + 1, 0, count - n);
      CountsTwice(s, s1, InvalidateFrom(s, l, f, off, count));
    }
  }

  lemma CompleteCounts(s: Sce, l: nat, f: nat)
    ensures CountsKept(s, Complete(s, l, f).0)
  {
    hide Gc, CountsKept;
    CountsSelf(s);
    if Complete(s, l, f).1 {
      var d := s.luns[l].fragmap[f];
      var fr := s.frags[d.data];
      var s1 := if d.valid then s else SetFrag(SetDesc(s, l, f, d.(valid := true)), d.data, fr.(nrService := 0));
      var s2 := SetService(s1, l, Dec32(s.luns[l].nrService));
      AdjustCounts(s, s2);
      GcCounts(s2, l, d.data);
      CountsTwice(s, s2, Gc(s2, l, d.data));
    }
  }

  /** Misses during a population that is cancelled are not lost either. */
  lemma CancelCounts(s: Sce, l: nat, f: nat)
    ensures CountsKept(s, Cancel(s, l, f).0)
  {
    hide Gc, Unmap, CountsKept;
    CountsSelf(s);
    if IsMapped(s, l, f) && s.luns[l].fragmap[f].data in s.frags {
      var d := s.luns[l].fragmap[f];
      var s0 := SetFrag(s, d.data, s.frags[d.data].(nrService := 0));
      var s1 := Unmap(s0, l, f);
      AdjustCounts(s, s0);
      UnmapCounts(s0, l, f);
      CountsTwice(s, s0, s1);
      if l < |s1.luns| && d.data in s1.frags {
        var s2 := SetService(s1, l, Dec32(s1.luns[l].nrService));
        AdjustCounts(s1, s2);
        CountsTwice(s, s1, s2);
        GcCounts(s2, l, d.data);
        CountsTwice(s, s2, Gc(s2, l, d.data));
      }
    }
  }

  lemma RmLunCounts(s: Sce, l: nat)
    ensures CountsKept(s, RmLun(s, l).0)
  {
    hide Purge, CountsKept;
    CountsSelf(s);
    PurgeCounts(s, l);
    if RmLun(s, l).1 && s.luns[l].nrService > 0 {
      AdjustCounts(s, RmLun(s, l).0);
    }
  }

  lemma RmCdevCounts(s: Sce, d: nat)
    ensures CountsKept(s, RmCdev(s, d).0)
  {
    hide Dev;
  }

  lemma AddCdevCounts(s: Sce, nrSctr: nat, ctx: nat)
    requires Boundary(s) && nrSctr / SCTRPERFRAG <= OFFSPACE
    ensures CountsKept(s, AddCdev(s, nrSctr, ctx).0)
  {
    hide Shape, Distinct, Tables, FreeOk, FragsOk, Services, Deferred, NoDead, AddCdev, DevicePfids, CtxUsed,
        Preservation.Shrinks;
    CountsSelf(s);
    AddCdevKeeps(s, nrSctr, ctx);
    var (s', got) := AddCdev(s, nrSctr, ctx);
    if got.Some? {
      forall l: nat, f: nat | IsEntry(s', l, f) ensures MissCount(s', l, f) == MissCount(s, l, f) {
        if s.luns[l].fragmap[f].mapped {
          assert MappedTo(s, l, f, s.luns[l].fragmap[f].data);
        }
      }
    }
  }

  // ----- the calls that change one count

  /** Every entry but `f` of LUN `l` keeps its count. */
  ghost predicate OthersKept(s: Sce, s': Sce, l: nat, f: nat) {
    && |s'.luns| == |s.luns|
    && (forall m: nat :: m < |s.luns| ==> |s'.luns[m].fragmap| == |s.luns[m].fragmap|)
    && (forall m: nat, g: nat :: IsEntry(s, m, g) && !(m == l && g == f) ==> MissCount(s', m, g) == MissCount(s, m, g))
  }

  /** A read that is looked up is either a hit, which counts as one and leaves every miss count, or a miss, which
      counts as one, goes to the front of the log and adds one to the count of its entry, mapped or not. */
  lemma ReadCountsOne(s: Sce, l: nat, sctr: nat, n: nat)
    requires Boundary(s) && Admits(s, l, sctr, n, true) && OneFragment(sctr, n)
    ensures var (s', hit) := Get4Read(s, l, sctr, n);
            var f := FirstPage(sctr) / PAGEPERFRAG;
            && IsEntry(s, l, f) && OthersKept(s, s', l, f)
            && (hit.Some? ==>
                    s'.nrHit == s.nrHit + 1 && s'.nrMiss == s.nrMiss && s'.log == s.log
                    && MissCount(s', l, f) == MissCount(s, l, f))
            && (hit.None? ==>
                    s'.nrHit == s.nrHit && s'.nrMiss == s.nrMiss + 1 && s'.log == LogPut(s.log, LogEntry(l, f))
                              && MissCount(s', l, f) == (MissCount(s, l, f) + 1) % DATASPACE)
  {
    hide Boundary, MissCount, OthersKept, LogPut, FragmentRead, Get4Read, PageRange;
    ReadCases(s, l, sctr, n);
    var f := FirstPage(sctr) / PAGEPERFRAG;
    BoundaryParts(s);
    FragmentCounts(s, l, f, PageRange(FirstPage(sctr) % PAGEPERFRAG, LastPage(sctr, n) - FirstPage(sctr) + 1));
  }

  lemma FragmentCounts(s: Sce, l: nat, f: nat, pages: set<nat>)
    requires Links(s) && IsEntry(s, l, f) && (s.luns[l].fragmap[f].mapped ==> s.luns[l].fragmap[f].data in s.frags)
    ensures var (s', hit) := FragmentRead(s, l, f, pages);
            && OthersKept(s, s', l, f)
            && (hit.Some? ==>
                    s'.nrHit == s.nrHit + 1 && s'.nrMiss == s.nrMiss && s'.log == s.log
                    && MissCount(s', l, f) == MissCount(s, l, f))
            && (hit.None? ==>
                    s'.nrHit == s.nrHit && s'.nrMiss == s.nrMiss + 1 && s'.log == LogPut(s.log, LogEntry(l, f))
                              && MissCount(s', l, f) == (MissCount(s, l, f) + 1) % DATASPACE)
  {
    hide Links, LogPut;
    var s' := FragmentRead(s, l, f, pages).0;
    if s.luns[l].fragmap[f].mapped {
      ModWraps(s.frags[s.luns[l].fragmap[f].data].nrMiss);
      OneEntry(s, l, f);
      forall m: nat, g: nat | IsEntry(s, m, g) && !(m == l && g == f)
          ensures MissCount(s', m, g) == MissCount(s, m, g) {
        assert s.luns[m].fragmap[g].mapped ==> MappedTo(s, m, g, s.luns[m].fragmap[g].data);
      }
    }
  }

  lemma OneEntry(s: Sce, l: nat, f: nat)
    requires Links(s) && IsEntry(s, l, f) && s.luns[l].fragmap[f].mapped
    ensures forall m: nat, g: nat :: MappedTo(s, m, g, s.luns[l].fragmap[f].data) ==> m == l && g == f
  {
    assert MappedTo(s, l, f, s.luns[l].fragmap[f].data);
  }

  lemma ModWraps(x: nat)
    ensures (x + 1) % DATASPACE == (x % DATASPACE + 1) % DATASPACE
  {
  }

  /** A population starts its entry's count at zero and keeps all others, evictions included. */
  lemma AllocCounts(s: Sce, l: nat, f: nat)
    requires Boundary(s)
    ensures var (s', got) := Alloc(s, l, f);
            && (got.None? ==> CountsKept(s, s'))
            && (got.Some? ==> IsEntry(s', l, f) && MissCount(s', l, f) == 0
                              && forall m: nat, g: nat :: IsEntry(s', m, g) && !(m == l && g == f) ==>
                                   IsEntry(s, m, g) && MissCount(s', m, g) == MissCount(s, m, g))
  {
    hide Core, Deferred, NoDead, Reclaim, MapHead, Preservation.Shrinks, SameTables, CanMap, CountsKept, MissCount;
    AllocKeeps(s, l, f);
    ReclaimCounts(s);
    CountsSelf(s);
    var s1 := Reclaim(s).0;
    if Alloc(s, l, f).1.Some? {
      MapCounts(s1, l, f);
      KeptEntries(s, s1);
    }
  }

  lemma KeptEntries(s: Sce, s1: Sce)
    requires CountsKept(s, s1)
    ensures forall m: nat, g: nat :: IsEntry(s1, m, g) ==> IsEntry(s, m, g) && MissCount(s1, m, g) == MissCount(s, m, g)
  {
  }

  lemma MapCounts(s: Sce, l: nat, f: nat)
    requires Core(s) && CanMap(s, l, f)
    ensures var s' := MapHead(s, l, f);
            && IsEntry(s', l, f) && MissCount(s', l, f) == 0
            && forall m: nat, g: nat :: IsEntry(s', m, g) && !(m == l && g == f) ==>
                IsEntry(s, m, g) && MissCount(s', m, g) == MissCount(s, m, g)
  {
    hide Shape, Distinct, Tables, FragsOk, Services, TailCount;
    var p := s.free[0];
    assert p in s.free;
    forall m: nat, g: nat ensures !MappedTo(s, m, g, p) {
      if MappedTo(s, m, g, p) {
        SmallLun(s, m);
      }
    }
    forall m: nat, g: nat | IsEntry(s, m, g) && s.luns[m].fragmap[g].mapped ensures s.luns[m].fragmap[g].data != p {
      assert MappedTo(s, m, g, s.luns[m].fragmap[g].data);
    }
  }

  // ----- steps

  /** The miss count an event leaves: one more for a read that misses this entry, zero for a population that maps it. */
  function CountAfter(s: Sce, e: System.Event, l: nat, f: nat): nat {
    match e
    case EvGet(_, m, sctr, n) =>
      if m == l && Admits(s, m, sctr, n, true) && OneFragment(sctr, n) && FirstPage(sctr) / PAGEPERFRAG == f &&
          Get4Read(s, m, sctr, n).1.None?
      then (MissCount(s, l, f) + 1) % DATASPACE else MissCount(s, l, f)
    case EvGetPop(_, m, g) => if m == l && g == f && Alloc(s, m, g).1.Some? then 0 else MissCount(s, l, f)
    case _ => MissCount(s, l, f)
  }

  /** Conservation of miss counts: evictions, invalidations, cancelled populations, removed devices and deletions of
      other LUNs change none. */
  lemma StepCounts(s: System.Sys, e: System.Event, t: System.Sys, l: nat, f: nat)
    requires System.Inv(s) && System.Next(s, e, t)
    requires IsEntry(t.sce, l, f) && l < |s.sce.luns| && s.sce.luns[l].present
    ensures IsEntry(s.sce, l, f) && MissCount(t.sce, l, f) == CountAfter(s.sce, e, l, f)
  {
    hide AddLun, RmLun, AddCdev, RmCdev, Get4Read, Put4Read, Invalidate, Alloc, Put4Pop, MissCount, IsEntry,
        CountsKept, OneFragment,
         Boundary, System.Tokens, System.Snapshot, System.SameBut, System.SameElsewhere, System.Filled, NewLunOk,
             DeviceIdle, BeyondEnd, Admits;
    match e {
      case EvAddLun(nrSctr, ctx) => AddLunCounts(s.sce, nrSctr, ctx, l, f);
      case EvRmLun(m) => RmLunCounts(s.sce, m); KeptEntry(s.sce, t.sce, l, f);
      case EvAddCdev(nrSctr, ctx) => AddCdevCounts(s.sce, nrSctr, ctx); KeptEntry(s.sce, t.sce, l, f);
      case EvRmCdev(d) => RmCdevCounts(s.sce, d); KeptEntry(s.sce, t.sce, l, f);
      case EvGet(id, m, sctr, n) => GetCounts(s.sce, m, sctr, n, l, f);
      case EvPut(id) =>
        Put4ReadCounts(s.sce, s.inflight[id].lun, s.inflight[id].sctr, s.inflight[id].n);
        KeptEntry(s.sce, t.sce, l, f);
      case EvWrite(m, sctr, n) => InvalidateCallCounts(s.sce, m, sctr, n); KeptEntry(s.sce, t.sce, l, f);
      case EvGetPop(id, m, g) => GetPopCounts(s.sce, m, g, l, f);
      case EvPutPop(id, failed) => Put4PopCounts(s.sce, s.pops[id].ctx, s.pops[id].fragnum, failed);
          KeptEntry(s.sce, t.sce, l, f);
      case _ =>
    }
  }

  lemma KeptEntry(s: Sce, s': Sce, l: nat, f: nat)
    requires CountsKept(s, s') && IsEntry(s', l, f)
    ensures IsEntry(s, l, f) && MissCount(s', l, f) == MissCount(s, l, f)
  {
  }

  lemma AddLunCounts(s: Sce, nrSctr: nat, ctx: nat, l: nat, f: nat)
    requires var s' := AddLun(s, nrSctr, ctx).0; IsEntry(s', l, f) && l < |s.luns| && s.luns[l].present
    ensures IsEntry(s, l, f) && MissCount(AddLun(s, nrSctr, ctx).0, l, f) == MissCount(s, l, f)
  {
  }

  lemma GetCounts(s: Sce, m: nat, sctr: nat, n: nat, l: nat, f: nat)
    requires Boundary(s) && IsEntry(Get4Read(s, m, sctr, n).0, l, f)
    ensures IsEntry(s, l, f)
    ensures MissCount(Get4Read(s, m, sctr, n).0, l, f) ==
            if m == l && Admits(s, m, sctr, n, true) && OneFragment(sctr, n) && FirstPage(sctr) / PAGEPERFRAG == f &&
                Get4Read(s, m, sctr, n).1.None?
            then (MissCount(s, l, f) + 1) % DATASPACE else MissCount(s, l, f)
  {
    hide Boundary, MissCount, OneFragment;
    if Admits(s, m, sctr, n, true) && OneFragment(sctr, n) {
      ReadCountsOne(s, m, sctr, n);
      hide Get4Read;
    }
  }

  lemma GetPopCounts(s: Sce, m: nat, g: nat, l: nat, f: nat)
    requires Boundary(s) && IsEntry(Alloc(s, m, g).0, l, f)
    ensures IsEntry(s, l, f)
    ensures MissCount(Alloc(s, m, g).0, l, f) == if m == l && g == f && Alloc(s, m, g).1.Some? then 0
        else MissCount(s, l, f)
  {
    hide Boundary, MissCount, Alloc, Reclaim, CanMap, MapHead, Preservation.Shrinks, SameTables, CountsKept, IsEntry;
    AllocCounts(s, m, g);
    if Alloc(s, m, g).1.None? {
      KeptEntry(s, Alloc(s, m, g).0, l, f);
    } else if m == l && g == f {
      AllocEntry(s, l, f);
    }
  }

  lemma AllocEntry(s: Sce, l: nat, f: nat)
    requires Alloc(s, l, f).1.Some?
    ensures IsEntry(s, l, f)
  {
    hide Reclaim;
  }

  lemma InvalidateCallCounts(s: Sce, l: nat, sctr: nat, n: nat)
    ensures CountsKept(s, Invalidate(s, l, sctr, n).0)
  {
    hide InvalidateFrom, CountsKept;
    CountsSelf(s);
    if Admits(s, l, sctr, n, true) {
      var start := FirstPage(sctr);
      InvalidateCounts(s, l, start / PAGEPERFRAG, start % PAGEPERFRAG, LastPage(sctr, n) - start + 1);
    }
  }

  lemma Put4PopCounts(s: Sce, ctx: nat, f: nat, failed: bool)
    ensures CountsKept(s, Put4Pop(s, ctx, f, failed).0)
  {
    hide Cancel, Complete, CountsKept;
    CountsSelf(s);
    var l := LunSearch(s.luns, ctx, 0);
    if l.Some? {
      CancelCounts(s, l.value, f);
      CompleteCounts(s, l.value, f);
    }
  }
}
