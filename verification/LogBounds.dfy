// When the entries of the miss log stay inside the fragment maps of their LUNs.

module LogBounds {
  import opened Words
  import opened SceState
  import opened MissLog
  import Configuration
  import System
  import Coherence

  /** Entry `k` is read by the scan. */
  predicate Scanned(luns: seq<Lun>, log: seq<LogEntry>, k: nat) { k < Window(luns, log, 0) }

  /** The scan of _choose4population stays inside the maps. */
  ghost predicate ScanInside(s: Sce) {
    forall k: nat :: Scanned(s.luns, s.log, k) ==> InBounds(s.luns, s.log[k])
  }

  /** Every miss among the newest 100 of a LUN that can be served lies inside its fragment map. */
  ghost predicate LogInBounds(s: Sce) {
    forall i :: 0 <= i < |s.log| && i < MISSWINDOW && IsValidIdx(s.luns, s.log[i].lunidx) ==> InBounds(s.luns, s.log[i])
  }

  /** Entry `k` is scanned iff it is one of the newest 100 and no entry up to it has a LUN that cannot be served. */
  lemma ScannedIff(luns: seq<Lun>, log: seq<LogEntry>, k: nat)
    ensures Scanned(luns, log, k) <==> k < |log| && k < MISSWINDOW && forall j :: 0 <= j <= k ==>
        IsValidIdx(luns, log[j].lunidx)
  {
    var w := Window(luns, log, 0);
    assert w < |log| && w < MISSWINDOW ==> !IsValidIdx(luns, log[w].lunidx);
  }

  lemma ScanInBounds(s: Sce)
    requires LogInBounds(s)
    ensures ScanInside(s)
  {
  }

  predicate SameSize(a: Lun, b: Lun) {
    b.present && !b.waiting ==> a.present && !a.waiting && |b.fragmap| == |a.fragmap|
  }

  /** The log is unchanged, no fragment map has grown or shrunk, and no LUN can be served that could not before. */
  ghost predicate SameSizes(s: Sce, s': Sce) {
    && s'.log == s.log && |s'.luns| == |s.luns|
    && forall l :: 0 <= l < |s.luns| ==> SameSize(s.luns[l], s'.luns[l])
  }

  lemma SizesBounds(s: Sce, s': Sce)
    requires SameSizes(s, s')
    ensures LogInBounds(s) ==> LogInBounds(s')
    ensures ScanInside(s) ==> ScanInside(s')
  {
    forall l: nat | IsValidIdx(s'.luns, l) ensures IsValidIdx(s.luns, l) &&
        |s'.luns[l].fragmap| == |s.luns[l].fragmap| {
      assert SameSize(s.luns[l], s'.luns[l]);
    }
    forall k: nat | Scanned(s'.luns, s'.log, k) ensures Scanned(s.luns, s.log, k) {
      ScannedIff(s'.luns, s'.log, k);
      ScannedIff(s.luns, s.log, k);
    }
  }

  lemma SizesTwice(s: Sce, s1: Sce, s2: Sce)
    requires SameSizes(s, s1) && SameSizes(s1, s2)
    ensures SameSizes(s, s2)
  {
    forall l | 0 <= l < |s.luns| ensures SameSize(s.luns[l], s2.luns[l]) {
      assert SameSize(s.luns[l], s1.luns[l]) && SameSize(s1.luns[l], s2.luns[l]);
    }
  }

  // ----- the calls that do not log

  lemma UnmapSizes(s: Sce, l: nat, f: nat)
    ensures SameSizes(s, Unmap(s, l, f))
  {
  }

  lemma {:induction false} UnmapUpToSizes(s: Sce, l: nat, n: nat)
    ensures SameSizes(s, UnmapUpTo(s, l, n))
  {
    hide Unmap;
    if n > 0 {
      UnmapUpToSizes(s, l, n - 1);
      UnmapSizes(UnmapUpTo(s, l, n - 1), l, n - 1);
      SizesTwice(s, UnmapUpTo(s, l, n - 1), UnmapUpTo(s, l, n));
    }
  }

  lemma PurgeSizes(s: Sce, l: nat)
    ensures SameSizes(s, Purge(s, l).0)
  {
    hide UnmapUpTo;
    if l < |s.luns| {
      var s1 := UnmapUpTo(s, l, |s.luns[l].fragmap|);
      UnmapUpToSizes(s, l, |s.luns[l].fragmap|);
      if Purge(s, l).1 {
        SizesTwice(s, s1, Purge(s, l).0);
      }
    }
  }

  lemma GcSizes(s: Sce, l: nat, p: nat)
    requires p in s.frags && l < |s.luns|
    ensures SameSizes(s, Gc(s, l, p))
  {
    hide Unmap, Purge;
    var fr := s.frags[p];
    var s1 := if fr.nrService == 0 && fr.nrValid == 0 then Unmap(s, l, fr.fragnum) else s;
    UnmapSizes(s, l, fr.fragnum);
    PurgeSizes(s1, l);
    SizesTwice(s, s1, Gc(s, l, p));
  }

  lemma {:induction false} EvictLoopSizes(s: Sce, i: nat)
    ensures SameSizes(s, EvictLoop(s, i).0)
    decreases i
  {
    hide Unmap;
    if i > 0 {
      var (s1, at) := Advance(s);
      if at.Some? && at.value in s.frags {
        var fr := s.frags[at.value];
        if !Idle(fr) {
          EvictLoopSizes(s1, i - 1);
          SizesTwice(s, s1, EvictLoop(s, i).0);
        } else if fr.nrRef == 0 {
          UnmapSizes(s1, fr.lunidx, fr.fragnum);
          SizesTwice(s, s1, EvictLoop(s, i).0);
        } else {
          var s2 := SetFrag(s1, at.value, fr.(nrRef := fr.nrRef - 1));
          EvictLoopSizes(s2, i - 1);
          SizesTwice(s, s2, EvictLoop(s, i).0);
        }
      }
    }
  }

  lemma Put4ReadSizes(s: Sce, l: nat, sctr: nat, n: nat)
    ensures SameSizes(s, Put4Read(s, l, sctr, n).0)
  {
    hide Gc;
    if Put4Read(s, l, sctr, n).1 {
      var p := s.luns[l].fragmap[sctr / SCTRPERFRAG].data;
      var fr := s.frags[p];
      var s1 := SetService(SetFrag(s, p, fr.(nrService := fr.nrService - 1)), l, s.luns[l].nrService - 1);
      GcSizes(s1, l, p);
      SizesTwice(s, s1, Put4Read(s, l, sctr, n).0);
    }
  }

  lemma InvalidateOneSizes(s: Sce, l: nat, f: nat, pages: set<nat>)
    ensures SameSizes(s, InvalidateOne(s, l, f, pages))
  {
    hide Gc;
    if IsMapped(s, l, f) && s.luns[l].fragmap[f].data in s.frags {
      var p := s.luns[l].fragmap[f].data;
      var s1 := SetFrag(s, p, InvalidatePages(s.frags[p], pages));
      GcSizes(s1, l, p);
      SizesTwice(s, s1, InvalidateOne(s, l, f, pages));
    }
  }

  lemma {:induction false} InvalidateSizes(s: Sce, l: nat, f: nat, off: nat, count: nat)
    requires off < PAGEPERFRAG
    ensures SameSizes(s, InvalidateFrom(s, l, f, off, count))
    decreases count
  {
    hide InvalidateOne;
    if count > 0 {
      var n := if PAGEPERFRAG - off > count then count else PAGEPERFRAG - off;
      var s1 := InvalidateOne(s, l, f, PageRange(off, n));
      InvalidateOneSizes(s, l, f, PageRange(off, n));
      InvalidateSizes(s1, l, f + 1, 0, count - n);
      SizesTwice(s, s1, InvalidateFrom(s, l, f, off, count));
    }
  }

  lemma AllocSizes(s: Sce, l: nat, f: nat)
    ensures SameSizes(s, Alloc(s, l, f).0)
  {
    hide EvictLoop;
    EvictLoopSizes(s, s.nrFrag * REFCEILING);
    assert SameSizes(s, Reclaim(s).0);
    hide Reclaim;
    if Alloc(s, l, f).1.Some? {
      var s1 := Reclaim(s).0;
      assert SameSizes(s1, MapHead(s1, l, f));
      SizesTwice(s, s1, Alloc(s, l, f).0);
    }
  }

  lemma CompleteSizes(s: Sce, l: nat, f: nat)
    ensures SameSizes(s, Complete(s, l, f).0)
  {
    hide Gc;
    if Complete(s, l, f).1 {
      var d := s.luns[l].fragmap[f];
      var fr := s.frags[d.data];
      var s1 := if d.valid then s else SetFrag(SetDesc(s, l, f, d.(valid := true)), d.data, fr.(nrService := 0));
      var s2 := SetService(s1, l, Dec32(s.luns[l].nrService));
      GcSizes(s2, l, d.data);
      SizesTwice(s, s2, Complete(s, l, f).0);
    }
  }

  lemma CancelSizes(s: Sce, l: nat, f: nat)
    ensures SameSizes(s, Cancel(s, l, f).0)
  {
    hide Gc, Unmap;
    if IsMapped(s, l, f) && s.luns[l].fragmap[f].data in s.frags {
      var d := s.luns[l].fragmap[f];
      var s0 := SetFrag(s, d.data, s.frags[d.data].(nrService := 0));
      var s1 := Unmap(s0, l, f);
      UnmapSizes(s0, l, f);
      SizesTwice(s, s0, s1);
      if l < |s1.luns| && d.data in s1.frags {
        var s2 := SetService(s1, l, Dec32(s1.luns[l].nrService));
        GcSizes(s2, l, d.data);
        SizesTwice(s, s1, s2);
        SizesTwice(s, s2, Gc(s2, l, d.data));
      }
    }
  }

  lemma RmCdevSizes(s: Sce, d: nat)
    ensures SameSizes(s, RmCdev(s, d).0)
  {
  }

  lemma AddCdevSizes(s: Sce, nrSctr: nat, ctx: nat)
    ensures SameSizes(s, AddCdev(s, nrSctr, ctx).0)
  {
  }

  lemma RmLunSizes(s: Sce, l: nat)
    ensures SameSizes(s, RmLun(s, l).0)
  {
    hide Purge;
    PurgeSizes(s, l);
  }

  // ----- the calls that log or add a map

  lemma GetLogs(s: Sce, l: nat, sctr: nat, n: nat)
    ensures LogInBounds(s) ==> LogInBounds(Get4Read(s, l, sctr, n).0)
    ensures ScanInside(s) ==> ScanInside(Get4Read(s, l, sctr, n).0)
  {
    var s' := Get4Read(s, l, sctr, n).0;
    if s'.log != s.log {
      var e := LogEntry(l, FirstPage(sctr) / PAGEPERFRAG);
      assert s'.log == LogPut(s.log, e) && InBounds(s.luns, e) && IsValidIdx(s.luns, l);
      assert forall m ::
          0 <= m < |s.luns| ==> SameSize(s.luns[m], s'.luns[m]) && |s'.luns[m].fragmap| == |s.luns[m].fragmap|;
      assert forall m: nat :: IsValidIdx(s'.luns, m) <==> IsValidIdx(s.luns, m);
      hide Get4Read;
      LoggedBounds(s, s', e);
    } else {
      SizesBounds(s, s');
    }
  }

  /** A miss inside its map goes to the front of the log. */
  lemma LoggedBounds(s: Sce, s': Sce, e: LogEntry)
    requires s'.log == LogPut(s.log, e) && InBounds(s.luns, e) && |s'.luns| == |s.luns|
    requires forall m :: 0 <= m < |s.luns| ==> |s'.luns[m].fragmap| == |s.luns[m].fragmap|
    requires forall m: nat :: IsValidIdx(s'.luns, m) <==> IsValidIdx(s.luns, m)
    ensures LogInBounds(s) ==> LogInBounds(s')
    ensures ScanInside(s) ==> ScanInside(s')
  {
    assert s'.log[0] == e && forall i :: 0 < i < |s'.log| ==> s'.log[i] == s.log[i - 1];
    forall k: nat | Scanned(s'.luns, s'.log, k) ensures k == 0 || Scanned(s.luns, s.log, k - 1) {
      if k > 0 {
        ScannedIff(s'.luns, s'.log, k);
        ScannedIff(s.luns, s.log, k - 1);
        forall j | 0 <= j <= k - 1 ensures IsValidIdx(s.luns, s.log[j].lunidx) {
          assert s'.log[j + 1] == s.log[j];
        }
      }
    }
  }

  function NewLength(nrSctr: nat): nat { (nrSctr + SCTRPERFRAG - 1) / SCTRPERFRAG }

  /** Among the newest 100 misses, those of the slot to be taken lie inside a LUN of this size. */
  predicate Reaches(s: Sce, nrSctr: nat) {
    var l := FindLun(s.luns, 0);
    forall i :: 0 <= i < |s.log| && i < MISSWINDOW && s.log[i].lunidx == l ==> s.log[i].fragnum < NewLength(nrSctr)
  }

  /** The same for the entries that can be scanned once the slot is taken: up to the first of another slot that cannot
      be served. What such a slot hid so far counts as well. */
  ghost predicate ScanReaches(s: Sce, nrSctr: nat) {
    var l := FindLun(s.luns, 0);
    forall k: nat ::
      k < |s.log| && k < MISSWINDOW
      && (forall j :: 0 <= j <= k ==> s.log[j].lunidx == l || IsValidIdx(s.luns, s.log[j].lunidx)) ==>
      if s.log[k].lunidx == l then s.log[k].fragnum < NewLength(nrSctr) else InBounds(s.luns, s.log[k])
  }

  /** sce_addlun keeps the newest 100 misses inside the maps, and the scan, exactly if the LUN is large enough for
      what its slot has in the log. */
  lemma AddLunLogs(s: Sce, nrSctr: nat, ctx: nat)
    requires AddLun(s, nrSctr, ctx).1.Some?
    ensures LogInBounds(s) ==> (LogInBounds(AddLun(s, nrSctr, ctx).0) <==> Reaches(s, nrSctr))
    ensures ScanInside(AddLun(s, nrSctr, ctx).0) <==> ScanReaches(s, nrSctr)
  {
    var l := FindLun(s.luns, 0);
    var s' := AddLun(s, nrSctr, ctx).0;
    assert s'.log == s.log && |s'.luns| == |s.luns| && IsValidIdx(s'.luns, l) &&
        |s'.luns[l].fragmap| == NewLength(nrSctr);
    assert forall m :: 0 <= m < |s.luns| && m != l ==> s'.luns[m] == s.luns[m];
    hide AddLun;
    if LogInBounds(s) && !Reaches(s, nrSctr) {
      var i :| 0 <= i < |s.log| && i < MISSWINDOW && s.log[i].lunidx == l && s.log[i].fragnum >= NewLength(nrSctr);
      assert !InBounds(s'.luns, s'.log[i]);
    }
    AddLunScan(s, s', l, nrSctr);
  }

  lemma AddLunScan(s: Sce, s': Sce, l: nat, nrSctr: nat)
    requires l == FindLun(s.luns, 0) < |s.luns| == |s'.luns| && s'.log == s.log
    requires IsValidIdx(s'.luns, l) && |s'.luns[l].fragmap| == NewLength(nrSctr)
    requires forall m :: 0 <= m < |s.luns| && m != l ==> s'.luns[m] == s.luns[m]
    ensures ScanInside(s') <==> ScanReaches(s, nrSctr)
  {
    assert forall m: nat :: IsValidIdx(s'.luns, m) <==> m == l || IsValidIdx(s.luns, m);
    forall k: nat
      ensures Scanned(s'.luns, s'.log, k) <==>
              k < |s.log| && k < MISSWINDOW && forall j :: 0 <= j <= k ==>
                  s.log[j].lunidx == l || IsValidIdx(s.luns, s.log[j].lunidx)
    {
      ScannedIff(s'.luns, s'.log, k);
    }
  }

  // ----- runs

  predicate TakesSlot(s: System.Sys, e: System.Event) { e.EvAddLun? && AddLun(s.sce, e.nrSctr, e.ctx).1.Some? }

  /** A step that takes no slot keeps both; one that does keeps them exactly under the conditions. */
  lemma StepBounds(s: System.Sys, e: System.Event, t: System.Sys)
    requires System.Next(s, e, t)
    ensures LogInBounds(s.sce) ==> (LogInBounds(t.sce) <==> TakesSlot(s, e) ==> Reaches(s.sce, e.nrSctr))
    ensures ScanInside(s.sce) ==> (ScanInside(t.sce) <==> TakesSlot(s, e) ==> ScanReaches(s.sce, e.nrSctr))
  {
    hide AddLun, RmLun, AddCdev, RmCdev, Get4Read, Put4Read, Invalidate, Alloc, Put4Pop, LogInBounds, ScanInside,
        Reaches, ScanReaches,
         SameSizes, System.Snapshot, System.SameBut, System.SameElsewhere, System.Filled, Configuration.NewLunOk;
    match e {
      case EvAddLun(nrSctr, ctx) => AddLunBounds(s.sce, nrSctr, ctx);
      case EvRmLun(l) => RmLunSizes(s.sce, l); SizesBounds(s.sce, t.sce);
      case EvAddCdev(nrSctr, ctx) => AddCdevSizes(s.sce, nrSctr, ctx); SizesBounds(s.sce, t.sce);
      case EvRmCdev(d) => RmCdevSizes(s.sce, d); SizesBounds(s.sce, t.sce);
      case EvGet(id, l, sctr, n) => GetLogs(s.sce, l, sctr, n);
      case EvPut(id) =>
        Put4ReadSizes(s.sce, s.inflight[id].lun, s.inflight[id].sctr, s.inflight[id].n);
        SizesBounds(s.sce, t.sce);
      case EvWrite(l, sctr, n) => InvalidateCallSizes(s.sce, l, sctr, n); SizesBounds(s.sce, t.sce);
      case EvGetPop(id, l, f) => AllocSizes(s.sce, l, f); SizesBounds(s.sce, t.sce);
      case EvPutPop(id, failed) => Put4PopSizes(s.sce, s.pops[id].ctx, s.pops[id].fragnum, failed);
          SizesBounds(s.sce, t.sce);
      case _ =>
    }
  }

  lemma AddLunBounds(s: Sce, nrSctr: nat, ctx: nat)
    ensures var (s', got) := AddLun(s, nrSctr, ctx);
            && (got.None? ==> s' == s)
            && (got.Some? && LogInBounds(s) ==> (LogInBounds(s') <==> Reaches(s, nrSctr)))
            && (got.Some? ==> (ScanInside(s') <==> ScanReaches(s, nrSctr)))
  {
    hide LogInBounds, Reaches, ScanInside, ScanReaches;
    if AddLun(s, nrSctr, ctx).1.Some? {
      AddLunLogs(s, nrSctr, ctx);
    }
  }

  lemma InvalidateCallSizes(s: Sce, l: nat, sctr: nat, n: nat)
    ensures SameSizes(s, Invalidate(s, l, sctr, n).0)
  {
    hide InvalidateFrom;
    if Admits(s, l, sctr, n, true) {
      var start := FirstPage(sctr);
      InvalidateSizes(s, l, start / PAGEPERFRAG, start % PAGEPERFRAG, LastPage(sctr, n) - start + 1);
    }
  }

  lemma Put4PopSizes(s: Sce, ctx: nat, f: nat, failed: bool)
    ensures SameSizes(s, Put4Pop(s, ctx, f, failed).0)
  {
    hide Cancel, Complete;
    var l := LunSearch(s.luns, ctx, 0);
    if l.Some? {
      CancelSizes(s, l.value, f);
      CompleteSizes(s, l.value, f);
    }
  }

  /** Every LUN added up to step `n` is large enough, for the newest 100 misses of its slot, or for the scan. */
  ghost predicate LargeEnough(run: seq<System.Sys>, events: seq<System.Event>, n: nat)
    requires |run| == |events| + 1 && n <= |events|
  {
    forall i :: 0 <= i < n && TakesSlot(run[i], events[i]) ==> Reaches(run[i].sce, events[i].nrSctr)
  }

  ghost predicate ScanLargeEnough(run: seq<System.Sys>, events: seq<System.Event>, n: nat)
    requires |run| == |events| + 1 && n <= |events|
  {
    forall i :: 0 <= i < n && TakesSlot(run[i], events[i]) ==> ScanReaches(run[i].sce, events[i].nrSctr)
  }

  lemma {:induction false} InsideUpTo(run: seq<System.Sys>, events: seq<System.Event>, n: nat)
    requires Coherence.IsRun(run, events) && n < |run|
    ensures (forall i :: 0 <= i <= n ==> LogInBounds(run[i].sce)) <==> LargeEnough(run, events, n)
    ensures (forall i :: 0 <= i <= n ==> ScanInside(run[i].sce)) <==> ScanLargeEnough(run, events, n)
  {
    hide System.Next, System.Init, LogInBounds, ScanInside, Reaches, ScanReaches, TakesSlot;
    if n == 0 {
      EmptyLog(run[0]);
    } else {
      InsideUpTo(run, events, n - 1);
      StepBounds(run[n - 1], events[n - 1], run[n]);
    }
  }

  /** In a run no scan of _choose4population ever reads past a fragment map if and only if every LUN that took a slot
      was large enough for what the scan could then reach. The newest 100 misses of served LUNs all stay inside their
      maps, so that no later slot can uncover one, if and only if every LUN was large enough for those of its own
      slot. */
  lemma ScansStayInside(run: seq<System.Sys>, events: seq<System.Event>)
    requires Coherence.IsRun(run, events)
    ensures (forall i :: 0 <= i < |run| ==> ScanInside(run[i].sce)) <==> ScanLargeEnough(run, events, |events|)
    ensures (forall i :: 0 <= i < |run| ==> LogInBounds(run[i].sce)) <==> LargeEnough(run, events, |events|)
    ensures LargeEnough(run, events, |events|) ==> ScanLargeEnough(run, events, |events|)
  {
    hide System.Next, System.Init, LogInBounds, ScanInside, LargeEnough, ScanLargeEnough;
    InsideUpTo(run, events, |events|);
    forall i | 0 <= i < |run| && LogInBounds(run[i].sce) ensures ScanInside(run[i].sce) {
      ScanInBounds(run[i].sce);
    }
  }

  lemma EmptyLog(s: System.Sys)
    requires System.Init(s)
    ensures LogInBounds(s.sce) && ScanInside(s.sce)
  {
  }

  lemma SlotTaken(s: Sce, nrSctr: nat, ctx: nat)
    requires |s.luns| == MAXLUN && !s.luns[0].present && nrSctr > 0
    ensures var s' := AddLun(s, nrSctr, ctx).0;
            && s'.luns == s.luns[0 := Lun(true, ctx, nrSctr,
                seq((nrSctr + SCTRPERFRAG - 1) / SCTRPERFRAG, _ => FRESH), 0, false)]
            && s'.log == s.log && s'.nrLun == s.nrLun + 1
  {
  }

  lemma MissLogged(s: Sce)
    requires |s.luns| == MAXLUN && s.nrLun > 0 && s.log == []
    requires s.luns[0].present && s.luns[0].nrSctr == 4096 && s.luns[0].nrService == 0 && !s.luns[0].waiting
    requires s.luns[0].fragmap == [FRESH, FRESH]
    ensures var s' := Get4Read(s, 0, 2048, 8).0;
            && s'.log == [LogEntry(0, 1)] && |s'.luns| == MAXLUN && s'.nrLun == s.nrLun && s'.luns[0].present
            && s'.luns[0].nrService == 0 && s'.luns[0].fragmap == [FRESH, Inc(FRESH)]
  {
  }

  lemma SlotCleared(s: Sce)
    requires |s.luns| == MAXLUN && s.nrLun > 0 && s.luns[0].present && s.luns[0].nrService == 0
    requires s.luns[0].fragmap == [FRESH, Inc(FRESH)]
    ensures var s' := RmLun(s, 0).0; s'.log == s.log && |s'.luns| == MAXLUN && s'.luns[0] == EMPTYLUN
  {
    assert UnmapUpTo(s, 0, 0) == s;
    assert UnmapUpTo(s, 0, 1) == s;
    assert UnmapUpTo(s, 0, 2) == s;
  }

  /** The condition is needed: a miss in the second fragment of a LUN, then the slot reused by a LUN of one fragment. */
  lemma SmallerReuse()
    ensures var s1 := AddLun(Create(), 4096, 1).0;
            var s2 := Get4Read(s1, 0, 2048, 8).0;
            var s3 := RmLun(s2, 0).0;
            var s4 := AddLun(s3, 8, 1).0;
            LogInBounds(s3) && ScanInside(s3) && !LogInBounds(s4) && !ScanInside(s4)
  {
    hide AddLun, Get4Read, RmLun;
    SlotTaken(Create(), 4096, 1);
    var s1 := AddLun(Create(), 4096, 1).0;
    assert s1.luns[0].fragmap == [FRESH, FRESH];
    MissLogged(s1);
    var s2 := Get4Read(s1, 0, 2048, 8).0;
    SlotCleared(s2);
    var s3 := RmLun(s2, 0).0;
    SlotTaken(s3, 8, 1);
    var s4 := AddLun(s3, 8, 1).0;
    assert s4.log == [LogEntry(0, 1)] && |s4.luns[0].fragmap| == 1;
    assert !InBounds(s4.luns, s4.log[0]);
    assert Window(s4.luns, s4.log, 1) == 1;
  }
}
