// Allocating, completing and cancelling a population.

module Population {
  import opened Words
  import opened SceState
  import opened Invariants
  import opened Preservation
  import opened Collection
  import opened Requests
  import opened Eviction

  // ----- allocation

  /** One eviction at most, and none if a fragment is free: the allocation loop ends in its first or second round. */
  lemma ReclaimKeeps(s: Sce)
    requires Boundary(s)
    ensures var (s1, ok) := Reclaim(s);
            && Boundary(s1) && Shrinks(s, s1) && SameTables(s, s1) && (ok <==> s1.free != [])
            && (s.free != [] ==> s1 == s)
            && (s.free == [] ==>
                  var (t, evicted) := Evict(s);
                  && ok == evicted && s1 == t.(nrEviction := t.nrEviction + if ok then 1 else 0)
                  && |s1.free| == if ok then 1 else 0)
  {
    hide Boundary, Shrinks, SameTables, Evict;
    BoundarySame(s);
    if s.free == [] {
      var (s1, ok) := Evict(s);
      EvictKeeps(s);
      if ok {
        EvictionCounted(s, s1);
      }
    }
  }

  lemma EvictionCounted(s: Sce, s1: Sce)
    requires Boundary(s1) && Shrinks(s, s1) && SameTables(s, s1)
    ensures var s2 := s1.(nrEviction := s1.nrEviction + 1);
            Boundary(s2) && Shrinks(s, s2) && SameTables(s, s2)
  {
    hide Boundary;
    CountersKeep(s, s1, s1.(nrEviction := s1.nrEviction + 1));
  }

  /** What the new mapping adds to the boundary conditions. */
  lemma MapHeadKeeps(s: Sce, l: nat, f: nat)
    requires Boundary(s) && CanMap(s, l, f)
    ensures Boundary(MapHead(s, l, f))
  {
    hide Shape, Distinct, Tables, Links, FreeOk, FragsOk, Services;
    CoreMapHead(s, l, f);
    MapMapping(s, l, f);
    FreeHeadIdle(s);
    MapNoDead(s, l, f);
  }

  lemma FreeHeadIdle(s: Sce)
    requires Links(s) && FreeOk(s) && s.free != []
    ensures forall m: nat, g: nat :: !MappedTo(s, m, g, s.free[0]) || s.frags[s.free[0]].fragnum == g == WITHINFREELIST
  {
    assert s.free[0] in s.free;
  }

  lemma MapNoDead(s: Sce, l: nat, f: nat)
    requires Core(s) && NoDead(s) && CanMap(s, l, f)
    ensures NoDead(MapHead(s, l, f))
  {
    hide Shape, Distinct, Tables, FragsOk, Services, TailCount;
    MapMapping(s, l, f);
    var s' := MapHead(s, l, f);
    forall m: nat, g: nat, q: nat | MappedTo(s', m, g, q) && q in s'.frags && s'.luns[m].fragmap[g].valid &&
        s'.frags[q].nrService == 0
      ensures s'.frags[q].nrValid > 0
    {
      assert MappedTo(s, m, g, q);
      assert q != s.free[0];
    }
  }

  predicate InLun(s: Sce, l: nat, f: nat) { l < |s.luns| && s.luns[l].present && f < |s.luns[l].fragmap| }

  /** _alloc4population succeeds iff a fragment can be had and the entry is unmapped then; otherwise nothing is lost:
      the state is the one after the reclaim, whose fragments are all still listed or mapped. */
  lemma AllocKeeps(s: Sce, l: nat, f: nat)
    requires Boundary(s)
    ensures var (s', got) := Alloc(s, l, f);
            var (s1, ok) := Reclaim(s);
            && Boundary(s') && Shrinks(s, s1) && SameTables(s, s1) && Boundary(s1)
            && (got.Some? <==> InLun(s, l, f) && ok && !IsMapped(s1, l, f))
            && (got.None? ==> s' == if InLun(s, l, f) then s1 else s)
            && (got.Some? ==> CanMap(s1, l, f) && got.value == s1.free[0] && s' == MapHead(s1, l, f))
  {
    hide Shape, Distinct, Tables, Links, FreeOk, FragsOk, Services, NoDead, Deferred, Shrinks, Reclaim, MapHead,
        TailCount;
    var (s1, ok) := Reclaim(s);
    ReclaimKeeps(s);
    if InLun(s, l, f) && ok {
      assert SameLun(s.luns[l], s1.luns[l]);
      FreeHeadFits(s1);
      TailFits(s1, l, f);
      if !IsMapped(s1, l, f) {
        MapHeadKeeps(s1, l, f);
      }
    }
  }

  // ----- completion and cancellation

  /** Entry `f` of LUN `l` is being populated. */
  predicate Populating(s: Sce, l: nat, f: nat, p: nat) {
    MappedTo(s, l, f, p) && !s.luns[l].fragmap[f].valid && p in s.frags
  }

  /** The population's token given back and the entry readable. */
  function Ready(s: Sce, l: nat, f: nat, p: nat): Sce
    requires Populating(s, l, f, p)
  {
    var s1 := SetFrag(SetDesc(s, l, f, s.luns[l].fragmap[f].(valid := true)), p, s.frags[p].(nrService := 0));
    SetService(s1, l, Dec32(s.luns[l].nrService))
  }

  lemma ReadyCore(s: Sce, l: nat, f: nat, p: nat)
    requires Boundary(s) && Populating(s, l, f, p)
    ensures Core(Ready(s, l, f, p)) && Pins(s, Ready(s, l, f, p), l, f, p, -1)
    ensures s.frags[p].nrService == 1 && s.luns[l].nrService > 0
    ensures s.frags[p].fragnum == f && s.frags[p].lunidx == l
  {
    hide Shape, Distinct, Tables, Links, FreeOk, FragsOk, Services, PagesOk, Pins, NoDead, Deferred;
    MappedFacts(s, l, f, p);
    var fr := s.frags[p].(nrService := 0);
    var w := s.luns[l].fragmap[f].(valid := true);
    HitPages(s.frags[p], fr, s.luns[l].nrSctr, f);
    CoreReplace(s, l, f, p, w, fr, s.luns[l].nrService - 1);
    assert Ready(s, l, f, p) == SetService(SetDesc(SetFrag(s, p, fr), l, f, w), l, s.luns[l].nrService - 1);
  }

  lemma ReadyOthers(s: Sce, l: nat, f: nat, p: nat)
    requires Boundary(s) && Populating(s, l, f, p)
    ensures var s1 := Ready(s, l, f, p);
            && (forall m :: 0 <= m < |s1.luns| && m != l && s1.luns[m].waiting ==> s1.luns[m].nrService > 0)
            && (forall m: nat, g: nat, q: nat ::
                  MappedTo(s1, m, g, q) && q in s1.frags && q != p
                  && s1.luns[m].fragmap[g].valid && s1.frags[q].nrService == 0 ==>
                  s1.frags[q].nrValid > 0)
            && s1.frags[p].fragnum == f && s1.nrLun == s.nrLun
  {
    hide Shape, Distinct, Tables, FreeOk, FragsOk, Services, PagesOk, Pins, NoDead;
    ReadyCore(s, l, f, p);
    OthersLive(s, Ready(s, l, f, p), l, f, p, -1);
  }

  /** A successful put makes the entry readable, or frees it at once if every page was overwritten meanwhile. */
  lemma CompleteKeeps(s: Sce, l: nat, f: nat, p: nat)
    requires Boundary(s) && Populating(s, l, f, p)
    ensures var (s', ok) := Complete(s, l, f);
            var s1 := Ready(s, l, f, p);
            && ok && Boundary(s') && Core(s1) && Pins(s, s1, l, f, p, -1) && Shrinks(s1, s')
            && s1.luns[l].fragmap[f] == s.luns[l].fragmap[f].(valid := true)
            && (s.luns[l].waiting && s.luns[l].nrService == 1 ==> Purged(s, s', l))
            && (s.frags[p].nrValid > 0 && !(s.luns[l].waiting && s.luns[l].nrService == 1) ==> s' == s1)
  {
    hide Shape, Distinct, Tables, Links, FreeOk, FragsOk, Services, PagesOk, NoDead, Shrinks, Gc;
    if s.frags[p].nrValid > 0 && !(s.luns[l].waiting && s.luns[l].nrService == 1) {
      NothingCollected(s, l, f, p);
    }
    ReadyCore(s, l, f, p);
    ReadyOthers(s, l, f, p);
    var s1 := Ready(s, l, f, p);
    assert Complete(s, l, f) == (Gc(s1, l, p), true);
    GcSettles(s1, l, f, p);
    if s.luns[l].waiting && s.luns[l].nrService == 1 {
      PurgedFrom(s, s1, Gc(s1, l, p), l);
    }
  }

  lemma NothingCollected(s: Sce, l: nat, f: nat, p: nat)
    requires Boundary(s) && Populating(s, l, f, p) && s.frags[p].nrValid > 0
    requires !(s.luns[l].waiting && s.luns[l].nrService == 1)
    ensures Complete(s, l, f).0 == Ready(s, l, f, p)
  {
    hide Boundary, Core, PagesOk, Gc, Gone, Pins;
    ReadyCore(s, l, f, p);
    ReadyIs(s, l, f, p);
    GcExact(Ready(s, l, f, p), l, f, p);
  }

  /** A failed put unmaps the entry and puts its fragment on top of the free list. */
  lemma CancelKeeps(s: Sce, l: nat, f: nat, p: nat)
    requires Boundary(s) && Populating(s, l, f, p)
    ensures var (s', ok) := Cancel(s, l, f);
            var s1 := Ready(s, l, f, p);
            && ok && Boundary(s') && Core(s1) && Pins(s, s1, l, f, p, -1) && Shrinks(s1, s')
            && (forall m: nat, g: nat :: !MappedTo(s', m, g, p))
            && (s.luns[l].waiting && s.luns[l].nrService == 1 ==> Purged(s, s', l))
            && (!s.luns[l].waiting ==> s' == Unmap(s1, l, f) && s'.free == [p] + s.free)
  {
    hide Shape, Distinct, Tables, Links, FreeOk, FragsOk, Services, PagesOk, NoDead, Shrinks, Gc, Pins;
    ReadyCore(s, l, f, p);
    CancelFrees(s, l, f, p);
    var s1 := Ready(s, l, f, p);
    var s2 := Unmap(s1, l, f);
    CancelSettles(s, l, f, p);
    GcSettles(s2, l, f, p);
    ShrinksTwice(s1, s2, Gc(s2, l, p));
    NotMappedStays(s2, Gc(s2, l, p), p);
    if s.luns[l].waiting && s.luns[l].nrService == 1 {
      CancelPurged(s, s1, s2, Gc(s2, l, p), l, f, p);
    }
    if !s.luns[l].waiting {
      GcNothing(s2, l, p);
    }
  }

  lemma CancelFrees(s: Sce, l: nat, f: nat, p: nat)
    requires Boundary(s) && Populating(s, l, f, p)
    ensures var s2 := Unmap(Ready(s, l, f, p), l, f);
            && l < |s2.luns| && p in s2.frags && s2.frags[p].fragnum == WITHINFREELIST
            && s2.free == [p] + s.free && s2.nrLun == s.nrLun && s2.luns[l].nrService == s.luns[l].nrService - 1
            && s2.luns[l].waiting == s.luns[l].waiting && |s2.luns[l].fragmap| < UNLISTED
            && Cancel(s, l, f) == (Gc(s2, l, p), true)
  {
    hide Shape, Distinct, Tables, Links, FreeOk, FragsOk, Services, PagesOk, NoDead, Gc, Pins, Deferred;
    ReadyCore(s, l, f, p);
    SmallLun(s, l);
    var t := SetFrag(s, p, s.frags[p].(nrService := 0));
    UnmapIs(t, l, f, p);
    var s1 := Ready(s, l, f, p);
    UnmapIs(s1, l, f, p);
    assert SetService(Unmap(t, l, f), l, s.luns[l].nrService - 1) == Unmap(s1, l, f) by {
      assert t.luns[l].fragmap[f := Heat(s.frags[p].nrMiss)] == s1.luns[l].fragmap[f := Heat(s.frags[p].nrMiss)];
    }
  }

  lemma SmallLun(s: Sce, l: nat)
    requires Shape(s) && l < |s.luns|
    ensures |s.luns[l].fragmap| < UNLISTED
  {
    assert LunOk(s.luns[l]);
  }

  lemma CancelSettles(s: Sce, l: nat, f: nat, p: nat)
    requires Boundary(s) && Populating(s, l, f, p)
    ensures var s1 := Ready(s, l, f, p);
            var s2 := Unmap(s1, l, f);
            && Core(s2) && Shrinks(s1, s2) && |s2.luns| == |s.luns|
            && (forall m: nat, g: nat :: !MappedTo(s2, m, g, p))
            && (forall m :: 0 <= m < |s2.luns| && m != l && s2.luns[m].waiting ==> s2.luns[m].nrService > 0)
            && (forall m: nat, g: nat, q: nat ::
                  MappedTo(s2, m, g, q) && q in s2.frags && q != p
                  && s2.luns[m].fragmap[g].valid && s2.frags[q].nrService == 0 ==>
                  s2.frags[q].nrValid > 0)
  {
    hide Shape, Distinct, Tables, FreeOk, FragsOk, Services, PagesOk, NoDead, Pins;
    ReadyCore(s, l, f, p);
    ReadyOthers(s, l, f, p);
    SmallLun(s, l);
    var s1 := Ready(s, l, f, p);
    CoreUnmap(s1, l, f);
    UnmapShrinks(s1, l, f);
    UnmapMapping(s1, l, f);
    var s2 := Unmap(s1, l, f);
    forall m: nat, g: nat, q: nat | MappedTo(s2, m, g, q) && q in s2.frags && q != p && s2.luns[m].fragmap[g].valid &&
        s2.frags[q].nrService == 0
      ensures s2.frags[q].nrValid > 0
    {
      assert MappedTo(s1, m, g, q) && s2.frags[q] == s1.frags[q];
    }
    forall m: nat, g: nat ensures !MappedTo(s2, m, g, p) {
      if MappedTo(s1, m, g, p) {
        assert m == l && g == f;
      }
    }
  }

  lemma NotMappedStays(s: Sce, s': Sce, p: nat)
    requires Shrinks(s, s') && forall m: nat, g: nat :: !MappedTo(s, m, g, p)
    ensures forall m: nat, g: nat :: !MappedTo(s', m, g, p)
  {
  }

  lemma CancelPurged(s: Sce, s1: Sce, s2: Sce, s': Sce, l: nat, f: nat, p: nat)
    requires Core(s) && MappedTo(s, l, f, p) && Pins(s, s1, l, f, p, -1) && s2 == Unmap(s1, l, f) &&
        Purged(s2, s', l) && s2.nrLun == s.nrLun
    requires Core(s2) && Core(s') && Shrinks(s2, s')
    requires p in s2.frags && s2.frags[p].fragnum == WITHINFREELIST && s' == Gc(s2, l, p) && s2.luns[l].waiting &&
        s2.luns[l].nrService == 0
    requires l < |s2.luns| && |s2.luns[l].fragmap| < UNLISTED
    ensures Purged(s, s', l)
  {
    hide Shape, Distinct, Tables, FreeOk, FragsOk, Services, PagesOk;
    forall g: nat, q: nat | MappedTo(s, l, g, q) ensures q in s'.free {
      assert MappedTo(s1, l, g, q);
      if q == p {
        assert GcUnmap(s2, l, p) == s2;
        PurgeKeepsFree(s2, l, p);
      } else {
        UnmapMapping(s1, l, f);
        assert g != f;
        assert MappedTo(s2, l, g, q);
      }
    }
  }

  lemma GcNothing(s: Sce, l: nat, p: nat)
    requires l < |s.luns| && p in s.frags && s.frags[p].fragnum >= |s.luns[l].fragmap| && !s.luns[l].waiting
    ensures Gc(s, l, p) == s
  {
  }

  /** An allocation served from the free list and then cancelled gives the free list back in the same order; only the
      entry's miss count and the fragment's old contents are lost. */
  lemma AllocCancel(s: Sce, l: nat, f: nat)
    requires Boundary(s) && InLun(s, l, f) && !s.luns[l].waiting && s.free != [] && !s.luns[l].fragmap[f].mapped
    ensures var (s1, got) := Alloc(s, l, f);
            var (s2, ok) := Cancel(s1, l, f);
            && got == Some(s.free[0]) && ok
            && s2.free == s.free
            && s2 == SetDesc(s, l, f, ZERO).(frags := s2.frags) && s2.frags.Keys == s.frags.Keys
            && (forall q :: q in s.frags && q != s.free[0] ==> s2.frags[q] == s.frags[q])
  {
    hide Shape, Distinct, Tables, Links, FreeOk, FragsOk, Services, PagesOk, NoDead, Pins, Shrinks, TailCount, Deferred;
    AllocKeeps(s, l, f);
    FreeHeadFits(s);
    TailFits(s, l, f);
    var p := s.free[0];
    var s1 := MapHead(s, l, f);
    assert Alloc(s, l, f) == (s1, Some(p));
    assert Populating(s1, l, f, p);
    CancelKeeps(s1, l, f, p);
    ReadyCore(s1, l, f, p);
    UnmapIs(Ready(s1, l, f, p), l, f, p) by { SmallLun(s1, l); }
    var s2 := Cancel(s1, l, f).0;
    var n := s.luns[l].fragmap;
    assert s2.luns[l].fragmap == n[f := ZERO];
    assert s2.luns == SetDesc(s, l, f, ZERO).luns;
    assert s2.free == s.free;
  }

  // ----- put4pop

  /** A LUN's context leads back to its slot. */
  lemma SearchFinds(s: Sce, l: nat)
    requires Shape(s) && Distinct(s) && l < |s.luns| && s.luns[l].present
    ensures LunSearch(s.luns, s.luns[l].ctx, 0) == Some(l)
  {
    var r := LunSearch(s.luns, s.luns[l].ctx, 0);
    assert LunOk(s.luns[l]);
    assert r.Some? ==> LunOk(s.luns[r.value]);
  }

  /** sce_put4pop with the context and fragment number of an outstanding population. */
  lemma Put4PopKeeps(s: Sce, l: nat, f: nat, p: nat, failed: bool)
    requires Boundary(s) && Populating(s, l, f, p)
    ensures var (s', ok) := Put4Pop(s, s.luns[l].ctx, f, failed);
            var s1 := Ready(s, l, f, p);
            && ok && Boundary(s') && Core(s1) && Pins(s, s1, l, f, p, -1) && Shrinks(s1, s')
            && (failed ==> forall m: nat, g: nat :: !MappedTo(s', m, g, p))
            && (!failed && s.frags[p].nrValid > 0 && !(s.luns[l].waiting && s.luns[l].nrService == 1) ==> s' == s1)
            && (s.luns[l].waiting && s.luns[l].nrService == 1 ==> Purged(s, s', l))
  {
    hide Shape, Distinct, Tables, Links, FreeOk, FragsOk, Services, PagesOk, NoDead, Pins, Shrinks, Deferred,
        Complete, Cancel;
    MappedFacts(s, l, f, p);
    SearchFinds(s, l);
    if failed {
      CancelKeeps(s, l, f, p);
    } else {
      CompleteKeeps(s, l, f, p);
    }
  }

  // ----- the exact outcome of a put

  /** A successful put: the entry is readable and its token given back, and with a valid page left nothing else happens.
      Only with none left the entry is given up, and only with the last service of a LUN due for deletion the LUN. */
  lemma CompleteExact(s: Sce, l: nat, f: nat, p: nat)
    requires Boundary(s) && Populating(s, l, f, p)
    ensures var lun, fr := s.luns[l], s.frags[p];
            && lun.nrService > 0 && s.nrLun > 0
            && var ready := s.(luns := s.luns[l := lun.(nrService := lun.nrService - 1,
                                                        fragmap := lun.fragmap[f := lun.fragmap[f].(valid := true)])],
                               frags := s.frags[p := fr.(nrService := 0)]);
               && MappedTo(ready, l, f, p)
               && var dead, last := fr.nrValid == 0, lun.waiting && lun.nrService == 1;
                  var s' := Settled(ready, l, f, p, dead, last);
                  Complete(s, l, f) == (s', true) && Gone(s, s', l, f, dead, last)
  {
    hide Boundary, Core, PagesOk, Gc, Emptied, Dropped, Gone, Pins;
    ReadyCore(s, l, f, p);
    var ready := Ready(s, l, f, p);
    ReadyIs(s, l, f, p);
    GcExact(ready, l, f, p);
    var dead, last := s.frags[p].nrValid == 0, s.luns[l].waiting && s.luns[l].nrService == 1;
    PinsGone(s, ready, Settled(ready, l, f, p, dead, last), l, f, p, dead, last);
  }

  lemma ReadyIs(s: Sce, l: nat, f: nat, p: nat)
    requires Populating(s, l, f, p) && s.luns[l].nrService > 0
    ensures var lun := s.luns[l];
            var ready := s.(luns := s.luns[l := lun.(nrService := lun.nrService - 1,
                                                     fragmap := lun.fragmap[f := lun.fragmap[f].(valid := true)])],
                            frags := s.frags[p := s.frags[p].(nrService := 0)]);
            ready == Ready(s, l, f, p) && MappedTo(ready, l, f, p)
  {
  }

  /** A failed put: the entry is given up whatever its pages, and the LUN if this was its last service while waiting. */
  lemma CancelExact(s: Sce, l: nat, f: nat, p: nat)
    requires Boundary(s) && Populating(s, l, f, p)
    ensures var lun, fr := s.luns[l], s.frags[p];
            && lun.nrService > 0 && s.nrLun > 0
            && var given := s.(luns := s.luns[l := lun.(nrService := lun.nrService - 1)],
                               frags := s.frags[p := fr.(nrService := 0)]);
               && MappedTo(given, l, f, p)
               && var last := lun.waiting && lun.nrService == 1;
                  var s' := Settled(given, l, f, p, true, last);
                  Cancel(s, l, f) == (s', true) && Gone(s, s', l, f, true, last)
  {
    hide Boundary, Core, PagesOk, Gc, Emptied, Gone, Pins, Cancel, Unmap;
    ReadyCore(s, l, f, p);
    CancelFrees(s, l, f, p);
    ReadyIs(s, l, f, p);
    BoundaryParts(s);
    MappedCounted(s, l, f, p);
    var ready := Ready(s, l, f, p);
    UnmapExact(ready, l, f, p);
    DroppedCore(ready, l, f, p);
    var s2 := Unmap(ready, l, f);
    SameDrop(s, l, f, p);
    CancelCollects(s2, l, p);
    hide MappedTo, Dropped, Ready;
    if s.luns[l].waiting && s.luns[l].nrService == 1 {
      PurgeExact(s2, l);
      BothGone(ready, s2, Emptied(s2, l), l, f);
      PinsGone(s, ready, Emptied(s2, l), l, f, p, true, true);
    } else {
      EntryGone(ready, s2, l, f);
      PinsGone(s, ready, s2, l, f, p, true, false);
    }
  }

  /** Whether the entry became readable before it is given up makes no difference. */
  lemma SameDrop(s: Sce, l: nat, f: nat, p: nat)
    requires Populating(s, l, f, p) && s.luns[l].nrService > 0
    ensures var lun := s.luns[l];
            var given := s.(luns := s.luns[l := lun.(nrService := lun.nrService - 1)],
                            frags := s.frags[p := s.frags[p].(nrService := 0)]);
            && MappedTo(given, l, f, p) && MappedTo(Ready(s, l, f, p), l, f, p)
            && Dropped(Ready(s, l, f, p), l, f, p) == Dropped(given, l, f, p)
  {
    var lun := s.luns[l];
    var w := Word(false, false, 0, s.frags[p].nrMiss % DATASPACE);
    assert lun.fragmap[f := lun.fragmap[f].(valid := true)][f := w] == lun.fragmap[f := w];
  }

  /** _lun_gc on a fragment already listed can only purge. */
  lemma CancelCollects(s: Sce, l: nat, p: nat)
    requires l < |s.luns| && p in s.frags && s.frags[p].fragnum == WITHINFREELIST && |s.luns[l].fragmap| < UNLISTED
    ensures Gc(s, l, p) == if s.luns[l].waiting && s.luns[l].nrService == 0 then Purge(s, l).0 else s
  {
    hide Purge;
  }

  /** sce_put4pop with the context and fragment number of an outstanding population. */
  lemma Put4PopExact(s: Sce, l: nat, f: nat, p: nat, failed: bool)
    requires Boundary(s) && Populating(s, l, f, p)
    ensures var lun, fr := s.luns[l], s.frags[p];
            && lun.nrService > 0 && s.nrLun > 0
            && var ready := s.(luns := s.luns[l := lun.(nrService := lun.nrService - 1,
                                                        fragmap := lun.fragmap[f := lun.fragmap[f].(valid := true)])],
                               frags := s.frags[p := fr.(nrService := 0)]);
               && MappedTo(ready, l, f, p)
               && var dead, last := failed || fr.nrValid == 0, lun.waiting && lun.nrService == 1;
                  var s' := Settled(ready, l, f, p, dead, last);
                  && Put4Pop(s, lun.ctx, f, failed) == (s', true) && Boundary(s') && Gone(s, s', l, f, dead, last)
                  && (!dead && !last ==> MappedTo(s', l, f, p) && s'.luns[l].fragmap[f].valid)
  {
    hide Boundary, Core, PagesOk, Emptied, Gone, Pins, Cancel, Complete, Shrinks, Purged;
    Put4PopKeeps(s, l, f, p, failed);
    BoundaryParts(s);
    SearchHits(s, l, f, p);
    CompleteExact(s, l, f, p);
    CancelExact(s, l, f, p);
    SameDrop(s, l, f, p);
    ReadyIs(s, l, f, p);
    hide Dropped;
  }

  lemma SearchHits(s: Sce, l: nat, f: nat, p: nat)
    requires Core(s) && MappedTo(s, l, f, p)
    ensures LunSearch(s.luns, s.luns[l].ctx, 0) == Some(l)
  {
    MappedCounted(s, l, f, p);
    SearchFinds(s, l);
  }

  /** A put that names no mapped entry by its context and fragment number, and a failed one that names a readable entry,
      change nothing. */
  lemma Put4PopRefused(s: Sce, ctx: nat, f: nat, failed: bool)
    requires forall m: nat :: m < |s.luns| && s.luns[m].ctx == ctx && IsMapped(s, m, f) ==>
      failed && s.luns[m].fragmap[f].valid
    ensures Put4Pop(s, ctx, f, failed) == (s, false)
  {
    var l := LunSearch(s.luns, ctx, 0);
    if l.Some? {
      assert s.luns[l.value].ctx == ctx;
    }
  }

  /** What an allocation makes of the fragment it takes: named after its entry, in service once, all counts zero, and
      invalid exactly where it reaches beyond the LUN. */
  lemma AllocExact(s: Sce, l: nat, f: nat)
    requires Boundary(s) && Alloc(s, l, f).1.Some?
    ensures var s', s1 := Alloc(s, l, f).0, Reclaim(s).0;
            && l < |s1.luns| && f < |s1.luns[l].fragmap| && s1.free != []
            && var lun, p := s1.luns[l], s1.free[0];
               var beyond := set q: nat | q < PAGEPERFRAG && BeyondEnd(lun.nrSctr, f, q);
               && p < DATASPACE && Alloc(s, l, f).1 == Some(p)
               && s' == s1.(luns := s1.luns[l := lun.(nrService := lun.nrService + 1,
                                                      fragmap := lun.fragmap[f := Word(true, false, 0, p)])],
                            frags := s1.frags[p := Frag(l, f, beyond, PAGEPERFRAG - |beyond|, 1, 0, 0, 0)],
                            free := s1.free[1..])
  {
    hide Boundary, Core, Shrinks, SameTables, Reclaim, TailCount, NewFrag, Alloc, PagesOk;
    AllocKeeps(s, l, f);
    var s1 := Reclaim(s).0;
    BoundaryParts(s1);
    NewFragExact(s1, l, f);
  }

  lemma NewFragExact(s: Sce, l: nat, f: nat)
    requires Shape(s) && l < |s.luns| && f < |s.luns[l].fragmap|
    ensures var t := TailCount(s.luns[l].nrSctr, |s.luns[l].fragmap|, f);
            var beyond := set q: nat | q < PAGEPERFRAG && BeyondEnd(s.luns[l].nrSctr, f, q);
            t <= PAGEPERFRAG && NewFrag(l, f, t) == Frag(l, f, beyond, PAGEPERFRAG - |beyond|, 1, 0, 0, 0)
  {
    TailFits(s, l, f);
    assert LunOk(s.luns[l]);
    var t := TailCount(s.luns[l].nrSctr, |s.luns[l].fragmap|, f);
    var beyond := set q: nat | q < PAGEPERFRAG && BeyondEnd(s.luns[l].nrSctr, f, q);
    forall q: nat | q < PAGEPERFRAG && InRun(PAGEPERFRAG - t, t, q) ensures BeyondEnd(s.luns[l].nrSctr, f, q) {
    }
    assert PageRange(PAGEPERFRAG - t, t) == beyond;
    RangeSize(PAGEPERFRAG - t, t);
  }

  // ----- the partition

  function MappedSet(s: Sce): set<nat> { set p | p in s.frags && s.frags[p].fragnum < UNLISTED }

  /** Every fragment is in exactly one place: on the free list, or mapped by exactly one entry, the one it names. */
  lemma Partition(s: Sce)
    requires Core(s)
    ensures forall p :: p in s.frags ==> (p in s.free <==> forall l: nat, f: nat :: !MappedTo(s, l, f, p))
    ensures forall l: nat, f: nat, m: nat, g: nat, p: nat ::
        MappedTo(s, l, f, p) && MappedTo(s, m, g, p) ==> l == m && f == g
    ensures forall p :: p in s.frags && p !in s.free ==> MappedTo(s, s.frags[p].lunidx, s.frags[p].fragnum, p)
    ensures NoDuplicates(s.free) && (forall p :: p in s.free ==> p in s.frags)
    ensures s.nrFrag == |s.free| + |MappedSet(s)|
  {
    hide Distinct, FragsOk, Services;
    forall l: nat, f: nat, p: nat | MappedTo(s, l, f, p) ensures p in s.frags && p !in s.free {
      SmallLun(s, l);
    }
    hide Shape;
    ListSize(s.free, s.frags.Keys - MappedSet(s));
    assert s.frags.Keys == MappedSet(s) + (s.frags.Keys - MappedSet(s));
  }

  /** A list without duplicates that holds exactly the members of a set is as long as the set is large. */
  lemma {:induction false} ListSize(free: seq<nat>, all: set<nat>)
    requires NoDuplicates(free) && forall q :: q in free <==> q in all
    ensures |free| == |all|
  {
    if free != [] {
      var rest := all - {free[0]};
      assert free[0] in free;
      assert |rest| == |all| - 1;
      forall q ensures q in free[1..] <==> q in rest {
        if q in rest {
          assert q in free && q != free[0];
        }
        if q in free[1..] {
          assert q in free;
        }
      }
      ListSize(free[1..], rest);
    } else {
      assert all == {};
    }
  }
}
