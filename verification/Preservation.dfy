// Every call keeps the invariant.

module Preservation {
  import opened SceState
  import opened Invariants

  predicate KeptLun(a: Lun, b: Lun) { !b.present || SameLun(a, b) }

  /** A step that only drops idle mappings or marks pages invalid. */
  ghost predicate Shrinks(s: Sce, s': Sce) {
    && |s'.luns| == |s.luns|
    && (forall l :: 0 <= l < |s.luns| ==> KeptLun(s.luns[l], s'.luns[l]))
    && (forall l: nat, f: nat, p: nat :: MappedTo(s', l, f, p) ==>
          && MappedTo(s, l, f, p) && p in s.frags && p in s'.frags
          && s'.luns[l].fragmap[f] == s.luns[l].fragmap[f]
          && s'.frags[p].nrService == s.frags[p].nrService
          && s.frags[p].invalid <= s'.frags[p].invalid)
    && (forall l: nat, f: nat, p: nat :: MappedTo(s, l, f, p) && p in s.frags && s.frags[p].nrService > 0 ==>
          MappedTo(s', l, f, p))
  }

  lemma ShrinksTwice(s: Sce, s1: Sce, s2: Sce)
    requires Shrinks(s, s1) && Shrinks(s1, s2)
    ensures Shrinks(s, s2)
  {
    forall l: nat, f: nat, p: nat | MappedTo(s2, l, f, p)
      ensures MappedTo(s, l, f, p) && p in s.frags && p in s2.frags
      ensures s2.luns[l].fragmap[f] == s.luns[l].fragmap[f] && s2.frags[p].nrService == s.frags[p].nrService
      ensures s.frags[p].invalid <= s2.frags[p].invalid
    {
      assert MappedTo(s1, l, f, p);
    }
    forall l: nat, f: nat, p: nat | MappedTo(s, l, f, p) && p in s.frags && s.frags[p].nrService > 0
      ensures MappedTo(s2, l, f, p)
    {
      assert MappedTo(s1, l, f, p);
    }
  }

  lemma ShrinksSelf(s: Sce)
    requires Links(s)
    ensures Shrinks(s, s)
  {
  }

  lemma UnmapShrinks(s: Sce, l: nat, f: nat)
    requires Core(s)
    ensures Shrinks(s, Unmap(s, l, f))
  {
    UnmapTables(s, l, f);
    hide Shape, Distinct, Tables, FreeOk, FragsOk, Services;
    if Unmappable(s, l, f) {
      UnmapMapping(s, l, f);
      assert MappedTo(s, l, f, s.luns[l].fragmap[f].data);
      var s' := Unmap(s, l, f);
      forall m: nat, g: nat, q: nat | MappedTo(s', m, g, q)
        ensures q in s.frags && q in s'.frags && s'.luns[m].fragmap[g] == s.luns[m].fragmap[g] &&
            s'.frags[q] == s.frags[q]
      {
        assert MappedTo(s, m, g, q);
      }
      hide Links, MappedTo;
    } else {
      ShrinksSelf(s);
    }
  }

  // ----- purging a LUN

  lemma MappedUnmappable(s: Sce, l: nat, f: nat, p: nat)
    requires Shape(s) && Links(s) && MappedTo(s, l, f, p) && s.frags[p].nrService == 0
    ensures Unmappable(s, l, f)
  {
    assert LunOk(s.luns[l]);
  }

  /** An idle LUN has no fragment in service. */
  lemma IdleLun(s: Sce, l: nat, f: nat, p: nat)
    requires Services(s) && Links(s) && MappedTo(s, l, f, p) && s.luns[l].nrService == 0
    ensures s.frags[p].nrService == 0
  {
    SumBound(s.luns[l].fragmap, s.frags, f);
  }

  /** Only entries of LUN `l` below `n` are gone, and what stays mapped is untouched. */
  ghost predicate Frees(s: Sce, s': Sce, l: nat, n: nat) {
    && (forall m: nat, g: nat, p: nat :: MappedTo(s', m, g, p) <==> MappedTo(s, m, g, p) && !(m == l && g < n))
    && (forall m: nat, g: nat, p: nat ::
            MappedTo(s', m, g, p) && p in s.frags ==> p in s'.frags && s'.frags[p] == s.frags[p])
    && |s'.luns| == |s.luns|
    && (forall m :: 0 <= m < |s.luns| && m != l ==> s'.luns[m] == s.luns[m])
  }

  lemma UnmapFrees(s: Sce, l: nat, n: nat)
    requires Shape(s) && Links(s) && l < |s.luns| && n < |s.luns[l].fragmap|
    requires s.luns[l].fragmap[n].mapped ==> Unmappable(s, l, n)
    ensures Unmap(s, l, n).luns[l].nrService == s.luns[l].nrService
    ensures forall m: nat, g: nat, p: nat ::
        MappedTo(Unmap(s, l, n), m, g, p) <==> MappedTo(s, m, g, p) && !(m == l && g == n)
    ensures forall m: nat, g: nat, p: nat :: MappedTo(Unmap(s, l, n), m, g, p) && p in s.frags ==>
      p in Unmap(s, l, n).frags && Unmap(s, l, n).frags[p] == s.frags[p]
    ensures forall m :: 0 <= m < |s.luns| && m != l ==> Unmap(s, l, n).luns[m] == s.luns[m]
  {
    if s.luns[l].fragmap[n].mapped {
      assert MappedTo(s, l, n, s.luns[l].fragmap[n].data);
      UnmapMapping(s, l, n);
    }
  }

  lemma FreesStep(s: Sce, s1: Sce, s2: Sce, l: nat, n: nat)
    requires Frees(s, s1, l, n) && |s1.luns| == |s2.luns| && l < |s1.luns|
    requires forall m: nat, g: nat, p: nat :: MappedTo(s2, m, g, p) <==> MappedTo(s1, m, g, p) && !(m == l && g == n)
    requires forall m: nat, g: nat, p: nat ::
        MappedTo(s2, m, g, p) && p in s1.frags ==> p in s2.frags && s2.frags[p] == s1.frags[p]
    requires forall m :: 0 <= m < |s1.luns| && m != l ==> s2.luns[m] == s1.luns[m]
    ensures Frees(s, s2, l, n + 1)
  {
    hide MappedTo;
  }

  /** Purging an idle LUN frees its entries one by one. */
  lemma {:induction false} UnmapUpToFrees(s: Sce, l: nat, n: nat)
    requires Core(s) && l < |s.luns| && n <= |s.luns[l].fragmap| && s.luns[l].nrService == 0
    ensures var s' := UnmapUpTo(s, l, n);
            Core(s') && SameTables(s, s') && Shrinks(s, s') && s'.luns[l].nrService == 0 && Frees(s, s', l, n)
  {
    hide Shape, Distinct, Tables, Links, FreeOk, FragsOk, Services, Unmap, Unmappable, MappedTo;
    if n == 0 {
      ShrinksSelf(s);
    } else {
      UnmapUpToFrees(s, l, n - 1);
      var s1 := UnmapUpTo(s, l, n - 1);
      var s' := Unmap(s1, l, n - 1);
      hide Frees, Shrinks, UnmapUpTo;
      CoreUnmap(s1, l, n - 1);
      UnmapTables(s1, l, n - 1);
      UnmapShrinks(s1, l, n - 1);
      ShrinksTwice(s, s1, s');
      SameTablesTwice(s, s1, s');
      if s1.luns[l].fragmap[n - 1].mapped {
        UnmapIdleEntry(s1, l, n - 1);
      }
      UnmapFrees(s1, l, n - 1);
      FreesStep(s, s1, s', l, n - 1);
    }
  }

  lemma UnmapIdleEntry(s: Sce, l: nat, f: nat)
    requires Core(s) && l < |s.luns| && f < |s.luns[l].fragmap| && s.luns[l].nrService == 0 &&
        s.luns[l].fragmap[f].mapped
    ensures Unmappable(s, l, f)
  {
    var p := s.luns[l].fragmap[f].data;
    assert MappedTo(s, l, f, p);
    IdleLun(s, l, f, p);
    MappedUnmappable(s, l, f, p);
  }

  lemma PurgeIdle(s: Sce, l: nat)
    requires Core(s) && l < |s.luns| && s.luns[l].present && s.luns[l].nrService == 0
    ensures var (s', ok) := Purge(s, l);
            && ok && Core(s') && Shrinks(s, s')
            && s'.luns[l] == EMPTYLUN && s'.nrLun == s.nrLun - 1 && s'.nrFrag == s.nrFrag
            && Frees(s, s', l, |s.luns[l].fragmap|)
            && (forall g: nat, p: nat :: MappedTo(s, l, g, p) ==> p in s'.free)
  {
    var n := |s.luns[l].fragmap|;
    UnmapUpToFrees(s, l, n);
    var s1 := UnmapUpTo(s, l, n);
    LunCounted(s, l);
    var s' := s1.(luns := s1.luns[l := EMPTYLUN], nrLun := s.nrLun - 1);
    hide Shape, Distinct, Tables, Links, FreeOk, FragsOk, Services, Unmap, Unmappable, MappedTo, UnmapUpTo;
    assert s' == Purge(s, l).0;
    NoneLeft(s, s1, l);
    CoreClearSlot(s1, l);
    ClearFrees(s, s1, s', l);
    forall g: nat, p: nat | MappedTo(s, l, g, p) ensures p in s'.free {
      UnmappedIsFree(s, s', l, g, p);
    }
  }

  lemma LunCounted(s: Sce, l: nat)
    requires Shape(s) && l < |s.luns| && s.luns[l].present
    ensures s.nrLun > 0
  {
    assert l in PresentLuns(s.luns);
  }

  lemma NoneLeft(s: Sce, s1: Sce, l: nat)
    requires l < |s.luns| && Frees(s, s1, l, |s.luns[l].fragmap|)
    ensures forall g: nat, p: nat :: !MappedTo(s1, l, g, p)
  {
  }

  lemma ClearFrees(s: Sce, s1: Sce, s': Sce, l: nat)
    requires l < |s.luns| && Frees(s, s1, l, |s.luns[l].fragmap|) && Shrinks(s, s1)
    requires s' == s1.(luns := s1.luns[l := EMPTYLUN], nrLun := s'.nrLun)
    requires forall g: nat, p: nat :: MappedTo(s, l, g, p) && p in s.frags ==> s.frags[p].nrService == 0
    ensures Frees(s, s', l, |s.luns[l].fragmap|) && Shrinks(s, s')
  {
    assert forall m: nat, g: nat, p: nat :: MappedTo(s', m, g, p) <==> MappedTo(s1, m, g, p);
  }

  /** A fragment that lost its mapping is on the free list. */
  lemma UnmappedIsFree(s: Sce, s': Sce, l: nat, f: nat, p: nat)
    requires Links(s) && Links(s') && FreeOk(s') && MappedTo(s, l, f, p) && p in s'.frags
    requires forall g: nat, q: nat :: !MappedTo(s', l, g, q)
    requires forall m: nat, g: nat :: MappedTo(s', m, g, p) ==> MappedTo(s, m, g, p)
    ensures p in s'.free
  {
    assert s'.frags[p].fragnum == WITHINFREELIST;
  }

  lemma CoreClearSlot(s: Sce, l: nat)
    requires Core(s) && l < |s.luns| && s.luns[l].present && s.nrLun > 0
    requires forall g: nat, p: nat :: !MappedTo(s, l, g, p)
    ensures Core(s.(luns := s.luns[l := EMPTYLUN], nrLun := s.nrLun - 1))
  {
    var s' := s.(luns := s.luns[l := EMPTYLUN], nrLun := s.nrLun - 1);
    ClearTables(s, s', l);
    hide Shape, Distinct, Tables;
    assert Services(s');
    hide Links, FreeOk, FragsOk, Services;
    assert forall m: nat, g: nat, p: nat :: MappedTo(s', m, g, p) <==> MappedTo(s, m, g, p);
    assert forall m: nat, g: nat, p: nat :: MappedTo(s, m, g, p) ==> m != l && s'.luns[m] == s.luns[m];
    hide MappedTo;
    SameMappingCore(s, s');
  }

  lemma ClearTables(s: Sce, s': Sce, l: nat)
    requires Shape(s) && Distinct(s) && Tables(s) && l < |s.luns| && s.luns[l].present && s.nrLun > 0
    requires s' == s.(luns := s.luns[l := EMPTYLUN], nrLun := s.nrLun - 1)
    ensures Shape(s') && Distinct(s') && Tables(s')
  {
    assert PresentLuns(s'.luns) == PresentLuns(s.luns) - {l};
    assert l in PresentLuns(s.luns);
  }

  /** The mapping and the fragments being the same, only the tables need a look. */
  lemma SameMappingCore(s: Sce, s': Sce)
    requires Core(s) && s'.frags == s.frags && s'.free == s.free && Shape(s') && Distinct(s') && Tables(s')
    requires forall m: nat, g: nat, p: nat :: MappedTo(s', m, g, p) <==> MappedTo(s, m, g, p)
    requires forall m: nat, g: nat, p: nat :: MappedTo(s, m, g, p) ==>
      s'.luns[m].nrSctr == s.luns[m].nrSctr && s'.luns[m].fragmap[g] == s.luns[m].fragmap[g]
    requires Services(s')
    ensures Core(s')
  {
    hide Shape, Distinct, Tables, MappedTo;
  }

  // ----- garbage collection

  /** LUN `l` is gone: slot cleared, one LUN less, all its fragments on the free list. */
  ghost predicate Purged(s: Sce, s': Sce, l: nat) {
    && l < |s'.luns| && s'.luns[l] == EMPTYLUN && s'.nrLun == s.nrLun - 1
    && forall g: nat, q: nat :: MappedTo(s, l, g, q) ==> q in s'.free
  }

  /** What _lun_gc does to a state whose only dead fragment may be `p` and whose only LUN due for deletion may be `l`.
      */
  lemma GcSettles(s: Sce, l: nat, f: nat, p: nat)
    requires Core(s) && l < |s.luns| && p in s.frags
    requires s.frags[p].fragnum == WITHINFREELIST || MappedTo(s, l, f, p)
    requires forall m :: 0 <= m < |s.luns| && m != l && s.luns[m].waiting ==> s.luns[m].nrService > 0
    requires forall m: nat, g: nat, q: nat ::
      MappedTo(s, m, g, q) && q in s.frags && q != p
      && s.luns[m].fragmap[g].valid && s.frags[q].nrService == 0 ==>
      s.frags[q].nrValid > 0
    ensures Boundary(Gc(s, l, p)) && Shrinks(s, Gc(s, l, p))
    ensures s.luns[l].waiting && s.luns[l].nrService == 0 ==> Purged(s, Gc(s, l, p), l)
  {
    hide Shape, Distinct, Tables, Links, FreeOk, FragsOk, Services, Unmap, MappedTo, NoDead, Shrinks, Purge;
    GcFirst(s, l, f, p);
    var s1 := GcUnmap(s, l, p);
    assert Gc(s, l, p) == if s1.luns[l].waiting && s1.luns[l].nrService == 0 then Purge(s1, l).0 else s1;
    if s1.luns[l].waiting && s1.luns[l].nrService == 0 {
      GcPurge(s, l, p);
    }
  }

  lemma GcFirst(s: Sce, l: nat, f: nat, p: nat)
    requires Core(s) && l < |s.luns| && p in s.frags
    requires s.frags[p].fragnum == WITHINFREELIST || MappedTo(s, l, f, p)
    requires forall m: nat, g: nat, q: nat ::
      MappedTo(s, m, g, q) && q in s.frags && q != p
      && s.luns[m].fragmap[g].valid && s.frags[q].nrService == 0 ==>
      s.frags[q].nrValid > 0
    ensures var s1 := GcUnmap(s, l, p);
            && Core(s1) && Shrinks(s, s1) && NoDead(s1) && |s1.luns| == |s.luns| && s1.nrLun == s.nrLun
            && forall m :: 0 <= m < |s.luns| ==>
                 s1.luns[m].nrService == s.luns[m].nrService && s1.luns[m].waiting == s.luns[m].waiting
  {
    GcUnmapLive(s, l, f, p);
    hide Shape, Distinct, Tables, FreeOk, FragsOk, Services, Unmap, MappedTo, NoDead;
    CoreUnmap(s, l, s.frags[p].fragnum);
    UnmapShrinks(s, l, s.frags[p].fragnum);
    ShrinksSelf(s);
    hide Links, Shrinks;
    GcUnmapService(s, l, p);
  }

  lemma GcPurge(s: Sce, l: nat, p: nat)
    requires Core(s) && l < |s.luns| && p in s.frags
    requires var s1 := GcUnmap(s, l, p);
             && Core(s1) && Shrinks(s, s1) && NoDead(s1) && |s1.luns| == |s.luns| && s1.nrLun == s.nrLun
             && s1.luns[l].waiting && s1.luns[l].nrService == 0
    ensures var s2 := Purge(GcUnmap(s, l, p), l).0;
            && Core(s2) && Shrinks(s, s2) && NoDead(s2) && |s2.luns| == |s.luns|
            && s2.luns[l] == EMPTYLUN && s2.nrLun == s.nrLun - 1
            && (forall m :: 0 <= m < |s.luns| && m != l ==> s2.luns[m] == GcUnmap(s, l, p).luns[m])
            && (forall g: nat, q: nat :: MappedTo(s, l, g, q) ==> q in s2.free)
  {
    var s1 := GcUnmap(s, l, p);
    WaitingPresent(s1, l);
    hide Shape, Distinct, Tables, Links, FreeOk, FragsOk, Services, Unmap, MappedTo, NoDead;
    PurgeIdle(s1, l);
    var s2 := Purge(s1, l).0;
    ShrinksTwice(s, s1, s2);
    hide Shrinks;
    PurgeNoDead(s1, s2, l);
    forall g: nat, q: nat | MappedTo(s, l, g, q) ensures q in s2.free {
      GcFrees(s, l, p, g, q);
    }
  }

  /** The first half of _lun_gc. */
  function GcUnmap(s: Sce, l: nat, p: nat): Sce
    requires p in s.frags
  {
    if s.frags[p].nrService == 0 && s.frags[p].nrValid == 0 then Unmap(s, l, s.frags[p].fragnum) else s
  }

  lemma WaitingPresent(s: Sce, l: nat)
    requires Shape(s) && l < |s.luns| && s.luns[l].waiting
    ensures s.luns[l].present
  {
    assert LunOk(s.luns[l]);
  }

  lemma GcUnmapService(s: Sce, l: nat, p: nat)
    requires p in s.frags
    ensures var s1 := GcUnmap(s, l, p);
            |s1.luns| == |s.luns| && s1.nrLun == s.nrLun
            && forall m :: 0 <= m < |s.luns| ==>
                 s1.luns[m].nrService == s.luns[m].nrService && s1.luns[m].waiting == s.luns[m].waiting
  {
  }

  lemma GcUnmapLive(s: Sce, l: nat, f: nat, p: nat)
    requires Core(s) && l < |s.luns| && p in s.frags
    requires s.frags[p].fragnum == WITHINFREELIST || MappedTo(s, l, f, p)
    requires forall m: nat, g: nat, q: nat ::
      MappedTo(s, m, g, q) && q in s.frags && q != p
      && s.luns[m].fragmap[g].valid && s.frags[q].nrService == 0 ==>
      s.frags[q].nrValid > 0
    ensures NoDead(GcUnmap(s, l, p))
  {
    var s1 := GcUnmap(s, l, p);
    GcUnmapFrag(s, l, p);
    assert Shrinks(s, s1) by { UnmapShrinks(s, l, s.frags[p].fragnum); ShrinksSelf(s); }
    hide Shape, Distinct, Tables, FreeOk, FragsOk, Services, GcUnmap;
    forall m: nat, g: nat, q: nat | MappedTo(s1, m, g, q) && q in s1.frags && s1.luns[m].fragmap[g].valid &&
        s1.frags[q].nrService == 0
      ensures s1.frags[q].nrValid > 0
    {
      assert MappedTo(s, m, g, q);
      if q == p {
        assert m == l && g == f;
        GcLeavesLive(s, l, f, p);
      }
    }
  }

  lemma GcUnmapFrag(s: Sce, l: nat, p: nat)
    requires Links(s) && p in s.frags
    ensures forall q ::
        q in s.frags ==> q in GcUnmap(s, l, p).frags && GcUnmap(s, l, p).frags[q].nrValid == s.frags[q].nrValid
  {
  }

  lemma PurgeNoDead(s: Sce, s': Sce, l: nat)
    requires Core(s) && NoDead(s) && Shrinks(s, s') && l < |s.luns| && Frees(s, s', l, |s.luns[l].fragmap|)
    ensures NoDead(s')
  {
    hide Shape, Distinct, Tables, FreeOk, FragsOk, Services, MappedTo;
  }

  /** What was mapped in a LUN that gets purged ends on the free list. */
  lemma GcFrees(s: Sce, l: nat, p: nat, g: nat, q: nat)
    requires Core(s) && l < |s.luns| && p in s.frags && MappedTo(s, l, g, q)
    requires Core(GcUnmap(s, l, p))
    requires forall h: nat, r: nat :: MappedTo(GcUnmap(s, l, p), l, h, r) ==> r in Purge(GcUnmap(s, l, p), l).0.free
    ensures q in Purge(GcUnmap(s, l, p), l).0.free
  {
    var s1 := GcUnmap(s, l, p);
    hide Shape, Distinct, Tables, FreeOk, FragsOk, Services;
    if !MappedTo(s1, l, g, q) {
      assert s1.frags[q].fragnum == WITHINFREELIST;
      PurgeKeepsFree(s1, l, q);
    }
  }

  /** The fragment handed to _lun_gc, if it is still mapped afterwards, is in service or has a valid page. */
  lemma GcLeavesLive(s: Sce, l: nat, f: nat, p: nat)
    requires Core(s) && MappedTo(s, l, f, p)
    requires MappedTo(GcUnmap(s, l, p), l, f, p)
    ensures s.frags[p].nrService == 0 ==> s.frags[p].nrValid > 0
  {
    assert s.frags[p].fragnum == f;
    assert LunOk(s.luns[l]);
    assert PagesOk(s.frags[p], s.luns[l].nrSctr, f);
    if s.frags[p].nrService == 0 {
      FewPages(s.frags[p].invalid);
      if s.frags[p].nrValid == 0 {
        assert Unmappable(s, l, f);
        UnmapMapping(s, l, f);
      }
    }
  }

  /** A set of page numbers has at most 256 members, and exactly 256 only if it is all of them. */
  lemma FewPages(pages: set<nat>)
    requires forall q :: q in pages ==> q < PAGEPERFRAG
    ensures |pages| <= PAGEPERFRAG
    ensures |pages| == PAGEPERFRAG ==> pages == PageRange(0, PAGEPERFRAG)
  {
    RangeSize(0, PAGEPERFRAG);
    var rest := PageRange(0, PAGEPERFRAG) - pages;
    assert pages + rest == PageRange(0, PAGEPERFRAG);
    assert pages !! rest;
    assert |pages + rest| == |pages| + |rest|;
    if |pages| == PAGEPERFRAG {
      assert rest == {};
    }
  }

  lemma {:induction false} UnmapUpToKeepsFree(s: Sce, l: nat, n: nat, q: nat)
    requires q in s.free
    ensures q in UnmapUpTo(s, l, n).free
  {
    if n > 0 {
      UnmapUpToKeepsFree(s, l, n - 1, q);
    }
  }

  lemma PurgeKeepsFree(s: Sce, l: nat, q: nat)
    requires Core(s) && q in s.frags && s.frags[q].fragnum == WITHINFREELIST
    ensures q in Purge(s, l).0.free
  {
    if l < |s.luns| {
      UnmapUpToKeepsFree(s, l, |s.luns[l].fragmap|, q);
    }
  }
}
