// Reads and invalidations of one fragment: the calls' effect on the mappings and on the services, and what they keep.

module Requests {
  import opened Words
  import opened SceState
  import opened Invariants
  import opened Preservation
  import opened Collection

  // ----- pinning

  /** Fragment `p`, mapped at entry `f` of LUN `l`, gets `d` more tokens; mappings and pages stay. */
  ghost predicate Pins(s: Sce, s': Sce, l: nat, f: nat, p: nat, d: int) {
    && |s'.luns| == |s.luns| && (forall m :: 0 <= m < |s.luns| ==> SameLun(s.luns[m], s'.luns[m]))
    && MappedTo(s, l, f, p) && p in s.frags
    && (forall m: nat, g: nat, q: nat :: MappedTo(s', m, g, q) <==> MappedTo(s, m, g, q))
    && (forall m: nat, g: nat, q: nat ::
            MappedTo(s, m, g, q) && q != p ==> s'.luns[m].fragmap[g] == s.luns[m].fragmap[g])
    && (forall q :: q in s.frags ==> q in s'.frags && s'.frags[q].invalid == s.frags[q].invalid
                                     && s'.frags[q].nrService == s.frags[q].nrService + if q == p then d else 0)
  }

  lemma AdjustPins(s: Sce, s': Sce, l: nat, f: nat, p: nat, d: int)
    requires Links(s) && Adjusts(s, s', l, f, p)
    requires s'.frags[p].invalid == s.frags[p].invalid && s'.frags[p].nrService == s.frags[p].nrService + d
    ensures Pins(s, s', l, f, p, d)
  {
    AdjustMapping(s, s', l, f, p);
  }

  lemma AdjustIs(s: Sce, l: nat, f: nat, p: nat, w: Word, fr: Frag, n: nat)
    requires Shape(s) && MappedTo(s, l, f, p) && p in s.frags && w.mapped && w.data == p
    ensures Adjusts(s, SetService(SetDesc(SetFrag(s, p, fr), l, f, w), l, n), l, f, p)
  {
    assert LunOk(s.luns[l]);
    assert SetFrag(s, p, fr).frags.Keys == s.frags.Keys;
  }

  /** The state after changing one mapped fragment, its entry and its LUN's count. */
  lemma CoreReplace(s: Sce, l: nat, f: nat, p: nat, w: Word, fr: Frag, n: nat)
    requires Core(s) && MappedTo(s, l, f, p) && w.mapped && w.data == p
    requires fr.lunidx == l && fr.fragnum == f && PagesOk(fr, s.luns[l].nrSctr, f)
    requires !w.valid ==> fr.nrService == 1
    requires p in s.frags && n - s.luns[l].nrService == fr.nrService - s.frags[p].nrService
    ensures Core(SetService(SetDesc(SetFrag(s, p, fr), l, f, w), l, n))
    ensures fr.invalid == s.frags[p].invalid ==>
      Pins(s, SetService(SetDesc(SetFrag(s, p, fr), l, f, w), l, n), l, f, p, fr.nrService - s.frags[p].nrService)
  {
    hide Shape, Distinct, Tables, Links, FreeOk, FragsOk, Services, Adjusts, Pins, PagesOk;
    AdjustIs(s, l, f, p, w, fr, n);
    CoreAdjust(s, SetService(SetDesc(SetFrag(s, p, fr), l, f, w), l, n), l, f, p);
    if fr.invalid == s.frags[p].invalid {
      AdjustPins(s, SetService(SetDesc(SetFrag(s, p, fr), l, f, w), l, n), l, f, p,
          fr.nrService - s.frags[p].nrService);
    }
  }

  /** Writing an entry or a count back unchanged does nothing. */
  lemma SetSame(s: Sce, l: nat, f: nat)
    requires l < |s.luns| && f < |s.luns[l].fragmap|
    ensures SetDesc(s, l, f, s.luns[l].fragmap[f]) == s
    ensures SetService(s, l, s.luns[l].nrService) == s
  {
    assert s.luns[l].fragmap[f := s.luns[l].fragmap[f]] == s.luns[l].fragmap;
    assert s.luns[l := s.luns[l]] == s.luns;
  }

  lemma MappedFacts(s: Sce, l: nat, f: nat, p: nat)
    requires Core(s) && MappedTo(s, l, f, p)
    ensures p in s.frags && s.frags[p].lunidx == l && s.frags[p].fragnum == f && f < UNLISTED
    ensures PagesOk(s.frags[p], s.luns[l].nrSctr, f)
    ensures !s.luns[l].fragmap[f].valid ==> s.frags[p].nrService == 1
    ensures s.frags[p].nrService <= s.luns[l].nrService
    ensures s.luns[l].present
  {
    assert LunOk(s.luns[l]);
    SumBound(s.luns[l].fragmap, s.frags, f);
  }

  // ----- reads

  lemma InRange(s: Sce, l: nat, sctr: nat, n: nat, serviceable: bool)
    requires Shape(s) && Admits(s, l, sctr, n, serviceable)
    ensures FirstPage(sctr) / PAGEPERFRAG == sctr / SCTRPERFRAG
    ensures LastPage(sctr, n) / PAGEPERFRAG == (sctr + n - 1) / SCTRPERFRAG < |s.luns[l].fragmap|
    ensures OneFragment(sctr, n) <==> (sctr + n - 1) / SCTRPERFRAG == sctr / SCTRPERFRAG
    ensures sctr / SCTRPERFRAG <= (sctr + n - 1) / SCTRPERFRAG
  {
    assert LunOk(s.luns[l]);
  }

  /** Hit, miss and reference counts of a mapped fragment may change freely below the ceiling. */
  lemma StatsKeep(s: Sce, l: nat, f: nat, p: nat, fr: Frag)
    requires Boundary(s) && MappedTo(s, l, f, p) && p in s.frags
    requires fr == s.frags[p].(nrHit := fr.nrHit, nrMiss := fr.nrMiss, nrRef := fr.nrRef) && fr.nrRef <= REFCEILING
    ensures Boundary(SetFrag(s, p, fr)) && Shrinks(s, SetFrag(s, p, fr))
  {
    hide Shape, Distinct, Tables, Links, FreeOk, FragsOk, Services, PagesOk, Shrinks, NoDead;
    MappedFacts(s, l, f, p);
    HitPages(s.frags[p], fr, s.luns[l].nrSctr, f);
    CoreReplace(s, l, f, p, s.luns[l].fragmap[f], fr, s.luns[l].nrService);
    SetSame(SetFrag(s, p, fr), l, f);
    PinsShrinks(s, SetFrag(s, p, fr), l, f, p);
    NoDeadSame(s, SetFrag(s, p, fr));
  }

  lemma PinsShrinks(s: Sce, s': Sce, l: nat, f: nat, p: nat)
    requires Links(s) && Pins(s, s', l, f, p, 0) && s'.luns[l].fragmap[f] == s.luns[l].fragmap[f]
    ensures Shrinks(s, s')
  {
    forall m: nat, g: nat, q: nat | MappedTo(s', m, g, q) ensures s'.luns[m].fragmap[g] == s.luns[m].fragmap[g] {
      assert MappedTo(s, m, g, q);
      if q == p {
        assert m == l && g == f;
      }
    }
  }

  lemma NoDeadSame(s: Sce, s': Sce)
    requires NoDead(s) && s'.luns == s.luns && s'.frags.Keys == s.frags.Keys
    requires forall q ::
        q in s.frags ==> s'.frags[q].nrValid == s.frags[q].nrValid && s'.frags[q].nrService == s.frags[q].nrService
    ensures NoDead(s')
  {
    assert forall m: nat, g: nat, q: nat :: MappedTo(s', m, g, q) <==> MappedTo(s, m, g, q);
  }

  lemma CountersKeep(s: Sce, s1: Sce, s': Sce)
    requires Boundary(s1) && Shrinks(s, s1)
    requires s'.cdevs == s1.cdevs && s'.nrCdev == s1.nrCdev && s'.luns == s1.luns && s'.nrLun == s1.nrLun
    requires s'.nrFrag == s1.nrFrag && s'.free == s1.free && s'.frags == s1.frags
    ensures Boundary(s') && Shrinks(s, s')
  {
    hide Core, Deferred, NoDead;
    assert Boundary(s') by { CoreCounters(s1, s'); }
    assert forall m: nat, g: nat, q: nat :: MappedTo(s', m, g, q) <==> MappedTo(s1, m, g, q);
  }

  /** A new hit pins its fragment and changes nothing else a reader could see. */
  lemma HitKeeps(s: Sce, l: nat, f: nat, p: nat, s': Sce)
    requires Boundary(s) && MappedTo(s, l, f, p) && p in s.frags && s.luns[l].fragmap[f].valid
    requires var fr := s.frags[p];
             var ref := if fr.nrRef < REFCEILING then fr.nrRef + 1 else fr.nrRef;
             s' == SetService(SetFrag(s, p, fr.(nrHit := fr.nrHit + 1, nrService := fr.nrService + 1, nrRef := ref)),
                 l, s.luns[l].nrService + 1)
    ensures Boundary(s') && Pins(s, s', l, f, p, 1) && s'.luns[l].fragmap == s.luns[l].fragmap
  {
    hide Shape, Distinct, Tables, Links, FreeOk, FragsOk, Services, PagesOk, Pins, NoDead;
    MappedFacts(s, l, f, p);
    var fr := s'.frags[p];
    HitPages(s.frags[p], fr, s.luns[l].nrSctr, f);
    CoreReplace(s, l, f, p, s.luns[l].fragmap[f], fr, s.luns[l].nrService + 1);
    SetSame(SetFrag(s, p, fr), l, f);
    PinsNoDead(s, s', l, f, p);
  }

  lemma HitPages(fr: Frag, fr': Frag, nrSctr: nat, f: nat)
    requires PagesOk(fr, nrSctr, f) && fr'.invalid == fr.invalid && fr'.nrValid == fr.nrValid && fr'.nrRef <= REFCEILING
    ensures PagesOk(fr', nrSctr, f)
  {
  }

  lemma PinsNoDead(s: Sce, s': Sce, l: nat, f: nat, p: nat)
    requires NoDead(s) && Links(s) && Pins(s, s', l, f, p, 1) && s'.luns[l].fragmap[f] == s.luns[l].fragmap[f]
    requires forall q :: q in s.frags && q in s'.frags ==> s'.frags[q].nrValid == s.frags[q].nrValid
    ensures NoDead(s')
  {
    forall m: nat, g: nat, q: nat | MappedTo(s', m, g, q) && q in s'.frags && s'.luns[m].fragmap[g].valid &&
        s'.frags[q].nrService == 0
      ensures s'.frags[q].nrValid > 0
    {
      assert MappedTo(s, m, g, q) && q in s.frags;
      assert q != p;
    }
  }

  /** sce_get4read: a hit means the fragment is mapped, readable and has no invalid page in the request. */
  lemma Get4ReadKeeps(s: Sce, l: nat, sctr: nat, n: nat)
    requires Boundary(s)
    ensures var (s', hit) := Get4Read(s, l, sctr, n);
            && Boundary(s')
            && (hit.None? ==> Shrinks(s, s'))
            && (hit.Some? ==>
                  && Admits(s, l, sctr, n, true) && OneFragment(sctr, n)
                  && var f := FirstPage(sctr) / PAGEPERFRAG;
                     && Pins(s, s', l, f, hit.value, 1) && s'.luns[l].fragmap == s.luns[l].fragmap
                     && Hits(s, l, f, TouchedPages(f, FirstPage(sctr), LastPage(sctr, n)), hit.value))
  {
    hide Shape, Distinct, Tables, Links, FreeOk, FragsOk, Services, PagesOk, Pins, NoDead, Shrinks, Deferred;
    var (s', hit) := Get4Read(s, l, sctr, n);
    ShrinksSelf(s);
    if Admits(s, l, sctr, n, true) && OneFragment(sctr, n) {
      InRange(s, l, sctr, n, true);
      var f := FirstPage(sctr) / PAGEPERFRAG;
      var d := s.luns[l].fragmap[f];
      if !d.mapped {
        CoreUnmappedEntry(s, l, f, Inc(d));
        EntryShrinks(s, l, f, Inc(d));
        CountersKeep(s, SetDesc(s, l, f, Inc(d)), s');
      } else {
        assert MappedTo(s, l, f, d.data);
        MappedFacts(s, l, f, d.data);
        if hit.Some? {
          HitKeeps(s, l, f, d.data, s'.(nrHit := s.nrHit));
          HitCounter(s, s'.(nrHit := s.nrHit), s', l, f, d.data);
        } else {
          RefBound(s, l, f, d.data);
          StatsKeep(s, l, f, d.data, s.frags[d.data].(nrMiss := s.frags[d.data].nrMiss + 1));
          CountersKeep(s, SetFrag(s, d.data, s.frags[d.data].(nrMiss := s.frags[d.data].nrMiss + 1)), s');
        }
      }
    }
  }

  lemma RefBound(s: Sce, l: nat, f: nat, p: nat)
    requires Core(s) && MappedTo(s, l, f, p)
    ensures p in s.frags && s.frags[p].nrRef <= REFCEILING
  {
  }

  lemma HitCounter(s: Sce, s1: Sce, s': Sce, l: nat, f: nat, p: nat)
    requires Boundary(s1) && Pins(s, s1, l, f, p, 1) && s' == s1.(nrHit := s'.nrHit)
    ensures Boundary(s') && Pins(s, s', l, f, p, 1)
  {
    hide Core, Deferred, NoDead;
    assert Boundary(s') by { CoreCounters(s1, s'); }
    assert forall m: nat, g: nat, q: nat :: MappedTo(s', m, g, q) <==> MappedTo(s1, m, g, q);
  }

  lemma EntryShrinks(s: Sce, l: nat, f: nat, w: Word)
    requires Core(s) && l < |s.luns| && f < |s.luns[l].fragmap| && !s.luns[l].fragmap[f].mapped && !w.mapped
    ensures Shrinks(s, SetDesc(s, l, f, w))
  {
    hide Shape, Distinct, Tables, FreeOk, FragsOk, Services;
    EntryMapping(s, l, f, w);
    EntryTables(s, l, f, w);
  }

  // ----- giving a token back

  /** One token less on fragment `p` of LUN `l`. */
  function Release(s: Sce, l: nat, p: nat): Sce
    requires l < |s.luns| && p in s.frags && s.frags[p].nrService > 0 && s.luns[l].nrService > 0
  {
    SetService(SetFrag(s, p, s.frags[p].(nrService := s.frags[p].nrService - 1)), l, s.luns[l].nrService - 1)
  }

  lemma ReleaseCore(s: Sce, l: nat, f: nat, p: nat)
    requires Boundary(s) && MappedTo(s, l, f, p) && s.luns[l].fragmap[f].valid
    requires p in s.frags && s.frags[p].nrService > 0 && s.luns[l].nrService > 0
    ensures Core(Release(s, l, p)) && Pins(s, Release(s, l, p), l, f, p, -1)
    ensures Release(s, l, p).luns[l].fragmap == s.luns[l].fragmap
  {
    hide Shape, Distinct, Tables, Links, FreeOk, FragsOk, Services, PagesOk, Pins, NoDead, Deferred;
    MappedFacts(s, l, f, p);
    var fr := s.frags[p].(nrService := s.frags[p].nrService - 1);
    HitPages(s.frags[p], fr, s.luns[l].nrSctr, f);
    CoreReplace(s, l, f, p, s.luns[l].fragmap[f], fr, s.luns[l].nrService - 1);
    SetSame(SetFrag(s, p, fr), l, f);
  }

  lemma OthersLive(s: Sce, s': Sce, l: nat, f: nat, p: nat, d: int)
    requires NoDead(s) && Pins(s, s', l, f, p, d) && Links(s)
    requires forall q :: q in s.frags && q in s'.frags && q != p ==> s'.frags[q].nrValid == s.frags[q].nrValid
    ensures forall m: nat, g: nat, q: nat ::
      MappedTo(s', m, g, q) && q in s'.frags && q != p
      && s'.luns[m].fragmap[g].valid && s'.frags[q].nrService == 0 ==>
      s'.frags[q].nrValid > 0
  {
    forall m: nat, g: nat, q: nat | MappedTo(s', m, g, q) && q in s'.frags && q != p && s'.luns[m].fragmap[g].valid &&
        s'.frags[q].nrService == 0
      ensures s'.frags[q].nrValid > 0
    {
      assert MappedTo(s, m, g, q) && q in s.frags;
    }
  }

  lemma PurgedFrom(s: Sce, s1: Sce, s': Sce, l: nat)
    requires Purged(s1, s', l) && s1.nrLun == s.nrLun
    requires forall m: nat, g: nat, q: nat :: MappedTo(s1, m, g, q) <==> MappedTo(s, m, g, q)
    ensures Purged(s, s', l)
  {
    hide MappedTo;
  }

  /** Returning a token and collecting garbage after it. */
  lemma ReleaseKeeps(s: Sce, l: nat, f: nat, p: nat)
    requires Boundary(s) && MappedTo(s, l, f, p) && s.luns[l].fragmap[f].valid
    requires p in s.frags && s.frags[p].nrService > 0 && s.luns[l].nrService > 0
    ensures var s1 := Release(s, l, p);
            var s' := if s.frags[p].nrService == 1 then Gc(s1, l, p) else s1;
            && Boundary(s') && Shrinks(s1, s')
            && (s.luns[l].waiting && s.luns[l].nrService == 1 ==> Purged(s, s', l))
  {
    hide Shape, Distinct, Tables, Links, FreeOk, FragsOk, Services, PagesOk, NoDead, Shrinks, Gc;
    var s1 := Release(s, l, p);
    ReleaseCore(s, l, f, p);
    MappedFacts(s, l, f, p);
    OthersLive(s, s1, l, f, p, -1);
    ShrinksSelf(s1);
    if s.frags[p].nrService == 1 {
      GcSettles(s1, l, f, p);
      if s.luns[l].waiting && s.luns[l].nrService == 1 {
        PurgedFrom(s, s1, Gc(s1, l, p), l);
      }
    } else {
      MappedFacts(s1, l, f, p);
      BusyLive(s1, p);
    }
  }

  lemma BusyLive(s: Sce, p: nat)
    requires p in s.frags && s.frags[p].nrService > 0
    requires forall m: nat, g: nat, q: nat ::
      MappedTo(s, m, g, q) && q in s.frags && q != p
      && s.luns[m].fragmap[g].valid && s.frags[q].nrService == 0 ==>
      s.frags[q].nrValid > 0
    ensures NoDead(s)
  {
  }

  predicate CanPut(s: Sce, l: nat, sctr: nat, n: nat) {
    && Admits(s, l, sctr, n, false) && OneFragment(sctr, n)
    && var f := FirstPage(sctr) / PAGEPERFRAG;
       && f < |s.luns[l].fragmap| && s.luns[l].fragmap[f].mapped && s.luns[l].fragmap[f].valid
       && s.luns[l].fragmap[f].data in s.frags && s.frags[s.luns[l].fragmap[f].data].nrService > 0
  }

  /** sce_put4read: refused unless the fragment is readable and in service; the last put on a deleted LUN purges it. */
  lemma Put4ReadKeeps(s: Sce, l: nat, sctr: nat, n: nat)
    requires Boundary(s)
    ensures var (s', ok) := Put4Read(s, l, sctr, n);
            && Boundary(s') && (ok <==> CanPut(s, l, sctr, n)) && (!ok ==> s' == s)
            && (ok ==>
                  var f := FirstPage(sctr) / PAGEPERFRAG;
                  var p := s.luns[l].fragmap[f].data;
                  && s.luns[l].nrService > 0
                  && Pins(s, Release(s, l, p), l, f, p, -1) && Release(s, l, p).luns[l].fragmap == s.luns[l].fragmap
                  && Shrinks(Release(s, l, p), s')
                  && (s.luns[l].waiting && s.luns[l].nrService == 1 ==> Purged(s, s', l)))
  {
    hide Shape, Distinct, Tables, Links, FreeOk, FragsOk, Services, PagesOk, NoDead, Shrinks, Pins, Purged, Gc,
        Deferred;
    if Admits(s, l, sctr, n, false) {
      InRange(s, l, sctr, n, false);
      var f := sctr / SCTRPERFRAG;
      var d := s.luns[l].fragmap[f];
      if CanPut(s, l, sctr, n) {
        assert MappedTo(s, l, f, d.data);
        MappedFacts(s, l, f, d.data);
        ReleaseCore(s, l, f, d.data);
        ReleaseKeeps(s, l, f, d.data);
      } else if d.mapped && d.data in s.frags {
        assert MappedTo(s, l, f, d.data);
        MappedFacts(s, l, f, d.data);
      }
    }
  }

  // ----- invalidation

  /** Pages already invalid stay invalid, and the valid count is what is left. */
  lemma InvalidatePagesOk(fr: Frag, pages: set<nat>, nrSctr: nat, f: nat)
    requires PagesOk(fr, nrSctr, f) && forall q :: q in pages ==> q < PAGEPERFRAG
    ensures PagesOk(InvalidatePages(fr, pages), nrSctr, f)
    ensures 0 <= InvalidatePages(fr, pages).nrValid
  {
    assert fr.invalid + pages == fr.invalid + (pages - fr.invalid);
    assert |fr.invalid + (pages - fr.invalid)| == |fr.invalid| + |pages - fr.invalid|;
    FewPages(fr.invalid + pages);
  }

  /** One round of the loop of sce_invalidate. */
  lemma InvalidateOneKeeps(s: Sce, l: nat, f: nat, pages: set<nat>)
    requires Boundary(s) && l < |s.luns| && f < |s.luns[l].fragmap| && !s.luns[l].waiting
    requires forall q :: q in pages ==> q < PAGEPERFRAG
    ensures var s' := InvalidateOne(s, l, f, pages);
            && Boundary(s') && Shrinks(s, s')
            && (forall p: nat :: MappedTo(s', l, f, p) ==> p in s'.frags && pages <= s'.frags[p].invalid)
  {
    hide Shape, Distinct, Tables, Links, FreeOk, FragsOk, Services, PagesOk, NoDead, Shrinks, Gc, Deferred,
        InvalidatePages;
    var s' := InvalidateOne(s, l, f, pages);
    var d := s.luns[l].fragmap[f];
    if d.mapped {
      assert MappedTo(s, l, f, d.data);
      MappedFacts(s, l, f, d.data);
      InvalidateMapped(s, l, f, d.data, pages);
    } else {
      ShrinksSelf(s);
    }
  }

  lemma InvalidateMapped(s: Sce, l: nat, f: nat, p: nat, pages: set<nat>)
    requires Boundary(s) && MappedTo(s, l, f, p) && p in s.frags && !s.luns[l].waiting
    requires forall q :: q in pages ==> q < PAGEPERFRAG
    ensures var s1 := SetFrag(s, p, InvalidatePages(s.frags[p], pages));
            var s' := if s.luns[l].fragmap[f].valid then Gc(s1, l, p) else s1;
            && Boundary(s') && Shrinks(s, s')
            && (forall q: nat :: MappedTo(s', l, f, q) ==> q in s'.frags && pages <= s'.frags[q].invalid)
  {
    hide Shape, Distinct, Tables, Links, FreeOk, FragsOk, Services, PagesOk, NoDead, Shrinks, Gc, Deferred,
        InvalidatePages;
    InvalidateFrag(s, l, f, p, pages);
    var s1 := SetFrag(s, p, InvalidatePages(s.frags[p], pages));
    if s.luns[l].fragmap[f].valid {
      DeferredAll(s, s1, l);
      GcSettles(s1, l, f, p);
      ShrinksTwice(s, s1, Gc(s1, l, p));
    } else {
      BusyLive(s1, p);
      DeferredSame(s, s1);
    }
    InvalidateSeen(s, s1, if s.luns[l].fragmap[f].valid then Gc(s1, l, p) else s1, l, f, p, pages);
  }

  lemma DeferredAll(s: Sce, s1: Sce, l: nat)
    requires Deferred(s) && s1.luns == s.luns
    ensures forall m :: 0 <= m < |s1.luns| && m != l && s1.luns[m].waiting ==> s1.luns[m].nrService > 0
  {
  }

  lemma DeferredSame(s: Sce, s1: Sce)
    requires Deferred(s) && s1.luns == s.luns
    ensures Deferred(s1)
  {
  }

  lemma InvalidateSeen(s: Sce, s1: Sce, s': Sce, l: nat, f: nat, p: nat, pages: set<nat>)
    requires MappedTo(s1, l, f, p) && p in s1.frags && pages <= s1.frags[p].invalid && (s' == s1 || Shrinks(s1, s'))
    ensures forall q: nat :: MappedTo(s', l, f, q) ==> q in s'.frags && pages <= s'.frags[q].invalid
  {
    forall q: nat | MappedTo(s', l, f, q) ensures q in s'.frags && pages <= s'.frags[q].invalid {
      assert MappedTo(s1, l, f, q) && q == p;
    }
  }

  lemma InvalidateFrag(s: Sce, l: nat, f: nat, p: nat, pages: set<nat>)
    requires Boundary(s) && MappedTo(s, l, f, p) && p in s.frags
    requires forall q :: q in pages ==> q < PAGEPERFRAG
    ensures var s1 := SetFrag(s, p, InvalidatePages(s.frags[p], pages));
            && Core(s1) && Shrinks(s, s1) && MappedTo(s1, l, f, p) && pages <= s1.frags[p].invalid
            && (!s.luns[l].fragmap[f].valid ==> s1.frags[p].nrService > 0)
            && (forall m: nat, g: nat, q: nat ::
                  MappedTo(s1, m, g, q) && q in s1.frags && q != p
                  && s1.luns[m].fragmap[g].valid && s1.frags[q].nrService == 0 ==>
                  s1.frags[q].nrValid > 0)
  {
    hide Shape, Distinct, Tables, Links, FreeOk, FragsOk, Services, PagesOk, NoDead, Shrinks, Adjusts, Deferred;
    MappedFacts(s, l, f, p);
    var fr := InvalidatePages(s.frags[p], pages);
    var s1 := SetFrag(s, p, fr);
    InvalidatePagesOk(s.frags[p], pages, s.luns[l].nrSctr, f);
    CoreReplace(s, l, f, p, s.luns[l].fragmap[f], fr, s.luns[l].nrService);
    SetSame(s1, l, f);
    InvalidShrinks(s, s1, p);
    OthersUntouched(s, s1, p);
  }

  lemma InvalidShrinks(s: Sce, s1: Sce, p: nat)
    requires Links(s) && p in s.frags && p in s1.frags && s1 == SetFrag(s, p, s1.frags[p])
    requires s1.frags[p].nrService == s.frags[p].nrService && s.frags[p].invalid <= s1.frags[p].invalid
    ensures Shrinks(s, s1)
  {
    assert forall m: nat, g: nat, q: nat :: MappedTo(s1, m, g, q) <==> MappedTo(s, m, g, q);
  }

  lemma OthersUntouched(s: Sce, s1: Sce, p: nat)
    requires NoDead(s) && p in s.frags && p in s1.frags && s1 == SetFrag(s, p, s1.frags[p])
    ensures forall m: nat, g: nat, q: nat ::
      MappedTo(s1, m, g, q) && q in s1.frags && q != p
      && s1.luns[m].fragmap[g].valid && s1.frags[q].nrService == 0 ==>
      s1.frags[q].nrValid > 0
  {
    forall m: nat, g: nat, q: nat | MappedTo(s1, m, g, q) && q in s1.frags && q != p && s1.luns[m].fragmap[g].valid &&
        s1.frags[q].nrService == 0
      ensures s1.frags[q].nrValid > 0
    {
      assert MappedTo(s, m, g, q) && s1.frags[q] == s.frags[q];
    }
  }

  // ----- the branches of a read

  lemma EntryFacts(s: Sce, l: nat, f: nat)
    requires Boundary(s) && l < |s.luns| && f < |s.luns[l].fragmap| && s.luns[l].fragmap[f].mapped
    ensures var p := s.luns[l].fragmap[f].data;
            && p in s.frags && s.frags[p].fragnum == f && f < UNLISTED && s.luns[l].present
            && PagesOk(s.frags[p], s.luns[l].nrSctr, f)
  {
    assert MappedTo(s, l, f, s.luns[l].fragmap[f].data);
    hide Shape, Distinct, Tables, Links, FreeOk, FragsOk, Services, PagesOk;
    MappedFacts(s, l, f, s.luns[l].fragmap[f].data);
  }

  /** The pages of a request inside one fragment are a run of its pages. */
  lemma OnePiece(f: nat, firstpg: nat, count: nat)
    requires f == firstpg / PAGEPERFRAG && firstpg % PAGEPERFRAG + count <= PAGEPERFRAG
    ensures TouchedPages(f, firstpg, firstpg + count - 1) == PageRange(firstpg % PAGEPERFRAG, count)
  {
    assert firstpg == f * PAGEPERFRAG + firstpg % PAGEPERFRAG;
  }

  lemma ReadRefused(s: Sce, l: nat, sctr: nat, n: nat)
    requires !Admits(s, l, sctr, n, true)
    ensures Get4Read(s, l, sctr, n) == (s, None)
  {
  }

  /** The branches of sce_get4read in terms of the page offset and count it computes. */
  lemma ReadCases(s: Sce, l: nat, sctr: nat, n: nat)
    requires Boundary(s) && Admits(s, l, sctr, n, true)
    ensures l < |s.luns| && n > 0
    ensures var first, last := sctr / SCTRPERPAGE, (sctr + n - 1) / SCTRPERPAGE;
            var f, off, count := first / PAGEPERFRAG, first % PAGEPERFRAG, last - first + 1;
            && count > 0
            && (off + count > PAGEPERFRAG ==> Get4Read(s, l, sctr, n) == (s, None))
            && (off + count <= PAGEPERFRAG ==>
                  && f < |s.luns[l].fragmap|
                  && (s.luns[l].fragmap[f].mapped ==> s.luns[l].fragmap[f].data in s.frags)
                  && Get4Read(s, l, sctr, n) == FragmentRead(s, l, f, PageRange(off, count)))
  {
    hide TouchedPages, PageRange, LogPut, Boundary, Shape, Tables, PagesOk;
    BoundaryTables(s);
    InRange(s, l, sctr, n, true);
    var first, last := sctr / SCTRPERPAGE, (sctr + n - 1) / SCTRPERPAGE;
    var f := first / PAGEPERFRAG;
    if first % PAGEPERFRAG + (last - first + 1) <= PAGEPERFRAG {
      OnePiece(f, first, last - first + 1);
      if s.luns[l].fragmap[f].mapped {
        EntryFacts(s, l, f);
      }
    }
  }

  // ----- the exact outcome of a read

  /** The pages of a request, as a run of the pages of its fragment. */
  lemma RequestRun(f: nat, first: nat, last: nat, invalid: set<nat>)
    requires first <= last && f == first / PAGEPERFRAG && first % PAGEPERFRAG + (last - first + 1) <= PAGEPERFRAG
    requires forall q :: q in invalid ==> q < PAGEPERFRAG
    ensures PageRange(first % PAGEPERFRAG, last - first + 1) !! invalid <==>
      forall q: nat :: q in invalid ==> !(first <= f * PAGEPERFRAG + q <= last)
  {
    var off := first % PAGEPERFRAG;
    var run := PageRange(off, last - first + 1);
    assert first == f * PAGEPERFRAG + off;
    forall q: nat | q in invalid ensures q in run <==> first <= f * PAGEPERFRAG + q <= last {
      assert q in run <==> off <= q < off + (last - first + 1);
    }
    hide PageRange;
    if run !! invalid {
    } else {
      var q :| q in run && q in invalid;
    }
  }

  /** The read at fragment `f`, in the state's own fields. */
  lemma FragmentReadExact(s: Sce, l: nat, f: nat, pages: set<nat>)
    requires l < |s.luns| && f < |s.luns[l].fragmap|
    requires var w := s.luns[l].fragmap[f]; w.mapped ==> w.data in s.frags && s.frags[w.data].nrRef <= REFCEILING
    ensures var (s', hit) := FragmentRead(s, l, f, pages);
            var lun := s.luns[l];
            var w := lun.fragmap[f];
            var missed := s.(nrMiss := s.nrMiss + 1, log := LogPut(s.log, LogEntry(l, f)));
            if !w.mapped then
              && hit == None
              && s' == missed.(luns := s.luns[l := lun.(fragmap :=
                  lun.fragmap[f := Word(false, w.valid, w.reserved, (w.data + 1) % DATASPACE)])])
            else
              var fr := s.frags[w.data];
              if w.valid && pages !! fr.invalid then
                && hit == Some(w.data)
                && s' == s.(luns := s.luns[l := lun.(nrService := lun.nrService + 1)], nrHit := s.nrHit + 1,
                            frags := s.frags[w.data := fr.(nrHit := fr.nrHit + 1, nrService := fr.nrService + 1,
                                nrRef := if fr.nrRef < REFCEILING then fr.nrRef + 1 else REFCEILING)])
              else
                && hit == None
                && s' == missed.(frags := s.frags[w.data := fr.(nrMiss := fr.nrMiss + 1)])
  {
    hide LogPut;
  }

  /** sce_get4read looks a request up iff it lies in one fragment of a LUN that can be served, and hits exactly the
      fragment mapped there if that is readable and no page of the request is invalid. */
  lemma Get4ReadHits(s: Sce, l: nat, sctr: nat, n: nat)
    requires Boundary(s)
    ensures var (s', hit) := Get4Read(s, l, sctr, n);
            var f := sctr / SCTRPERFRAG;
            var looked := && l < |s.luns| && s.luns[l].present && !s.luns[l].waiting && n > 0
                          && sctr + n <= s.luns[l].nrSctr && (sctr + n - 1) / SCTRPERFRAG == f;
            && (!looked ==> s' == s && hit == None)
            && (forall p: nat :: hit == Some(p) <==>
                  && looked && MappedTo(s, l, f, p) && s.luns[l].fragmap[f].valid && p in s.frags
                  && forall q: nat :: q in s.frags[p].invalid ==>
                       !(sctr / SCTRPERPAGE <= f * PAGEPERFRAG + q <= (sctr + n - 1) / SCTRPERPAGE))
  {
    hide Boundary, FragmentRead, Get4Read, PageRange, LogPut, PagesOk, Shape, Tables;
    if Admits(s, l, sctr, n, true) {
      BoundaryTables(s);
      InRange(s, l, sctr, n, true);
      ReadCases(s, l, sctr, n);
      var first, last := sctr / SCTRPERPAGE, (sctr + n - 1) / SCTRPERPAGE;
      if OneFragment(sctr, n) {
        var f := first / PAGEPERFRAG;
        if s.luns[l].fragmap[f].mapped {
          RefOk(s, l, f);
          RequestRun(f, first, last, s.frags[s.luns[l].fragmap[f].data].invalid);
        }
        FragmentReadExact(s, l, f, PageRange(first % PAGEPERFRAG, last - first + 1));
      }
    } else {
      ReadRefused(s, l, sctr, n);
    }
  }

  /** What a request that is looked up leaves behind, field by field: a hit pins and counts, a miss counts and logs. */
  lemma Get4ReadExact(s: Sce, l: nat, sctr: nat, n: nat)
    requires Boundary(s) && l < |s.luns| && s.luns[l].present && !s.luns[l].waiting && n > 0
    requires sctr + n <= s.luns[l].nrSctr && (sctr + n - 1) / SCTRPERFRAG == sctr / SCTRPERFRAG
    ensures var (s', hit) := Get4Read(s, l, sctr, n);
            var f, lun := sctr / SCTRPERFRAG, s.luns[l];
            var missed := s.(nrMiss := s.nrMiss + 1, log := LogPut(s.log, LogEntry(l, f)));
            && f < |lun.fragmap|
            && var w := lun.fragmap[f];
               if !w.mapped then
                 s' == missed.(luns := s.luns[l := lun.(fragmap :=
                   lun.fragmap[f := Word(false, w.valid, w.reserved, (w.data + 1) % DATASPACE)])])
               else
                 && w.data in s.frags
                 && var fr := s.frags[w.data];
                    s' == if hit.None? then missed.(frags := s.frags[w.data := fr.(nrMiss := fr.nrMiss + 1)]) else
                      s.(luns := s.luns[l := lun.(nrService := lun.nrService + 1)], nrHit := s.nrHit + 1,
                         frags := s.frags[w.data := fr.(nrHit := fr.nrHit + 1, nrService := fr.nrService + 1,
                             nrRef := if fr.nrRef < REFCEILING then fr.nrRef + 1 else REFCEILING)])
  {
    hide Boundary, FragmentRead, Get4Read, PageRange, LogPut, PagesOk, Shape, Tables;
    BoundaryTables(s);
    InRange(s, l, sctr, n, true);
    ReadCases(s, l, sctr, n);
    var first, last := sctr / SCTRPERPAGE, (sctr + n - 1) / SCTRPERPAGE;
    var f := first / PAGEPERFRAG;
    if s.luns[l].fragmap[f].mapped {
      RefOk(s, l, f);
    }
    FragmentReadExact(s, l, f, PageRange(first % PAGEPERFRAG, last - first + 1));
  }

  lemma RefOk(s: Sce, l: nat, f: nat)
    requires Boundary(s) && l < |s.luns| && f < |s.luns[l].fragmap| && s.luns[l].fragmap[f].mapped
    ensures var p := s.luns[l].fragmap[f].data;
            && p in s.frags && s.frags[p].nrRef <= REFCEILING && forall q :: q in s.frags[p].invalid ==> q < PAGEPERFRAG
  {
    EntryFacts(s, l, f);
  }

  // ----- the exact outcome of a put

  /** sce_put4read in the state's own fields. It is accepted iff the request lies in one fragment of a LUN, mapped,
      readable and in service. It gives back one unit of service of the fragment and of the LUN; the entry is given up
      iff that was the fragment's last and no page is valid, the LUN iff it was its last and it waits for deletion. */
  lemma Put4ReadExact(s: Sce, l: nat, sctr: nat, n: nat)
    requires Boundary(s)
    ensures var (s', ok) := Put4Read(s, l, sctr, n);
            var f := sctr / SCTRPERFRAG;
            && (ok <==> && l < |s.luns| && s.luns[l].present && n > 0 && sctr + n <= s.luns[l].nrSctr
                        && (sctr + n - 1) / SCTRPERFRAG == f && f < |s.luns[l].fragmap|
                        && s.luns[l].fragmap[f].mapped && s.luns[l].fragmap[f].valid
                        && s.luns[l].fragmap[f].data in s.frags && s.frags[s.luns[l].fragmap[f].data].nrService > 0)
            && (!ok ==> s' == s)
            && (ok ==>
                  var lun := s.luns[l];
                  var p := lun.fragmap[f].data;
                  var fr := s.frags[p];
                  && lun.nrService > 0 && s.nrLun > 0
                  && var given := s.(luns := s.luns[l := lun.(nrService := lun.nrService - 1)],
                                     frags := s.frags[p := fr.(nrService := fr.nrService - 1)]);
                     && MappedTo(given, l, f, p)
                     && var dead, last := fr.nrService == 1 && fr.nrValid == 0, lun.waiting && lun.nrService == 1;
                        s' == Settled(given, l, f, p, dead, last) && Gone(s, s', l, f, dead, last))
  {
    hide Boundary, PagesOk, Gc, Shape, Tables, Settled, Gone, MappedTo;
    Put4ReadKeeps(s, l, sctr, n);
    if Admits(s, l, sctr, n, false) {
      BoundaryTables(s);
      InRange(s, l, sctr, n, false);
      if CanPut(s, l, sctr, n) {
        ReleaseExact(s, l, sctr / SCTRPERFRAG, s.luns[l].fragmap[sctr / SCTRPERFRAG].data);
      }
    }
  }

  /** What is gone after a step that keeps every mapping was there before it. */
  lemma PinsGone(s: Sce, s1: Sce, s': Sce, l: nat, f: nat, p: nat, entry: bool, lun: bool)
    requires Pins(s, s1, l, f, p, -1) && Gone(s1, s', l, f, entry, lun)
    ensures Gone(s, s', l, f, entry, lun)
  {
    hide MappedTo;
  }

  lemma ReleaseExact(s: Sce, l: nat, f: nat, p: nat)
    requires Boundary(s) && l < |s.luns| && f < |s.luns[l].fragmap| && s.luns[l].fragmap[f].mapped
    requires s.luns[l].fragmap[f].valid && s.luns[l].fragmap[f].data == p && p in s.frags
    requires s.frags[p].nrService > 0 && s.luns[l].nrService > 0
    ensures var lun, fr := s.luns[l], s.frags[p];
            var given := Release(s, l, p);
            var s' := if fr.nrService == 1 then Gc(given, l, p) else given;
            && s.nrLun > 0 && MappedTo(given, l, f, p)
            && var dead, last := fr.nrService == 1 && fr.nrValid == 0, lun.waiting && lun.nrService == 1;
               s' == Settled(given, l, f, p, dead, last) && Gone(s, s', l, f, dead, last)
  {
    hide Boundary, Core, PagesOk, Gc, Emptied, Dropped, Gone, Pins;
    assert MappedTo(s, l, f, p);
    ReleaseCore(s, l, f, p);
    var given := Release(s, l, p);
    assert MappedTo(given, l, f, p);
    GcExact(given, l, f, p);
    BoundaryParts(s);
    MappedFacts(s, l, f, p);
    var dead := s.frags[p].nrService == 1 && s.frags[p].nrValid == 0;
    var last := s.luns[l].waiting && s.luns[l].nrService == 1;
    PinsGone(s, given, Settled(given, l, f, p, dead, last), l, f, p, dead, last);
  }
}
