// What every call keeps: the tables, the two-way fragment map, the free list and the service counters agree.

module Invariants {
  import opened Words
  import opened SceState

  // ----- definitions

  const MAXLUNFRAGS: nat := 0x20_0000 // below this, fragnum * 2048 fits 32 bits

  predicate CdevOk(c: Cdev) {
    if c.present then 1 <= c.nrFrag <= OFFSPACE && c.ctx != 0 else c == EMPTYCDEV
  }

  predicate LunOk(lun: Lun) {
    if lun.present then
      && lun.nrSctr > 0 && lun.ctx != 0
      && |lun.fragmap| == (lun.nrSctr + SCTRPERFRAG - 1) / SCTRPERFRAG < MAXLUNFRAGS
    else lun == EMPTYLUN
  }

  function PresentCdevs(cdevs: seq<Cdev>): set<nat> { set d: nat | d < |cdevs| && cdevs[d].present }

  function PresentLuns(luns: seq<Lun>): set<nat> { set l: nat | l < |luns| && luns[l].present }

  ghost predicate Shape(s: Sce) {
    && |s.cdevs| == MAXCDEV && |s.luns| == MAXLUN
    && (forall d :: 0 <= d < MAXCDEV ==> CdevOk(s.cdevs[d]))
    && (forall l :: 0 <= l < MAXLUN ==> LunOk(s.luns[l]))
    && s.nrCdev == |PresentCdevs(s.cdevs)|
    && s.nrLun == |PresentLuns(s.luns)|
  }

  /** Contexts identify LUNs. */
  ghost predicate Distinct(s: Sce) {
    forall l, m :: 0 <= l < m < |s.luns| && s.luns[l].present && s.luns[m].present ==> s.luns[l].ctx != s.luns[m].ctx
  }

  predicate InDevice(cdevs: seq<Cdev>, p: nat) {
    Dev(p) < |cdevs| && Off(p) < cdevs[Dev(p)].nrFrag
  }

  ghost predicate Tables(s: Sce) {
    && (forall p: nat :: p in s.frags <==> InDevice(s.cdevs, p))
    && s.nrFrag == |s.frags|
  }

  ghost predicate Links(s: Sce) {
    && (forall l: nat, f: nat, p: nat ::
            MappedTo(s, l, f, p) ==> p in s.frags && s.frags[p].lunidx == l && s.frags[p].fragnum == f)
    && (forall p :: p in s.frags && s.frags[p].fragnum < UNLISTED ==>
          MappedTo(s, s.frags[p].lunidx, s.frags[p].fragnum, p))
  }

  ghost predicate NoDuplicates(free: seq<nat>) {
    forall i, j :: 0 <= i < j < |free| ==> free[i] != free[j]
  }

  /** The free list holds, once each, the fragments marked as listed; every other fragment is mapped. */
  ghost predicate FreeOk(s: Sce) {
    && NoDuplicates(s.free)
    && (forall p :: p in s.free ==> p in s.frags && s.frags[p].fragnum == WITHINFREELIST)
    && (forall p :: p in s.frags && s.frags[p].fragnum == WITHINFREELIST ==> p in s.free)
    && (forall p :: p in s.frags ==> s.frags[p].fragnum < UNLISTED || s.frags[p].fragnum == WITHINFREELIST)
  }

  /** Page `q` of fragment `f` is not wholly inside a LUN of `nrSctr` sectors. */
  predicate BeyondEnd(nrSctr: nat, f: nat, q: nat) {
    (f * PAGEPERFRAG + q + 1) * SCTRPERPAGE > nrSctr
  }

  ghost predicate PagesOk(fr: Frag, nrSctr: nat, f: nat) {
    && (forall q :: q in fr.invalid ==> q < PAGEPERFRAG)
    && fr.nrValid == PAGEPERFRAG - |fr.invalid|
    && (forall q: nat :: q < PAGEPERFRAG && BeyondEnd(nrSctr, f, q) ==> q in fr.invalid)
    && fr.nrRef <= REFCEILING
  }

  ghost predicate FragsOk(s: Sce) {
    && (forall l: nat, f: nat, p: nat ::
            MappedTo(s, l, f, p) && p in s.frags ==> PagesOk(s.frags[p], s.luns[l].nrSctr, f))
    && (forall l: nat, f: nat, p: nat :: MappedTo(s, l, f, p) && p in s.frags && !s.luns[l].fragmap[f].valid ==>
          s.frags[p].nrService == 1)
  }

  function ServiceOf(w: Word, frags: map<nat, Frag>): nat {
    if w.mapped && w.data in frags then frags[w.data].nrService else 0
  }

  function ServiceSum(fragmap: seq<Word>, frags: map<nat, Frag>): nat {
    if fragmap == [] then 0
    else ServiceSum(fragmap[..|fragmap| - 1], frags) + ServiceOf(fragmap[|fragmap| - 1], frags)
  }

  /** A LUN's service count is the sum over its mapped fragments. */
  ghost predicate Services(s: Sce) {
    forall l :: 0 <= l < |s.luns| ==> s.luns[l].nrService == ServiceSum(s.luns[l].fragmap, s.frags)
  }

  ghost predicate Core(s: Sce) {
    Shape(s) && Distinct(s) && Tables(s) && Links(s) && FreeOk(s) && FragsOk(s) && Services(s)
  }

  /** A LUN waiting for deletion is still in service. */
  ghost predicate Deferred(s: Sce) {
    forall l :: 0 <= l < |s.luns| && s.luns[l].waiting ==> s.luns[l].nrService > 0
  }

  /** No idle readable fragment is without a valid page. */
  ghost predicate NoDead(s: Sce) {
    forall l: nat, f: nat, p: nat ::
      MappedTo(s, l, f, p) && p in s.frags && s.luns[l].fragmap[f].valid && s.frags[p].nrService == 0 ==>
      s.frags[p].nrValid > 0
  }

  /** What holds between two calls. */
  ghost predicate Boundary(s: Sce) { Core(s) && Deferred(s) && NoDead(s) }

  lemma CoreParts(s: Sce)
    requires Core(s)
    ensures Shape(s) && Distinct(s) && Tables(s) && Links(s)
  {
  }

  lemma BoundaryParts(s: Sce)
    requires Boundary(s)
    ensures Core(s) && Shape(s) && Distinct(s) && Tables(s) && Links(s)
  {
  }

  lemma BoundaryTables(s: Sce)
    requires Boundary(s)
    ensures Shape(s) && Tables(s) && s.nrFrag == |s.frags| && |s.cdevs| == MAXCDEV
  {
  }

  lemma EmptySlots(s: Sce)
    requires Shape(s)
    ensures forall l :: 0 <= l < |s.luns| && !s.luns[l].present ==> s.luns[l].fragmap == []
  {
    forall l | 0 <= l < |s.luns| && !s.luns[l].present ensures s.luns[l].fragmap == [] {
      assert LunOk(s.luns[l]);
    }
  }

  // ----- sums

  /** If only entry `f` changes its service, the sum changes by the same amount. */
  lemma {:induction false} SumChange(fm: seq<Word>, frags: map<nat, Frag>, fm': seq<Word>, frags': map<nat, Frag>,
      f: nat)
    requires |fm| == |fm'| && f < |fm|
    requires forall g :: 0 <= g < |fm| && g != f ==> ServiceOf(fm[g], frags) == ServiceOf(fm'[g], frags')
    ensures ServiceSum(fm', frags') - ServiceOf(fm'[f], frags') == ServiceSum(fm, frags) - ServiceOf(fm[f], frags)
  {
    var n := |fm| - 1;
    if f == n {
      SumSame(fm[..n], frags, fm'[..n], frags');
    } else {
      SumChange(fm[..n], frags, fm'[..n], frags', f);
    }
  }

  lemma {:induction false} SumSame(fm: seq<Word>, frags: map<nat, Frag>, fm': seq<Word>, frags': map<nat, Frag>)
    requires |fm| == |fm'|
    requires forall g :: 0 <= g < |fm| ==> ServiceOf(fm[g], frags) == ServiceOf(fm'[g], frags')
    ensures ServiceSum(fm', frags') == ServiceSum(fm, frags)
  {
    if fm != [] {
      SumSame(fm[..|fm| - 1], frags, fm'[..|fm| - 1], frags');
    }
  }

  /** One entry's service is at most the sum. */
  lemma {:induction false} SumBound(fm: seq<Word>, frags: map<nat, Frag>, f: nat)
    requires f < |fm|
    ensures ServiceOf(fm[f], frags) <= ServiceSum(fm, frags)
  {
    if f < |fm| - 1 {
      SumBound(fm[..|fm| - 1], frags, f);
    }
  }

  /** The services after a step that touches at most entry `f` of LUN `l` and fragment `p`. */
  lemma ServicesChange(s: Sce, s': Sce, l: nat, f: nat, p: nat)
    requires Services(s) && Links(s) && |s.luns| == |s'.luns|
    requires l < |s.luns| && f < |s.luns[l].fragmap| && |s'.luns[l].fragmap| == |s.luns[l].fragmap|
    requires s.frags.Keys == s'.frags.Keys
    requires forall m ::
        0 <= m < |s.luns| && m != l ==>
          s'.luns[m].fragmap == s.luns[m].fragmap && s'.luns[m].nrService == s.luns[m].nrService
    requires forall g :: 0 <= g < |s.luns[l].fragmap| && g != f ==> s'.luns[l].fragmap[g] == s.luns[l].fragmap[g]
    requires forall q :: q in s.frags && q != p ==> s'.frags[q].nrService == s.frags[q].nrService
    requires forall m: nat, g: nat :: MappedTo(s, m, g, p) ==> m == l && g == f
    requires s'.luns[l].nrService - s.luns[l].nrService ==
             ServiceOf(s'.luns[l].fragmap[f], s'.frags) - ServiceOf(s.luns[l].fragmap[f], s.frags)
    ensures Services(s')
  {
    forall m | 0 <= m < |s.luns| ensures s'.luns[m].nrService == ServiceSum(s'.luns[m].fragmap, s'.frags) {
      forall g | 0 <= g < |s.luns[m].fragmap| && !(m == l && g == f)
        ensures ServiceOf(s.luns[m].fragmap[g], s.frags) == ServiceOf(s'.luns[m].fragmap[g], s'.frags)
      {
        assert s.luns[m].fragmap[g].mapped ==> MappedTo(s, m, g, s.luns[m].fragmap[g].data);
      }
      if m == l {
        SumChange(s.luns[l].fragmap, s.frags, s'.luns[l].fragmap, s'.frags, f);
      } else {
        SumSame(s.luns[m].fragmap, s.frags, s'.luns[m].fragmap, s'.frags);
      }
    }
  }

  // ----- steps that keep the tables

  predicate SameLun(a: Lun, b: Lun) {
    a.present == b.present && a.ctx == b.ctx && a.nrSctr == b.nrSctr && |a.fragmap| == |b.fragmap| &&
        a.waiting == b.waiting
  }

  /** Same devices, same LUNs, same fragments: only entries, counters and fragment contents differ. */
  ghost predicate SameTables(s: Sce, s': Sce) {
    && s'.cdevs == s.cdevs && s'.nrCdev == s.nrCdev && s'.nrLun == s.nrLun && s'.nrFrag == s.nrFrag
    && s'.frags.Keys == s.frags.Keys && |s'.luns| == |s.luns|
    && (forall l :: 0 <= l < |s.luns| ==> SameLun(s.luns[l], s'.luns[l]))
    && (forall l :: 0 <= l < |s.luns| && !s.luns[l].present ==> s'.luns[l] == s.luns[l])
  }

  lemma TablesKept(s: Sce, s': Sce)
    requires Shape(s) && Distinct(s) && Tables(s) && SameTables(s, s')
    ensures Shape(s') && Distinct(s') && Tables(s')
  {
    assert PresentLuns(s'.luns) == PresentLuns(s.luns);
    assert |s'.frags| == |s'.frags.Keys| == |s.frags.Keys| == |s.frags|;
    forall l | 0 <= l < MAXLUN ensures LunOk(s'.luns[l]) {
      assert LunOk(s.luns[l]) && SameLun(s.luns[l], s'.luns[l]);
    }
  }

  lemma SameTablesTwice(s: Sce, s1: Sce, s2: Sce)
    requires SameTables(s, s1) && SameTables(s1, s2)
    ensures SameTables(s, s2)
  {
  }

  // ----- unmapping

  lemma UnmapIs(s: Sce, l: nat, f: nat, p: nat)
    requires MappedTo(s, l, f, p) && p in s.frags && s.frags[p].nrService == 0 && s.frags[p].fragnum != WITHINFREELIST
    ensures Unmap(s, l, f) ==
      SetDesc(SetFrag(s, p, s.frags[p].(fragnum := WITHINFREELIST)), l, f,
          Heat(s.frags[p].nrMiss)).(free := [p] + s.free)
  {
  }

  /** Exactly one mapping disappears. */
  lemma UnmapMapping(s: Sce, l: nat, f: nat)
    requires Unmappable(s, l, f)
    ensures var s' := Unmap(s, l, f);
            forall m: nat, g: nat, p: nat :: MappedTo(s', m, g, p) <==> MappedTo(s, m, g, p) && !(m == l && g == f)
  {
  }

  lemma UnmapTables(s: Sce, l: nat, f: nat)
    requires Core(s)
    ensures SameTables(s, Unmap(s, l, f))
  {
    if Unmappable(s, l, f) {
      assert MappedTo(s, l, f, s.luns[l].fragmap[f].data);
      assert Unmap(s, l, f).frags.Keys == s.frags.Keys;
      assert LunOk(s.luns[l]);
    }
  }

  lemma UnmapLinks(s: Sce, l: nat, f: nat)
    requires Links(s) && Unmappable(s, l, f)
    ensures Links(Unmap(s, l, f))
  {
    UnmapMapping(s, l, f);
    assert MappedTo(s, l, f, s.luns[l].fragmap[f].data);
  }

  lemma UnmapFrags(s: Sce, l: nat, f: nat)
    requires Links(s) && FragsOk(s) && Unmappable(s, l, f)
    ensures FragsOk(Unmap(s, l, f))
  {
    hide PagesOk;
    var s' := Unmap(s, l, f);
    UnmapMapping(s, l, f);
    assert MappedTo(s, l, f, s.luns[l].fragmap[f].data);
    forall m: nat, g: nat, q: nat | MappedTo(s', m, g, q) && q in s'.frags
      ensures PagesOk(s'.frags[q], s'.luns[m].nrSctr, g)
      ensures !s'.luns[m].fragmap[g].valid ==> s'.frags[q].nrService == 1
    {
      assert MappedTo(s, m, g, q);
      assert s'.frags[q] == s.frags[q];
    }
  }

  lemma UnmapFree(s: Sce, l: nat, f: nat)
    requires FreeOk(s) && Unmappable(s, l, f)
    ensures FreeOk(Unmap(s, l, f))
  {
  }

  lemma CoreUnmap(s: Sce, l: nat, f: nat)
    requires Core(s)
    ensures Core(Unmap(s, l, f))
  {
    var s' := Unmap(s, l, f);
    UnmapTables(s, l, f);
    TablesKept(s, s');
    if Unmappable(s, l, f) {
      UnmapLinks(s, l, f);
      UnmapFree(s, l, f);
      UnmapFrags(s, l, f);
      assert MappedTo(s, l, f, s.luns[l].fragmap[f].data);
      ServicesChange(s, s', l, f, s.luns[l].fragmap[f].data);
    }
  }

  // ----- adjusting one mapped fragment

  /** `s'` differs from `s` at most at LUN `l`, its entry `f` and fragment `p`, which stays mapped there. */
  ghost predicate Adjusts(s: Sce, s': Sce, l: nat, f: nat, p: nat) {
    && SameTables(s, s') && s'.free == s.free
    && MappedTo(s, l, f, p) && MappedTo(s', l, f, p)
    && (forall m :: 0 <= m < |s.luns| && m != l ==> s'.luns[m] == s.luns[m])
    && (forall g :: 0 <= g < |s.luns[l].fragmap| && g != f ==> s'.luns[l].fragmap[g] == s.luns[l].fragmap[g])
    && (forall q :: q in s.frags && q != p ==> s'.frags[q] == s.frags[q])
  }

  lemma AdjustMapping(s: Sce, s': Sce, l: nat, f: nat, p: nat)
    requires Adjusts(s, s', l, f, p)
    ensures forall m: nat, g: nat, q: nat :: MappedTo(s', m, g, q) <==> MappedTo(s, m, g, q)
  {
  }

  lemma CoreAdjust(s: Sce, s': Sce, l: nat, f: nat, p: nat)
    requires Core(s) && Adjusts(s, s', l, f, p)
    requires s'.frags[p].lunidx == l && s'.frags[p].fragnum == f
    requires PagesOk(s'.frags[p], s.luns[l].nrSctr, f)
    requires !s'.luns[l].fragmap[f].valid ==> s'.frags[p].nrService == 1
    requires s'.luns[l].nrService - s.luns[l].nrService == s'.frags[p].nrService - s.frags[p].nrService
    ensures Core(s')
  {
    TablesKept(s, s');
    AdjustMapping(s, s', l, f, p);
    ServicesChange(s, s', l, f, p);
    AdjustLinks(s, s', l, f, p);
    assert LunOk(s.luns[l]);
    AdjustFree(s, s', l, f, p);
    AdjustFrags(s, s', l, f, p);
  }

  lemma AdjustLinks(s: Sce, s': Sce, l: nat, f: nat, p: nat)
    requires Links(s) && Adjusts(s, s', l, f, p)
    requires s'.frags[p].lunidx == l && s'.frags[p].fragnum == f
    ensures Links(s')
  {
    AdjustMapping(s, s', l, f, p);
  }

  lemma AdjustFree(s: Sce, s': Sce, l: nat, f: nat, p: nat)
    requires FreeOk(s) && Adjusts(s, s', l, f, p) && f < UNLISTED
    requires p in s.frags && s.frags[p].fragnum == f && s'.frags[p].fragnum == f
    ensures FreeOk(s')
  {
    hide MappedTo;
  }

  lemma AdjustFrags(s: Sce, s': Sce, l: nat, f: nat, p: nat)
    requires Links(s) && FragsOk(s) && Adjusts(s, s', l, f, p)
    requires PagesOk(s'.frags[p], s.luns[l].nrSctr, f)
    requires !s'.luns[l].fragmap[f].valid ==> s'.frags[p].nrService == 1
    ensures FragsOk(s')
  {
    AdjustMapping(s, s', l, f, p);
    hide PagesOk;
    forall m: nat, g: nat, q: nat | MappedTo(s', m, g, q) && q in s'.frags
      ensures PagesOk(s'.frags[q], s'.luns[m].nrSctr, g)
      ensures !s'.luns[m].fragmap[g].valid ==> s'.frags[q].nrService == 1
    {
      assert MappedTo(s, m, g, q);
      if q == p {
        assert m == l && g == f;
      } else {
        assert s'.frags[q] == s.frags[q];
      }
    }
  }

  /** Counters, the clock arm and the miss log are not part of the invariant. */
  lemma CoreCounters(s: Sce, s': Sce)
    requires Core(s)
    requires s'.cdevs == s.cdevs && s'.nrCdev == s.nrCdev && s'.luns == s.luns && s'.nrLun == s.nrLun
    requires s'.nrFrag == s.nrFrag && s'.free == s.free && s'.frags == s.frags
    ensures Core(s')
    ensures Deferred(s) ==> Deferred(s')
    ensures NoDead(s) ==> NoDead(s')
  {
    assert forall m: nat, g: nat, q: nat :: MappedTo(s', m, g, q) <==> MappedTo(s, m, g, q);
  }

  /** An unmapped entry may change as long as it stays unmapped. */
  lemma CoreUnmappedEntry(s: Sce, l: nat, f: nat, w: Word)
    requires Core(s) && l < |s.luns| && f < |s.luns[l].fragmap| && !s.luns[l].fragmap[f].mapped && !w.mapped
    ensures Core(SetDesc(s, l, f, w))
    ensures Deferred(s) ==> Deferred(SetDesc(s, l, f, w))
    ensures NoDead(s) ==> NoDead(SetDesc(s, l, f, w))
  {
    hide Shape, Distinct, Tables, Services, PagesOk, MappedTo;
    var s' := SetDesc(s, l, f, w);
    EntryTables(s, l, f, w);
    TablesKept(s, s');
    EntryMapping(s, l, f, w);
    EntryServices(s, l, f, w);
  }

  lemma EntryTables(s: Sce, l: nat, f: nat, w: Word)
    requires Shape(s) && l < |s.luns| && f < |s.luns[l].fragmap|
    ensures SameTables(s, SetDesc(s, l, f, w))
  {
    assert LunOk(s.luns[l]);
  }

  lemma EntryMapping(s: Sce, l: nat, f: nat, w: Word)
    requires l < |s.luns| && f < |s.luns[l].fragmap| && !s.luns[l].fragmap[f].mapped && !w.mapped
    ensures var s' := SetDesc(s, l, f, w);
            forall m: nat, g: nat, q: nat :: MappedTo(s', m, g, q) <==> MappedTo(s, m, g, q)
    ensures var s' := SetDesc(s, l, f, w);
            forall m: nat, g: nat, q: nat :: MappedTo(s, m, g, q) ==>
              m < |s.luns| && g < |s.luns[m].fragmap| && g < |s'.luns[m].fragmap| &&
                  s'.luns[m].fragmap[g] == s.luns[m].fragmap[g]
  {
  }

  lemma EntryServices(s: Sce, l: nat, f: nat, w: Word)
    requires Services(s) && l < |s.luns| && f < |s.luns[l].fragmap| && !s.luns[l].fragmap[f].mapped && !w.mapped
    ensures Services(SetDesc(s, l, f, w))
  {
    var s' := SetDesc(s, l, f, w);
    forall m | 0 <= m < |s.luns| ensures s'.luns[m].nrService == ServiceSum(s'.luns[m].fragmap, s'.frags) {
      SumSame(s.luns[m].fragmap, s.frags, s'.luns[m].fragmap, s'.frags);
    }
  }

  // ----- mapping

  lemma TailFits(s: Sce, l: nat, f: nat)
    requires Shape(s) && l < |s.luns| && f < |s.luns[l].fragmap|
    ensures s.luns[l].present
    ensures TailCount(s.luns[l].nrSctr, |s.luns[l].fragmap|, f) <= PAGEPERFRAG
    ensures PagesOk(NewFrag(l, f, TailCount(s.luns[l].nrSctr, |s.luns[l].fragmap|, f)), s.luns[l].nrSctr, f)
  {
    assert LunOk(s.luns[l]);
    var t := TailCount(s.luns[l].nrSctr, |s.luns[l].fragmap|, f);
    RangeSize(PAGEPERFRAG - t, t);
  }

  lemma {:induction false} RangeSize(first: nat, count: nat)
    ensures |PageRange(first, count)| == count
  {
    if count == 0 {
      assert PageRange(first, count) == {};
    } else {
      RangeSize(first, count - 1);
      assert PageRange(first, count) == PageRange(first, count - 1) + {first + count - 1};
    }
  }

  /** The head of the free list can be mapped. */
  predicate CanMap(s: Sce, l: nat, f: nat) {
    && s.free != [] && l < |s.luns| && f < |s.luns[l].fragmap| && !s.luns[l].fragmap[f].mapped
    && s.free[0] < DATASPACE && TailCount(s.luns[l].nrSctr, |s.luns[l].fragmap|, f) <= PAGEPERFRAG
  }

  lemma MapMapping(s: Sce, l: nat, f: nat)
    requires CanMap(s, l, f)
    ensures var s' := MapHead(s, l, f);
            forall m: nat, g: nat, p: nat :: MappedTo(s', m, g, p) <==>
                MappedTo(s, m, g, p) || (m == l && g == f && p == s.free[0])
  {
  }

  lemma CoreMapHead(s: Sce, l: nat, f: nat)
    requires Core(s) && CanMap(s, l, f)
    ensures Core(MapHead(s, l, f))
  {
    hide FragsOk, Services, TailCount, NewFrag;
    var p := s.free[0];
    assert p in s.free;
    MapTables(s, l, f);
    assert forall m: nat, g: nat :: !MappedTo(s, m, g, p);
    MapServices(s, l, f);
    MapLinks(s, l, f);
    MapFree(s, l, f);
    MapFrags(s, l, f);
  }

  lemma MapTables(s: Sce, l: nat, f: nat)
    requires Shape(s) && Distinct(s) && Tables(s) && CanMap(s, l, f) && s.free[0] in s.frags
    ensures var s' := MapHead(s, l, f); Shape(s') && Distinct(s') && Tables(s') && f < UNLISTED
  {
    hide Tables, Distinct, TailCount, NewFrag;
    assert LunOk(s.luns[l]);
    assert MapHead(s, l, f).frags.Keys == s.frags.Keys;
    TablesKept(s, MapHead(s, l, f));
  }

  lemma MapServices(s: Sce, l: nat, f: nat)
    requires Services(s) && Links(s) && CanMap(s, l, f) && s.free[0] in s.frags
    requires forall m: nat, g: nat :: !MappedTo(s, m, g, s.free[0])
    ensures Services(MapHead(s, l, f))
  {
    hide Services, Links, TailCount;
    assert MapHead(s, l, f).frags.Keys == s.frags.Keys;
    ServicesChange(s, MapHead(s, l, f), l, f, s.free[0]);
  }

  lemma MapLinks(s: Sce, l: nat, f: nat)
    requires Links(s) && CanMap(s, l, f) && f < UNLISTED
    requires s.free[0] in s.frags && forall m: nat, g: nat :: !MappedTo(s, m, g, s.free[0])
    ensures Links(MapHead(s, l, f))
  {
    MapMapping(s, l, f);
    hide MappedTo, TailCount;
  }

  lemma MapFree(s: Sce, l: nat, f: nat)
    requires FreeOk(s) && CanMap(s, l, f) && f < UNLISTED
    ensures FreeOk(MapHead(s, l, f))
  {
    var s' := MapHead(s, l, f);
    var p := s.free[0];
    assert p in s.free;
    assert forall q :: q in s'.free <==> q in s.free && q != p by {
      forall q | q in s.free && q != p ensures q in s'.free {
        var i :| 0 <= i < |s.free| && s.free[i] == q;
        assert s'.free[i - 1] == q;
      }
    }
  }

  lemma MapFrags(s: Sce, l: nat, f: nat)
    requires Core(s) && CanMap(s, l, f)
    ensures FragsOk(MapHead(s, l, f))
  {
    TailFits(s, l, f);
    MapMapping(s, l, f);
    assert s.free[0] in s.free;
    hide Shape, Distinct, Tables, Services, PagesOk, TailCount;
    var s' := MapHead(s, l, f);
    forall m: nat, g: nat, q: nat | MappedTo(s', m, g, q) && q in s'.frags
      ensures PagesOk(s'.frags[q], s'.luns[m].nrSctr, g)
      ensures !s'.luns[m].fragmap[g].valid ==> s'.frags[q].nrService == 1
    {
      if !(m == l && g == f) {
        assert MappedTo(s, m, g, q);
        assert s'.frags[q] == s.frags[q];
      }
    }
  }

  /** A listed fragment has an id that fits a descriptor. */
  lemma FreeHeadFits(s: Sce)
    requires Core(s) && s.free != []
    ensures s.free[0] < DATASPACE && s.free[0] in s.frags
  {
    assert s.free[0] in s.free;
    assert InDevice(s.cdevs, s.free[0]);
  }
}
