// What giving up an entry, purging a LUN and collecting garbage leave behind, field by field.

module Collection {
  import opened Words
  import opened SceState
  import opened Invariants
  import opened Preservation

  // ----- one entry

  /** Entry `f` of LUN `l` given up: it keeps its fragment's miss count, and the fragment is on top of the free list. */
  function Dropped(s: Sce, l: nat, f: nat, p: nat): Sce
    requires MappedTo(s, l, f, p) && p in s.frags
  {
    var lun := s.luns[l];
    s.(luns := s.luns[l := lun.(fragmap := lun.fragmap[f := Word(false, false, 0, s.frags[p].nrMiss % DATASPACE)])],
       frags := s.frags[p := s.frags[p].(fragnum := WITHINFREELIST)], free := [p] + s.free)
  }

  lemma UnmapExact(s: Sce, l: nat, f: nat, p: nat)
    requires Core(s) && MappedTo(s, l, f, p) && s.frags[p].nrService == 0
    ensures Unmap(s, l, f) == Dropped(s, l, f, p)
    ensures forall m: nat, g: nat, q: nat ::
        MappedTo(Dropped(s, l, f, p), m, g, q) <==> MappedTo(s, m, g, q) && !(m == l && g == f)
  {
    MappedUnmappable(s, l, f, p);
    hide Shape, Distinct, Tables, Links, FreeOk, FragsOk, Services;
    UnmapIs(s, l, f, p);
    UnmapMapping(s, l, f);
  }

  // ----- one LUN

  /** The fragments of the first `n` entries, the last entry's first. */
  function Held(fragmap: seq<Word>, n: nat): seq<nat>
    requires n <= |fragmap|
  {
    if n == 0 then [] else (if fragmap[n - 1].mapped then [fragmap[n - 1].data] else []) + Held(fragmap, n - 1)
  }

  /** The fragments of `ids` marked as listed. */
  function AllListed(frags: map<nat, Frag>, ids: seq<nat>): map<nat, Frag> {
    map p | p in frags :: if p in ids then frags[p].(fragnum := WITHINFREELIST) else frags[p]
  }

  /** LUN `l` gone: its slot is empty, its fragments are on top of the free list, and nothing else is different. */
  function Emptied(s: Sce, l: nat): Sce
    requires l < |s.luns| && s.nrLun > 0
  {
    var held := Held(s.luns[l].fragmap, |s.luns[l].fragmap|);
    s.(luns := s.luns[l := Lun(false, 0, 0, [], 0, false)], nrLun := s.nrLun - 1,
       frags := AllListed(s.frags, held), free := held + s.free)
  }

  /** The first `n` entries of LUN `l` given up. */
  function Emptying(s: Sce, l: nat, n: nat): Sce
    requires l < |s.luns| && n <= |s.luns[l].fragmap|
  {
    var fm := s.luns[l].fragmap;
    s.(luns := s.luns[l := s.luns[l].(fragmap :=
           seq(|fm|, g requires 0 <= g < |fm| => if g < n then Cold(fm[g], s.frags) else fm[g]))],
       frags := AllListed(s.frags, Held(fm, n)), free := Held(fm, n) + s.free)
  }

  function Cold(w: Word, frags: map<nat, Frag>): Word {
    if w.mapped && w.data in frags then Heat(frags[w.data].nrMiss) else w
  }

  lemma {:induction false} HeldMember(fm: seq<Word>, n: nat, p: nat)
    requires n <= |fm|
    ensures p in Held(fm, n) <==> exists g :: 0 <= g < n && fm[g].mapped && fm[g].data == p
  {
    if n > 0 {
      HeldMember(fm, n - 1, p);
    }
  }

  /** No fragment is held twice. */
  lemma NotHeldYet(s: Sce, l: nat, f: nat, p: nat)
    requires Links(s) && MappedTo(s, l, f, p)
    ensures p !in Held(s.luns[l].fragmap, f)
  {
    HeldMember(s.luns[l].fragmap, f, p);
    if p in Held(s.luns[l].fragmap, f) {
      var g :| 0 <= g < f && s.luns[l].fragmap[g].mapped && s.luns[l].fragmap[g].data == p;
      assert MappedTo(s, l, g, p);
    }
  }

  lemma EmptyingStep(s: Sce, l: nat, n: nat)
    requires Core(s) && l < |s.luns| && n < |s.luns[l].fragmap| && s.luns[l].nrService == 0
    requires Core(Emptying(s, l, n)) && Emptying(s, l, n).luns[l].nrService == 0
    ensures Unmap(Emptying(s, l, n), l, n) == Emptying(s, l, n + 1)
  {
    hide Shape, Distinct, Tables, FreeOk, FragsOk, Services;
    var s1 := Emptying(s, l, n);
    if s.luns[l].fragmap[n].mapped {
      var p := s.luns[l].fragmap[n].data;
      assert MappedTo(s, l, n, p) && MappedTo(s1, l, n, p);
      assert p in s.frags;
      NotHeldYet(s, l, n, p);
      hide AllListed, Held;
      IdleLun(s1, l, n, p);
      UnmapExact(s1, l, n, p);
      hide Links, MappedTo, Dropped;
      DropNext(s, l, n, p);
    } else {
      EmptyingSkips(s, l, n);
    }
  }

  lemma EmptyingSkips(s: Sce, l: nat, n: nat)
    requires l < |s.luns| && n < |s.luns[l].fragmap| && !s.luns[l].fragmap[n].mapped
    ensures Emptying(s, l, n + 1) == Emptying(s, l, n) == Unmap(Emptying(s, l, n), l, n)
  {
    hide AllListed;
    assert Held(s.luns[l].fragmap, n + 1) == Held(s.luns[l].fragmap, n);
    assert Emptying(s, l, n + 1).luns[l].fragmap == Emptying(s, l, n).luns[l].fragmap;
  }

  lemma DropNext(s: Sce, l: nat, n: nat, p: nat)
    requires MappedTo(s, l, n, p) && p in s.frags && p !in Held(s.luns[l].fragmap, n)
    ensures MappedTo(Emptying(s, l, n), l, n, p) && p in Emptying(s, l, n).frags
    ensures Dropped(Emptying(s, l, n), l, n, p) == Emptying(s, l, n + 1)
  {
    var fm := s.luns[l].fragmap;
    var s1, s2 := Emptying(s, l, n), Emptying(s, l, n + 1);
    HeldNext(fm, n);
    AllListedNext(s.frags, Held(fm, n), p);
    assert s1.frags[p] == s.frags[p];
    hide AllListed, Held;
    assert s2.luns[l].fragmap == s1.luns[l].fragmap[n := Heat(s.frags[p].nrMiss)];
    assert s2.free == [p] + s1.free;
  }

  lemma HeldNext(fm: seq<Word>, n: nat)
    requires n < |fm| && fm[n].mapped
    ensures Held(fm, n + 1) == [fm[n].data as nat] + Held(fm, n)
  {
  }

  lemma AllListedNext(frags: map<nat, Frag>, ids: seq<nat>, p: nat)
    requires p in frags && p !in ids
    ensures AllListed(frags, [p] + ids) == AllListed(frags, ids)[p := frags[p].(fragnum := WITHINFREELIST)]
  {
  }

  lemma {:induction false} UnmapUpToExact(s: Sce, l: nat, n: nat)
    requires Core(s) && l < |s.luns| && n <= |s.luns[l].fragmap| && s.luns[l].nrService == 0
    ensures UnmapUpTo(s, l, n) == Emptying(s, l, n)
  {
    hide Core, Unmap, AllListed, Shrinks, Frees, SameTables;
    if n == 0 {
      EmptyingNothing(s, l);
    } else {
      UnmapUpToExact(s, l, n - 1);
      UnmapUpToFrees(s, l, n - 1);
      EmptyingStep(s, l, n - 1);
    }
  }

  lemma EmptyingNothing(s: Sce, l: nat)
    requires l < |s.luns|
    ensures Emptying(s, l, 0) == s
  {
    var s1 := Emptying(s, l, 0);
    assert s1.luns[l].fragmap == s.luns[l].fragmap;
    assert s1.luns == s.luns;
    assert s1.frags == s.frags;
    assert s1.free == s.free;
  }

  /** The mappings of LUN `l` are gone; the other slots, mappings and mapped fragments are as they were. */
  ghost predicate OnlyLunGone(s: Sce, s': Sce, l: nat) {
    && |s'.luns| == |s.luns|
    && (forall m :: 0 <= m < |s.luns| && m != l ==> s'.luns[m] == s.luns[m])
    && (forall m: nat, g: nat, p: nat :: MappedTo(s', m, g, p) <==> MappedTo(s, m, g, p) && m != l)
    && (forall m: nat, g: nat, p: nat ::
            MappedTo(s', m, g, p) && p in s.frags ==> p in s'.frags && s'.frags[p] == s.frags[p])
  }

  /** _lun_purge of an idle LUN: only its own slot, fragments and mappings go. */
  lemma PurgeExact(s: Sce, l: nat)
    requires Core(s) && l < |s.luns| && s.luns[l].present && s.luns[l].nrService == 0
    ensures s.nrLun > 0 && Purge(s, l) == (Emptied(s, l), true)
    ensures OnlyLunGone(s, Emptied(s, l), l)
  {
    LunCounted(s, l);
    hide Shape, Distinct, Tables, Links, FreeOk, FragsOk, Services, Shrinks, Emptied, Emptying, Purge, OnlyLunGone,
        Frees, UnmapUpTo;
    UnmapUpToExact(s, l, |s.luns[l].fragmap|);
    PurgeIs(s, l);
    PurgeIdle(s, l);
    FreesLun(s, Emptied(s, l), l);
  }

  lemma PurgeIs(s: Sce, l: nat)
    requires l < |s.luns| && s.luns[l].present && s.luns[l].nrService == 0 && s.nrLun > 0
    requires UnmapUpTo(s, l, |s.luns[l].fragmap|) == Emptying(s, l, |s.luns[l].fragmap|)
    ensures Purge(s, l) == (Emptied(s, l), true)
  {
    hide UnmapUpTo, AllListed, Held;
    var s1 := Emptying(s, l, |s.luns[l].fragmap|);
    assert s1.luns[l := EMPTYLUN] == s.luns[l := EMPTYLUN];
  }

  lemma FreesLun(s: Sce, s': Sce, l: nat)
    requires l < |s.luns| && Frees(s, s', l, |s.luns[l].fragmap|)
    ensures OnlyLunGone(s, s', l)
  {
  }

  // ----- garbage collection

  /** Entry `f` of LUN `l`, mapped to `p`, given up if `entry`, and then the LUN if `lun`. */
  function Settled(s: Sce, l: nat, f: nat, p: nat, entry: bool, lun: bool): Sce
    requires MappedTo(s, l, f, p) && p in s.frags && s.nrLun > 0
  {
    var s1 := if entry then Dropped(s, l, f, p) else s;
    if lun then Emptied(s1, l) else s1
  }

  /** Entry (l, f) is gone if `entry`, LUN `l` if `lun`; no other mapping is. */
  ghost predicate Gone(s: Sce, s': Sce, l: nat, f: nat, entry: bool, lun: bool) {
    forall m: nat, g: nat, q: nat ::
      MappedTo(s', m, g, q) <==> MappedTo(s, m, g, q) && !(entry && m == l && g == f) && !(lun && m == l)
  }

  /** _lun_gc gives up the entry iff its fragment is idle without a valid page, and the LUN iff it is idle and waits for
      deletion. */
  lemma GcExact(s: Sce, l: nat, f: nat, p: nat)
    requires Core(s) && MappedTo(s, l, f, p)
    ensures p in s.frags && s.nrLun > 0
    ensures var dead, last := s.frags[p].nrService == 0 && s.frags[p].nrValid == 0,
                              s.luns[l].waiting && s.luns[l].nrService == 0;
            var s' := Settled(s, l, f, p, dead, last);
            Gc(s, l, p) == s' && Gone(s, s', l, f, dead, last)
  {
    MappedCounted(s, l, f, p);
    hide Core, Unmap, Purge, Emptied, MappedTo, Dropped, OnlyLunGone, Gone;
    if s.frags[p].nrService == 0 && s.frags[p].nrValid == 0 {
      UnmapExact(s, l, f, p);
      DroppedCore(s, l, f, p);
      var s1 := Dropped(s, l, f, p);
      if s.luns[l].waiting && s.luns[l].nrService == 0 {
        PurgeExact(s1, l);
        BothGone(s, s1, Emptied(s1, l), l, f);
      } else {
        EntryGone(s, s1, l, f);
      }
    } else {
      if s.luns[l].waiting && s.luns[l].nrService == 0 {
        PurgeExact(s, l);
        LunGone(s, Emptied(s, l), l, f);
      } else {
        assert Gone(s, s, l, f, false, false) by { NothingGone(s, l, f); }
      }
    }
  }

  lemma BothGone(s: Sce, s1: Sce, s': Sce, l: nat, f: nat)
    requires forall m: nat, g: nat, q: nat :: MappedTo(s1, m, g, q) <==> MappedTo(s, m, g, q) && !(m == l && g == f)
    requires OnlyLunGone(s1, s', l)
    ensures Gone(s, s', l, f, true, true)
  {
    hide MappedTo;
  }

  lemma EntryGone(s: Sce, s': Sce, l: nat, f: nat)
    requires forall m: nat, g: nat, q: nat :: MappedTo(s', m, g, q) <==> MappedTo(s, m, g, q) && !(m == l && g == f)
    ensures Gone(s, s', l, f, true, false)
  {
    hide MappedTo;
  }

  lemma LunGone(s: Sce, s': Sce, l: nat, f: nat)
    requires OnlyLunGone(s, s', l)
    ensures Gone(s, s', l, f, false, true)
  {
    hide MappedTo;
  }

  lemma NothingGone(s: Sce, l: nat, f: nat)
    ensures Gone(s, s, l, f, false, false)
  {
    hide MappedTo;
  }

  lemma MappedCounted(s: Sce, l: nat, f: nat, p: nat)
    requires Core(s) && MappedTo(s, l, f, p)
    ensures p in s.frags && s.frags[p].fragnum == f && s.luns[l].present && s.nrLun > 0
  {
    assert LunOk(s.luns[l]);
    LunCounted(s, l);
  }

  lemma DroppedCore(s: Sce, l: nat, f: nat, p: nat)
    requires Core(s) && MappedTo(s, l, f, p) && s.frags[p].nrService == 0
    ensures var s1 := Dropped(s, l, f, p);
            && Core(s1) && |s1.luns| == |s.luns| && s1.nrLun == s.nrLun
            && s1.luns[l].present == s.luns[l].present && s1.luns[l].nrService == s.luns[l].nrService
            && s1.luns[l].waiting == s.luns[l].waiting
  {
    hide Shape, Distinct, Tables, FreeOk, FragsOk, Services;
    UnmapExact(s, l, f, p);
    CoreUnmap(s, l, f);
  }
}
