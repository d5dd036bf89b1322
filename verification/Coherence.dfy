// Every step of the whole system keeps its invariant: reads see what the disk held, valid pages equal the disk.

module Coherence {
  import opened Words
  import opened SceState
  import opened Invariants
  import opened Preservation
  import opened Requests
  import opened Invalidation
  import opened Population
  import opened Configuration
  import opened System

  // ----- steps that add or give back a token

  function Delta(q: nat, p: nat, d: int): int { if q == p then d else 0 }

  /** Fragment `p` gains `d` tokens; otherwise only idle mappings go and pages become invalid. */
  ghost predicate Moves(s: Sce, s': Sce, p: nat, d: int) {
    && |s'.luns| == |s.luns|
    && (forall l :: 0 <= l < |s.luns| ==> KeptLun(s.luns[l], s'.luns[l]))
    && (forall l: nat, f: nat, q: nat :: MappedTo(s', l, f, q) ==>
          && MappedTo(s, l, f, q) && q in s.frags && q in s'.frags
          && (q != p ==> s'.luns[l].fragmap[f] == s.luns[l].fragmap[f])
          && s'.frags[q].nrService == s.frags[q].nrService + Delta(q, p, d)
          && s.frags[q].invalid <= s'.frags[q].invalid)
    && (forall l: nat, f: nat, q: nat ::
          MappedTo(s, l, f, q) && q in s.frags
          && s.frags[q].nrService + Delta(q, p, d) > 0 ==>
          MappedTo(s', l, f, q))
  }

  lemma PinsMoves(s: Sce, s1: Sce, s': Sce, l: nat, f: nat, p: nat, d: int)
    requires Pins(s, s1, l, f, p, d) && Shrinks(s1, s') && Links(s1) && Links(s)
    ensures Moves(s, s', p, d)
  {
    forall m: nat, g: nat, q: nat | MappedTo(s', m, g, q)
      ensures MappedTo(s, m, g, q) && q in s.frags && q in s'.frags
      ensures q != p ==> s'.luns[m].fragmap[g] == s.luns[m].fragmap[g]
      ensures s'.frags[q].nrService == s.frags[q].nrService + Delta(q, p, d)
      ensures s.frags[q].invalid <= s'.frags[q].invalid
    {
      assert MappedTo(s1, m, g, q);
    }
    forall m: nat, g: nat, q: nat | MappedTo(s, m, g, q) && q in s.frags && s.frags[q].nrService + Delta(q, p, d) > 0
      ensures MappedTo(s', m, g, q)
    {
      assert MappedTo(s1, m, g, q);
    }
    forall m | 0 <= m < |s.luns| ensures KeptLun(s.luns[m], s'.luns[m]) {
      assert SameLun(s.luns[m], s1.luns[m]) && KeptLun(s1.luns[m], s'.luns[m]);
    }
  }

  /** The tokens of `t` fit the service count changed by `d` at `p`. */
  ghost predicate TokensMove(s: Sys, t: Sys, p: nat, d: int) {
    && (forall q: nat ::
            |ReadsOn(t.inflight, q)| + |PopsOn(t.pops, q)| ==
                |ReadsOn(s.inflight, q)| + |PopsOn(s.pops, q)| + Delta(q, p, d))
    && (forall id ::
            id in t.inflight ==> (id in s.inflight && t.inflight[id] == s.inflight[id]) || ReadOk(t, t.inflight[id]))
    && (forall id :: id in t.pops ==> id in s.pops && t.pops[id] == s.pops[id])
  }

  lemma ReadMoves(s: Sys, t: Sys, k: ReadToken, p: nat, d: int)
    requires ReadOk(s, k) && Moves(s.sce, t.sce, p, d) && Shape(t.sce) && t.ssd == s.ssd
    requires k.pfid in s.sce.frags && s.sce.frags[k.pfid].nrService + Delta(k.pfid, p, d) > 0
    requires k.pfid == p ==> forall l: nat, f: nat :: MappedTo(t.sce, l, f, p) && MappedTo(s.sce, l, f, p) ==>
      t.sce.luns[l].fragmap[f] == s.sce.luns[l].fragmap[f]
    ensures ReadOk(t, k)
  {
    EmptySlots(t.sce);
    hide Shape;
    assert MappedTo(t.sce, k.lun, FragOf(k.sctr), k.pfid);
    assert KeptLun(s.sce.luns[k.lun], t.sce.luns[k.lun]);
  }

  lemma PopMoves(s: Sys, t: Sys, k: PopTask, p: nat, d: int)
    requires PopOk(s, k) && Moves(s.sce, t.sce, p, d) && Shape(t.sce) && t.ssd == s.ssd && t.hdd == s.hdd
    requires s.sce.frags[k.pfid].nrService + Delta(k.pfid, p, d) > 0 && k.pfid != p
    ensures PopOk(t, k)
  {
    EmptySlots(t.sce);
    hide Shape;
    assert MappedTo(t.sce, k.lun, k.fragnum, k.pfid);
    assert KeptLun(s.sce.luns[k.lun], t.sce.luns[k.lun]);
  }

  lemma CountsMove(s: Sys, t: Sys, p: nat, d: int)
    requires Counts(s) && Moves(s.sce, t.sce, p, d)
    requires forall q: nat ::
        |ReadsOn(t.inflight, q)| + |PopsOn(t.pops, q)| ==
            |ReadsOn(s.inflight, q)| + |PopsOn(s.pops, q)| + Delta(q, p, d)
    ensures Counts(t)
  {
    hide ReadsOn, PopsOn;
    forall l: nat, f: nat, q: nat | MappedTo(t.sce, l, f, q)
      ensures q in t.sce.frags && t.sce.frags[q].nrService == |ReadsOn(t.inflight, q)| + |PopsOn(t.pops, q)|
    {
      assert MappedTo(s.sce, l, f, q);
    }
  }

  /** What is asked of fragment `p` itself after the step. */
  ghost predicate CoherentAt(t: Sys, p: nat) {
    forall l: nat, f: nat, q: nat ::
      MappedTo(t.sce, l, f, p) && p in t.sce.frags && t.sce.luns[l].fragmap[f].valid && !t.sce.luns[l].waiting
      && q < PAGEPERFRAG && q !in t.sce.frags[p].invalid ==>
        t.ssd(p, q) == t.hdd(t.sce.luns[l].ctx, f * PAGEPERFRAG + q)
  }

  lemma CoherentMoves(s: Sys, t: Sys, p: nat, d: int)
    requires Coherent(s) && Moves(s.sce, t.sce, p, d) && Shape(t.sce) && t.ssd == s.ssd && t.hdd == s.hdd &&
        CoherentAt(t, p)
    ensures Coherent(t)
  {
    EmptySlots(t.sce);
    hide Shape;
    forall l: nat, f: nat, x: nat, q: nat |
      MappedTo(t.sce, l, f, x) && x in t.sce.frags && t.sce.luns[l].fragmap[f].valid && !t.sce.luns[l].waiting
      && q < PAGEPERFRAG && q !in t.sce.frags[x].invalid
      ensures t.ssd(x, q) == t.hdd(t.sce.luns[l].ctx, f * PAGEPERFRAG + q)
    {
      if x != p {
        assert MappedTo(s.sce, l, f, x);
        assert KeptLun(s.sce.luns[l], t.sce.luns[l]);
      }
    }
  }

  lemma StillBusyRead(s: Sys, t: Sys, id: nat, p: nat, d: int)
    requires Counts(s) && id in s.inflight && id in t.inflight && t.inflight[id] == s.inflight[id] &&
        ReadOk(s, s.inflight[id])
    requires var q := s.inflight[id].pfid;
             |ReadsOn(t.inflight, q)| + |PopsOn(t.pops, q)| ==
                 |ReadsOn(s.inflight, q)| + |PopsOn(s.pops, q)| + Delta(q, p, d)
    ensures var q := s.inflight[id].pfid; q in s.sce.frags && s.sce.frags[q].nrService + Delta(q, p, d) > 0
  {
    var k := s.inflight[id];
    assert MappedTo(s.sce, k.lun, FragOf(k.sctr), k.pfid);
    assert id in ReadsOn(t.inflight, k.pfid);
  }

  lemma StillBusyPop(s: Sys, t: Sys, id: nat, p: nat, d: int)
    requires Counts(s) && id in s.pops && id in t.pops && t.pops[id] == s.pops[id] && PopOk(s, s.pops[id])
    requires var q := s.pops[id].pfid;
             |ReadsOn(t.inflight, q)| + |PopsOn(t.pops, q)| ==
                 |ReadsOn(s.inflight, q)| + |PopsOn(s.pops, q)| + Delta(q, p, d)
    ensures var q := s.pops[id].pfid; q in s.sce.frags && s.sce.frags[q].nrService + Delta(q, p, d) > 0
  {
    var k := s.pops[id];
    assert MappedTo(s.sce, k.lun, k.fragnum, k.pfid);
    assert id in PopsOn(t.pops, k.pfid);
  }

  /** A step that moves one token keeps all the others in order. */
  lemma TokensMoved(s: Sys, t: Sys, p: nat, d: int)
    requires Tokens(s) && Moves(s.sce, t.sce, p, d) && Shape(t.sce)
    requires t == s.(sce := t.sce, inflight := t.inflight, pops := t.pops)
    requires TokensMove(s, t, p, d) && CoherentAt(t, p)
    requires (exists id :: id in t.inflight && id in s.inflight && t.inflight[id].pfid == p) ==>
      forall l: nat, f: nat ::
        MappedTo(t.sce, l, f, p) && MappedTo(s.sce, l, f, p) ==> t.sce.luns[l].fragmap[f] == s.sce.luns[l].fragmap[f]
    requires forall id :: id in t.pops ==> t.pops[id].pfid != p
    ensures Tokens(t)
  {
    hide Shape, Moves, Counts, Coherent, CoherentAt, ReadOk, PopOk, ReadsOn, PopsOn;
    CountsMove(s, t, p, d);
    CoherentMoves(s, t, p, d);
    forall id | id in t.inflight ensures ReadOk(t, t.inflight[id]) {
      if id in s.inflight && t.inflight[id] == s.inflight[id] {
        StillBusyRead(s, t, id, p, d);
        ReadMoves(s, t, s.inflight[id], p, d);
      }
    }
    forall id | id in t.pops ensures PopOk(t, t.pops[id]) {
      StillBusyPop(s, t, id, p, d);
      PopMoves(s, t, s.pops[id], p, d);
    }
  }

  // ----- reads

  /** A readable fragment has no population on it. */
  lemma NoPopOnValid(s: Sys, l: nat, f: nat, p: nat)
    requires Tokens(s) && Links(s.sce) && MappedTo(s.sce, l, f, p) && s.sce.luns[l].fragmap[f].valid
    ensures forall id :: id in s.pops ==> s.pops[id].pfid != p
  {
    forall id | id in s.pops ensures s.pops[id].pfid != p {
      assert PopOk(s, s.pops[id]);
      var k := s.pops[id];
      assert MappedTo(s.sce, k.lun, k.fragnum, k.pfid) && !s.sce.luns[k.lun].fragmap[k.fragnum].valid;
    }
  }

  lemma AddRead(s: Sys, t: Sys, id: nat, k: ReadToken)
    requires id !in s.inflight && t.inflight == s.inflight[id := k] && t.pops == s.pops
    ensures forall q: nat ::
        |ReadsOn(t.inflight, q)| + |PopsOn(t.pops, q)| ==
            |ReadsOn(s.inflight, q)| + |PopsOn(s.pops, q)| + Delta(q, k.pfid, 1)
  {
    hide PopsOn, ReadsOn;
    forall q: nat ensures |ReadsOn(t.inflight, q)| == |ReadsOn(s.inflight, q)| + Delta(q, k.pfid, 1) {
      ReadsOnAdd(s.inflight, id, k, q);
    }
  }

  lemma ReadsOnAdd(m: map<nat, ReadToken>, id: nat, k: ReadToken, q: nat)
    requires id !in m
    ensures |ReadsOn(m[id := k], q)| == |ReadsOn(m, q)| + Delta(q, k.pfid, 1)
  {
    assert ReadsOn(m[id := k], q) == if q == k.pfid then ReadsOn(m, q) + {id} else ReadsOn(m, q);
  }

  lemma PopsOnAdd(m: map<nat, PopTask>, id: nat, k: PopTask, q: nat)
    requires id !in m
    ensures |PopsOn(m[id := k], q)| == |PopsOn(m, q)| + Delta(q, k.pfid, 1)
  {
    assert PopsOn(m[id := k], q) == if q == k.pfid then PopsOn(m, q) + {id} else PopsOn(m, q);
  }

  lemma DropRead(s: Sys, t: Sys, id: nat)
    requires id in s.inflight && t.inflight == s.inflight - {id} && t.pops == s.pops
    ensures forall q: nat ::
        |ReadsOn(t.inflight, q)| + |PopsOn(t.pops, q)| ==
            |ReadsOn(s.inflight, q)| + |PopsOn(s.pops, q)| + Delta(q, s.inflight[id].pfid, -1)
  {
    assert s.inflight == t.inflight[id := s.inflight[id]];
    AddRead(t, s, id, s.inflight[id]);
  }

  lemma AddPop(s: Sys, t: Sys, id: nat, k: PopTask)
    requires id !in s.pops && t.pops == s.pops[id := k] && t.inflight == s.inflight
    ensures forall q: nat ::
        |ReadsOn(t.inflight, q)| + |PopsOn(t.pops, q)| ==
            |ReadsOn(s.inflight, q)| + |PopsOn(s.pops, q)| + Delta(q, k.pfid, 1)
  {
    hide ReadsOn, PopsOn;
    forall q: nat ensures |PopsOn(t.pops, q)| == |PopsOn(s.pops, q)| + Delta(q, k.pfid, 1) {
      PopsOnAdd(s.pops, id, k, q);
    }
  }

  lemma DropPop(s: Sys, t: Sys, id: nat)
    requires id in s.pops && t.pops == s.pops - {id} && t.inflight == s.inflight
    ensures forall q: nat ::
        |ReadsOn(t.inflight, q)| + |PopsOn(t.pops, q)| ==
            |ReadsOn(s.inflight, q)| + |PopsOn(s.pops, q)| + Delta(q, s.pops[id].pfid, -1)
  {
    assert s.pops == t.pops[id := s.pops[id]];
    AddPop(t, s, id, s.pops[id]);
  }

  /** Entries equal at `p`, its pages stay coherent. */
  lemma CoherentAtSame(s: Sys, t: Sys, p: nat, d: int)
    requires Coherent(s) && Moves(s.sce, t.sce, p, d) && Shape(t.sce) && t.ssd == s.ssd && t.hdd == s.hdd
    requires forall l: nat, f: nat ::
        MappedTo(t.sce, l, f, p) && MappedTo(s.sce, l, f, p) ==> t.sce.luns[l].fragmap[f] == s.sce.luns[l].fragmap[f]
    ensures CoherentAt(t, p)
  {
    EmptySlots(t.sce);
    hide Shape;
    forall l: nat, f: nat, q: nat |
      MappedTo(t.sce, l, f, p) && p in t.sce.frags && t.sce.luns[l].fragmap[f].valid && !t.sce.luns[l].waiting
      && q < PAGEPERFRAG && q !in t.sce.frags[p].invalid
      ensures t.ssd(p, q) == t.hdd(t.sce.luns[l].ctx, f * PAGEPERFRAG + q)
    {
      assert MappedTo(s.sce, l, f, p);
      assert KeptLun(s.sce.luns[l], t.sce.luns[l]);
    }
  }

  /** The pages of a request that fits one fragment, as pages of that fragment. */
  lemma RequestInFragment(sctr: nat, n: nat, g: nat)
    requires n > 0 && OneFragment(sctr, n) && FirstPage(sctr) <= g <= LastPage(sctr, n)
    ensures g % PAGEPERFRAG in TouchedPages(FragOf(sctr), FirstPage(sctr), LastPage(sctr, n))
    ensures FragOf(sctr) * PAGEPERFRAG + g % PAGEPERFRAG == g
  {
    var first := FirstPage(sctr);
    assert first == FragOf(sctr) * 256 + first % 256;
    assert g / 256 == FragOf(sctr);
    assert g == g / 256 * 256 + g % 256;
    assert Touches(FragOf(sctr), first, LastPage(sctr, n), g % PAGEPERFRAG);
  }

  /** A hit sees on the cache device exactly what the disk holds now. */
  lemma HitSees(s: Sys, l: nat, sctr: nat, n: nat, p: nat)
    requires Coherent(s) && Links(s.sce) && Admits(s.sce, l, sctr, n, true) && OneFragment(sctr, n)
    requires Hits(s.sce, l, FragOf(sctr), TouchedPages(FragOf(sctr), FirstPage(sctr), LastPage(sctr, n)), p)
    ensures forall g: nat :: FirstPage(sctr) <= g <= LastPage(sctr, n) ==>
      s.ssd(p, g % PAGEPERFRAG) == s.hdd(s.sce.luns[l].ctx, g)
  {
    forall g: nat | FirstPage(sctr) <= g <= LastPage(sctr, n)
        ensures s.ssd(p, g % PAGEPERFRAG) == s.hdd(s.sce.luns[l].ctx, g) {
      RequestInFragment(sctr, n, g);
      assert g % PAGEPERFRAG !in s.sce.frags[p].invalid;
    }
  }

  lemma GetStep(s: Sys, t: Sys, id: nat, l: nat, sctr: nat, n: nat)
    requires Inv(s) && Next(s, EvGet(id, l, sctr, n), t)
    ensures Inv(t)
  {
    hide Boundary, Tokens, Shrinks, Pins, Get4Read;
    Get4ReadKeeps(s.sce, l, sctr, n);
    BoundaryParts(t.sce);
    var hit := Get4Read(s.sce, l, sctr, n).1;
    if hit.None? {
      assert t == s.(sce := t.sce, ssd := t.ssd);
      TokensShrink(s, t);
    } else {
      GetHit(s, t, id, l, sctr, n, hit.value);
    }
  }

  lemma GetHit(s: Sys, t: Sys, id: nat, l: nat, sctr: nat, n: nat, p: nat)
    requires Inv(s) && Boundary(t.sce) && id !in s.inflight && Admits(s.sce, l, sctr, n, true) && OneFragment(sctr, n)
    requires Hits(s.sce, l, FragOf(sctr), TouchedPages(FragOf(sctr), FirstPage(sctr), LastPage(sctr, n)), p)
    requires Pins(s.sce, t.sce, l, FragOf(sctr), p, 1) && t.sce.luns[l].fragmap == s.sce.luns[l].fragmap
    requires t == s.(sce := t.sce, inflight := s.inflight[id :=
        ReadToken(l, sctr, n, p, Snapshot(s.hdd, s.sce.luns[l].ctx, sctr, n))])
    ensures Tokens(t)
  {
    hide Boundary, Shrinks, Counts, PopOk, ReadOk, ReadsOn, PopsOn, Coherent, CoherentAt, Moves, Snapshot,
        OneFragment, Shape, Links, Core, Distinct, TouchedPages, Pins;
    var f := FragOf(sctr);
    BoundaryParts(s.sce);
    BoundaryParts(t.sce);
    SelfShrinks(t.sce);
    PinsMoves(s.sce, t.sce, t.sce, l, f, p, 1);
    AddRead(s, t, id, t.inflight[id]);
    NewRead(s, t, l, sctr, n, p);
    NoPopOnValid(s, l, f, p);
    OnlyThere(s.sce, t.sce, l, f, p);
    CoherentAtSame(s, t, p, 1);
    TokensMoved(s, t, p, 1);
  }

  lemma NewRead(s: Sys, t: Sys, l: nat, sctr: nat, n: nat, p: nat)
    requires Coherent(s) && Links(s.sce) && Admits(s.sce, l, sctr, n, true) && OneFragment(sctr, n) && t.ssd == s.ssd
    requires Hits(s.sce, l, FragOf(sctr), TouchedPages(FragOf(sctr), FirstPage(sctr), LastPage(sctr, n)), p)
    requires Pins(s.sce, t.sce, l, FragOf(sctr), p, 1) && t.sce.luns[l].fragmap == s.sce.luns[l].fragmap
    ensures ReadOk(t, ReadToken(l, sctr, n, p, Snapshot(s.hdd, s.sce.luns[l].ctx, sctr, n)))
  {
    hide Coherent, Links, OneFragment, TouchedPages;
    HitSees(s, l, sctr, n, p);
  }

  lemma SelfShrinks(s: Sce)
    requires Boundary(s)
    ensures Shrinks(s, s)
  {
    ShrinksSelf(s);
  }

  lemma OnlyThere(s: Sce, t: Sce, l: nat, f: nat, p: nat)
    requires Links(s) && MappedTo(s, l, f, p) && l < |t.luns| && t.luns[l].fragmap == s.luns[l].fragmap
    ensures forall m: nat, g: nat ::
        MappedTo(t, m, g, p) && MappedTo(s, m, g, p) ==> t.luns[m].fragmap[g] == s.luns[m].fragmap[g]
  {
    forall m: nat, g: nat | MappedTo(t, m, g, p) && MappedTo(s, m, g, p)
        ensures t.luns[m].fragmap[g] == s.luns[m].fragmap[g] {
      assert m == l && g == f;
    }
  }

  /** The put that matches a hit is accepted. */
  lemma PutAccepted(s: Sys, id: nat)
    requires Inv(s) && id in s.inflight
    ensures var k := s.inflight[id];
            CanPut(s.sce, k.lun, k.sctr, k.n) && s.sce.luns[k.lun].fragmap[FragOf(k.sctr)].data == k.pfid
  {
    var k := s.inflight[id];
    assert ReadOk(s, k);
    ReadBusy(s, id);
    MappedFacts(s.sce, k.lun, FragOf(k.sctr), k.pfid);
  }

  lemma PutStep(s: Sys, t: Sys, id: nat)
    requires Inv(s) && Next(s, EvPut(id), t)
    ensures Inv(t)
  {
    hide Boundary, Tokens, Shrinks, Pins, Put4Read, CanPut, Release, Purged;
    var k := s.inflight[id];
    PutAccepted(s, id);
    Put4ReadKeeps(s.sce, k.lun, k.sctr, k.n);
    PutMoves(s, t, id);
  }

  lemma PutMoves(s: Sys, t: Sys, id: nat)
    requires Inv(s) && Boundary(t.sce) && id in s.inflight
    requires var k := s.inflight[id];
             CanPut(s.sce, k.lun, k.sctr, k.n) && s.sce.luns[k.lun].fragmap[FragOf(k.sctr)].data == k.pfid
    requires s.sce.luns[s.inflight[id].lun].nrService > 0
    requires var k := s.inflight[id];
             var s1 := Release(s.sce, k.lun, k.pfid);
             Pins(s.sce, s1, k.lun, FragOf(k.sctr), k.pfid, -1) &&
                 s1.luns[k.lun].fragmap == s.sce.luns[k.lun].fragmap && Shrinks(s1, t.sce)
    requires t == s.(sce := t.sce, inflight := s.inflight - {id})
    ensures Tokens(t)
  {
    hide Boundary, Counts, PopOk, ReadOk, ReadsOn, PopsOn, Coherent, CoherentAt, Moves, OneFragment, Shape, Links,
        Core, Distinct, Pins, Shrinks;
    var k := s.inflight[id];
    var f := FragOf(k.sctr);
    var s1 := Release(s.sce, k.lun, k.pfid);
    BoundaryParts(s.sce);
    BoundaryParts(t.sce);
    PinsLinks(s.sce, k.lun, f, k.pfid);
    PinsMoves(s.sce, s1, t.sce, k.lun, f, k.pfid, -1);
    DropRead(s, t, id);
    assert MappedTo(s.sce, k.lun, f, k.pfid);
    NoPopOnValid(s, k.lun, f, k.pfid);
    OnlyThereShrunk(s.sce, s1, t.sce, k.lun, f, k.pfid);
    CoherentAtSame(s, t, k.pfid, -1);
    TokensMoved(s, t, k.pfid, -1);
  }

  lemma PinsLinks(s: Sce, l: nat, f: nat, p: nat)
    requires Boundary(s) && MappedTo(s, l, f, p) && s.luns[l].fragmap[f].valid && p in s.frags &&
        s.frags[p].nrService > 0 && s.luns[l].nrService > 0
    ensures Links(Release(s, l, p))
  {
    ReleaseCore(s, l, f, p);
  }

  lemma OnlyThereShrunk(s: Sce, s1: Sce, t: Sce, l: nat, f: nat, p: nat)
    requires Links(s) && MappedTo(s, l, f, p) && l < |s1.luns| && s1.luns[l].fragmap == s.luns[l].fragmap &&
        Shrinks(s1, t)
    ensures forall m: nat, g: nat ::
        MappedTo(t, m, g, p) && MappedTo(s, m, g, p) ==> t.luns[m].fragmap[g] == s.luns[m].fragmap[g]
  {
    forall m: nat, g: nat | MappedTo(t, m, g, p) && MappedTo(s, m, g, p)
        ensures t.luns[m].fragmap[g] == s.luns[m].fragmap[g] {
      assert m == l && g == f;
    }
  }

  // ----- populations

  lemma PopCount(s: Sys, id: nat)
    requires Tokens(s) && Core(s.sce) && id in s.pops
    ensures |ReadsOn(s.inflight, s.pops[id].pfid)| + |PopsOn(s.pops, s.pops[id].pfid)| == 1
  {
    hide Shape, Distinct, Tables, Links, FreeOk, FragsOk, Services, ReadOk, Coherent, ReadsOn, PopsOn;
    var k := s.pops[id];
    assert PopOk(s, k);
    MappedFacts(s.sce, k.lun, k.fragnum, k.pfid);
  }

  /** A population is alone on its fragment. */
  lemma PopAlone(s: Sys, id: nat)
    requires Tokens(s) && Core(s.sce) && id in s.pops
    ensures forall j :: j in s.pops && j != id ==> s.pops[j].pfid != s.pops[id].pfid
    ensures forall j :: j in s.inflight ==> s.inflight[j].pfid != s.pops[id].pfid
  {
    hide Core, Tokens;
    PopCount(s, id);
    var p := s.pops[id].pfid;
    var mine := PopsOn(s.pops, p);
    assert id in mine;
    Singleton(mine, id);
    forall j | j in s.pops && j != id ensures s.pops[j].pfid != p {
      assert j !in mine;
    }
    forall j | j in s.inflight ensures s.inflight[j].pfid != p {
      assert j !in ReadsOn(s.inflight, p);
    }
  }

  lemma Singleton(a: set<nat>, x: nat)
    requires x in a
    ensures |a| >= 1 && (|a| == 1 ==> a == {x})
  {
    assert a == {x} + (a - {x});
  }

  lemma PutPopStep(s: Sys, t: Sys, id: nat, failed: bool)
    requires Inv(s) && Next(s, EvPutPop(id, failed), t)
    ensures Inv(t)
  {
    hide Boundary, Counts, Coherent, Shrinks, Pins, Put4Pop, Ready, Purged, ReadOk;
    var k := s.pops[id];
    assert PopOk(s, k);
    Put4PopKeeps(s.sce, k.lun, k.fragnum, k.pfid, failed);
    PutPopMoves(s, t, id, failed);
  }

  lemma PutPopMoves(s: Sys, t: Sys, id: nat, failed: bool)
    requires Inv(s) && Boundary(t.sce) && id in s.pops && PopOk(s, s.pops[id])
    requires t == s.(sce := t.sce, pops := s.pops - {id})
    requires Populating(s.sce, s.pops[id].lun, s.pops[id].fragnum, s.pops[id].pfid)
    requires var k := s.pops[id];
             var s1 := Ready(s.sce, k.lun, k.fragnum, k.pfid);
             Core(s1) && Pins(s.sce, s1, k.lun, k.fragnum, k.pfid, -1) && Shrinks(s1, t.sce)
    requires !failed ==> forall q: nat :: q < PAGEPERFRAG ==> q in s.pops[id].written
    requires failed ==> forall m: nat, g: nat :: !MappedTo(t.sce, m, g, s.pops[id].pfid)
    ensures Tokens(t)
  {
    hide Boundary, Counts, PopOk, ReadOk, ReadsOn, PopsOn, Coherent, CoherentAt, Moves, Ready, Shape, Core, Distinct,
        Pins, Shrinks, Links;
    var k := s.pops[id];
    var s1 := Ready(s.sce, k.lun, k.fragnum, k.pfid);
    BoundaryParts(s.sce);
    BoundaryParts(t.sce);
    CoreParts(s1);
    PinsMoves(s.sce, s1, t.sce, k.lun, k.fragnum, k.pfid, -1);
    DropPop(s, t, id);
    PopAlone(s, id);
    if failed {
      NothingThere(t, k.pfid);
    } else {
      CopiedCoherent(s, t, id);
    }
    TokensMoved(s, t, k.pfid, -1);
  }

  lemma NothingThere(t: Sys, p: nat)
    requires forall m: nat, g: nat :: !MappedTo(t.sce, m, g, p)
    ensures CoherentAt(t, p)
  {
  }

  /** Once every page is written, the pages still valid are the disk's. */
  lemma CopiedCoherent(s: Sys, t: Sys, id: nat)
    requires id in s.pops && PopOk(s, s.pops[id]) && Links(s.sce) && Shape(t.sce) && t.ssd == s.ssd && t.hdd == s.hdd
    requires Moves(s.sce, t.sce, s.pops[id].pfid, -1) && forall q: nat :: q < PAGEPERFRAG ==> q in s.pops[id].written
    ensures CoherentAt(t, s.pops[id].pfid)
  {
    EmptySlots(t.sce);
    hide Shape;
    var k := s.pops[id];
    var p := k.pfid;
    forall l: nat, f: nat, q: nat |
      MappedTo(t.sce, l, f, p) && p in t.sce.frags && t.sce.luns[l].fragmap[f].valid && !t.sce.luns[l].waiting
      && q < PAGEPERFRAG && q !in t.sce.frags[p].invalid
      ensures t.ssd(p, q) == t.hdd(t.sce.luns[l].ctx, f * PAGEPERFRAG + q)
    {
      assert MappedTo(s.sce, l, f, p);
      assert l == k.lun && f == k.fragnum;
      assert KeptLun(s.sce.luns[l], t.sce.luns[l]);
    }
  }

  // ----- allocation

  lemma GetPopStep(s: Sys, t: Sys, id: nat, l: nat, f: nat)
    requires Inv(s) && Next(s, EvGetPop(id, l, f), t)
    ensures Inv(t)
  {
    hide Boundary, Tokens, Shrinks, Alloc, Reclaim, SameTables, TailCount, MapHead, MappedTo;
    AllocKeeps(s.sce, l, f);
    var s1 := Reclaim(s.sce).0;
    BoundaryParts(s1);
    var m := s.(sce := s1);
    TokensShrink(s, m);
    if Alloc(s.sce, l, f).1.Some? {
      ReclaimLun(s.sce, s1, l);
      GetPopMaps(m, t, id, l, f);
    } else {
      assert t == m || t == s;
    }
  }

  lemma ReclaimLun(s: Sce, s1: Sce, l: nat)
    requires SameTables(s, s1) && l < |s.luns|
    ensures l < |s1.luns| && s1.luns[l].ctx == s.luns[l].ctx
  {
    assert SameLun(s.luns[l], s1.luns[l]);
  }

  lemma GetPopMaps(s: Sys, t: Sys, id: nat, l: nat, f: nat)
    requires Inv(s) && CanMap(s.sce, l, f) && s.sce.free != [] && l < |s.sce.luns| && Boundary(t.sce) && id !in s.pops
    requires t == s.(sce := MapHead(s.sce, l, f),
        pops := s.pops[id := PopTask(l, s.sce.luns[l].ctx, f, s.sce.free[0], map[], {})])
    ensures Tokens(t)
  {
    hide Boundary, Counts, PopOk, ReadOk, ReadsOn, PopsOn, Coherent, Shape, Links, Core, Distinct, CanMap, MapHead;
    BoundaryParts(s.sce);
    MapEffect(s.sce, l, f);
    var p := s.sce.free[0];
    AddPop(s, t, id, t.pops[id]);
    MappedCounts(s, t, l, f, p);
    MappedCoherent(s, t, l, f, p);
    forall j | j in t.inflight ensures ReadOk(t, t.inflight[j]) {
      ReadMapped(s, t, s.inflight[j], l, f, p);
    }
    forall j | j in t.pops ensures PopOk(t, t.pops[j]) {
      if j == id {
        NewPop(s, t, t.pops[id]);
      } else {
        PopMapped(s, t, s.pops[j], l, f, p);
      }
    }
  }

  /** Mapping the head of the free list adds one unreadable entry, with one token, and nothing else. */
  ghost predicate Maps(s: Sce, s': Sce, l: nat, f: nat, p: nat) {
    && |s'.luns| == |s.luns| && (forall m :: 0 <= m < |s.luns| ==> SameLun(s.luns[m], s'.luns[m]))
    && (forall m: nat, g: nat, q: nat ::
            MappedTo(s', m, g, q) <==> MappedTo(s, m, g, q) || (m == l && g == f && q == p))
    && (forall m: nat, g: nat, q: nat :: MappedTo(s, m, g, q) ==>
        q in s'.frags && q in s.frags && q != p && s'.frags[q] == s.frags[q]
                                                                  && s'.luns[m].fragmap[g] == s.luns[m].fragmap[g])
    && p in s'.frags && s'.frags[p].nrService == 1 && Populating(s', l, f, p)
  }

  lemma MapEffect(s: Sce, l: nat, f: nat)
    requires Core(s) && CanMap(s, l, f)
    ensures Maps(s, MapHead(s, l, f), l, f, s.free[0])
    ensures forall m: nat, g: nat :: !MappedTo(s, m, g, s.free[0])
  {
    hide Shape, Distinct, Tables, FragsOk, Services, TailCount;
    MapMapping(s, l, f);
    assert s.free[0] in s.free;
    FreeHeadIdle(s);
    assert f < UNLISTED by { SmallLun(s, l); }
    forall m: nat, g: nat ensures !MappedTo(s, m, g, s.free[0]) {
      if MappedTo(s, m, g, s.free[0]) {
        SmallLun(s, m);
      }
    }
  }

  lemma MappedCounts(s: Sys, t: Sys, l: nat, f: nat, p: nat)
    requires Tokens(s) && Maps(s.sce, t.sce, l, f, p) && forall m: nat, g: nat :: !MappedTo(s.sce, m, g, p)
    requires forall q: nat ::
        |ReadsOn(t.inflight, q)| + |PopsOn(t.pops, q)| ==
            |ReadsOn(s.inflight, q)| + |PopsOn(s.pops, q)| + Delta(q, p, 1)
    ensures Counts(t)
  {
    assert ReadsOn(s.inflight, p) == {} by {
      forall id | id in s.inflight ensures s.inflight[id].pfid != p {
        assert ReadOk(s, s.inflight[id]);
      }
    }
    assert PopsOn(s.pops, p) == {} by {
      forall id | id in s.pops ensures s.pops[id].pfid != p {
        assert PopOk(s, s.pops[id]);
      }
    }
    hide ReadsOn, PopsOn, Coherent, ReadOk, PopOk;
    forall m: nat, g: nat, q: nat | MappedTo(t.sce, m, g, q)
      ensures q in t.sce.frags && t.sce.frags[q].nrService == |ReadsOn(t.inflight, q)| + |PopsOn(t.pops, q)|
    {
      if q != p {
        assert MappedTo(s.sce, m, g, q);
      }
    }
  }

  lemma MappedCoherent(s: Sys, t: Sys, l: nat, f: nat, p: nat)
    requires Coherent(s) && Maps(s.sce, t.sce, l, f, p) && t.ssd == s.ssd && t.hdd == s.hdd
    requires forall m: nat, g: nat :: !MappedTo(s.sce, m, g, p)
    ensures Coherent(t)
  {
    forall m: nat, g: nat, x: nat, q: nat |
      MappedTo(t.sce, m, g, x) && x in t.sce.frags && t.sce.luns[m].fragmap[g].valid && !t.sce.luns[m].waiting
      && q < PAGEPERFRAG && q !in t.sce.frags[x].invalid
      ensures t.ssd(x, q) == t.hdd(t.sce.luns[m].ctx, g * PAGEPERFRAG + q)
    {
      assert MappedTo(s.sce, m, g, x) || (m == l && g == f && x == p);
      assert MappedTo(s.sce, m, g, x);
      assert SameLun(s.sce.luns[m], t.sce.luns[m]);
    }
  }

  lemma ReadMapped(s: Sys, t: Sys, k: ReadToken, l: nat, f: nat, p: nat)
    requires ReadOk(s, k) && Maps(s.sce, t.sce, l, f, p) && t.ssd == s.ssd
    ensures ReadOk(t, k)
  {
    assert MappedTo(t.sce, k.lun, FragOf(k.sctr), k.pfid);
    assert SameLun(s.sce.luns[k.lun], t.sce.luns[k.lun]);
  }

  lemma PopMapped(s: Sys, t: Sys, k: PopTask, l: nat, f: nat, p: nat)
    requires PopOk(s, k) && Maps(s.sce, t.sce, l, f, p) && t.ssd == s.ssd && t.hdd == s.hdd
    ensures PopOk(t, k)
  {
    assert MappedTo(t.sce, k.lun, k.fragnum, k.pfid);
    assert SameLun(s.sce.luns[k.lun], t.sce.luns[k.lun]);
  }

  lemma NewPop(s: Sys, t: Sys, k: PopTask)
    requires Maps(s.sce, t.sce, k.lun, k.fragnum, k.pfid) && k.lun < |s.sce.luns| && k.ctx == s.sce.luns[k.lun].ctx
    requires k.buffer == map[] && k.written == {}
    ensures PopOk(t, k)
  {
    assert SameLun(s.sce.luns[k.lun], t.sce.luns[k.lun]);
  }

  // ----- copying pages

  lemma CopyInStep(s: Sys, t: Sys, id: nat, q: nat)
    requires Inv(s) && Next(s, EvCopyIn(id, q), t)
    ensures Inv(t)
  {
    hide Boundary, Counts, ReadOk, PopOk, ReadsOn, PopsOn, BeyondEnd;
    CopyOutCounts(s, t, id);
    forall j | j in t.inflight ensures ReadOk(t, t.inflight[j]) {
      ReadSame(s, t, s.inflight[j]);
    }
    forall j | j in t.pops ensures PopOk(t, t.pops[j]) {
      PopSame(s, t, s.pops[j]);
      if j == id {
        BufferSees(s, t, id, q);
      }
    }
  }

  lemma ReadSame(s: Sys, t: Sys, k: ReadToken)
    requires ReadOk(s, k) && t.sce == s.sce && t.ssd == s.ssd
    ensures ReadOk(t, k)
  {
  }

  lemma PopSame(s: Sys, t: Sys, k: PopTask)
    requires PopOk(s, k) && t.sce == s.sce && t.ssd == s.ssd && t.hdd == s.hdd
    ensures PopOk(t, k)
  {
  }

  lemma BufferSees(s: Sys, t: Sys, id: nat, q: nat)
    requires id in s.pops && PopOk(s, s.pops[id]) && Next(s, EvCopyIn(id, q), t)
    ensures PopOk(t, t.pops[id])
  {
  }

  lemma SamePops(s: Sys, t: Sys, id: nat)
    requires id in s.pops && id in t.pops && t.pops == s.pops[id := t.pops[id]] && t.pops[id].pfid == s.pops[id].pfid
    ensures forall p: nat :: PopsOn(t.pops, p) == PopsOn(s.pops, p)
  {
  }

  lemma CopyOutStep(s: Sys, t: Sys, id: nat, q: nat)
    requires Inv(s) && Next(s, EvCopyOut(id, q), t)
    ensures Inv(t)
  {
    hide Boundary, Counts, Coherent, ReadOk, PopOk, ReadsOn, PopsOn, BeyondEnd, Filled;
    assert PopOk(s, s.pops[id]);
    BoundaryParts(s.sce);
    hide Core, Shape, Links, Distinct;
    PopAlone(s, id);
    CopyOutWrites(s, t, id, q);
    CopyOutCoherent(s, t, id, q);
    CopyOutCounts(s, t, id);
    forall j | j in t.inflight ensures ReadOk(t, t.inflight[j]) {
      ReadElsewhere(s, t, s.inflight[j], s.pops[id].pfid, q);
    }
    forall j | j in t.pops ensures PopOk(t, t.pops[j]) {
      if j != id {
        PopElsewhere(s, t, s.pops[j], s.pops[id].pfid, q);
      }
    }
  }

  lemma CopyOutCounts(s: Sys, t: Sys, id: nat)
    requires Counts(s) && t.sce == s.sce && t.inflight == s.inflight
    requires id in s.pops && id in t.pops && t.pops == s.pops[id := t.pops[id]] && t.pops[id].pfid == s.pops[id].pfid
    ensures Counts(t)
  {
    hide PopsOn, ReadsOn;
    SamePops(s, t, id);
  }

  /** The page written is either invalid or the disk's. */
  lemma CopyOutWrites(s: Sys, t: Sys, id: nat, q: nat)
    requires id in s.pops && id in t.pops && Core(s.sce) && PopOk(s, s.pops[id]) && Next(s, EvCopyOut(id, q), t)
    ensures PopOk(t, t.pops[id])
  {
    hide Shape, Distinct, Tables, Links, FreeOk, FragsOk, Services;
    var k := s.pops[id];
    MappedFacts(s.sce, k.lun, k.fragnum, k.pfid);
    assert q in k.buffer || q in s.sce.frags[k.pfid].invalid;
  }

  lemma ReadElsewhere(s: Sys, t: Sys, k: ReadToken, p: nat, q: nat)
    requires ReadOk(s, k) && t.sce == s.sce && SameBut(s.ssd, t.ssd, p, q, q) && k.pfid != p
    ensures ReadOk(t, k)
  {
  }

  lemma PopElsewhere(s: Sys, t: Sys, k: PopTask, p: nat, q: nat)
    requires PopOk(s, k) && t.sce == s.sce && t.hdd == s.hdd && SameBut(s.ssd, t.ssd, p, q, q) && k.pfid != p
    ensures PopOk(t, k)
  {
  }

  lemma CopyOutCoherent(s: Sys, t: Sys, id: nat, q: nat)
    requires Coherent(s) && id in s.pops && PopOk(s, s.pops[id]) && Links(s.sce)
    requires t.sce == s.sce && t.hdd == s.hdd && SameBut(s.ssd, t.ssd, s.pops[id].pfid, q, q)
    ensures Coherent(t)
  {
    var k := s.pops[id];
    forall l: nat, f: nat, p: nat, r: nat |
      MappedTo(t.sce, l, f, p) && p in t.sce.frags && t.sce.luns[l].fragmap[f].valid && !t.sce.luns[l].waiting
      && r < PAGEPERFRAG && r !in t.sce.frags[p].invalid
      ensures t.ssd(p, r) == t.hdd(t.sce.luns[l].ctx, f * PAGEPERFRAG + r)
    {
      assert MappedTo(s.sce, k.lun, k.fragnum, k.pfid) && !s.sce.luns[k.lun].fragmap[k.fragnum].valid;
      assert p != k.pfid;
    }
  }

  // ----- writes

  /** Disk pages of other LUNs, and pages of this LUN outside the written range, keep their content. */
  ghost predicate OnlyStale(s: Sys, t: Sys) {
    forall l: nat, f: nat, p: nat, q: nat ::
      MappedTo(t.sce, l, f, p) && p in t.sce.frags && !t.sce.luns[l].waiting && q < PAGEPERFRAG &&
          q !in t.sce.frags[p].invalid ==>
        t.hdd(t.sce.luns[l].ctx, f * PAGEPERFRAG + q) == s.hdd(t.sce.luns[l].ctx, f * PAGEPERFRAG + q)
  }

  /** A write that leaves every still valid page alone disturbs no token. */
  lemma TokensWrite(s: Sys, t: Sys)
    requires Tokens(s) && t == s.(hdd := t.hdd) && OnlyStale(s, t)
    ensures Tokens(t)
  {
    hide Counts;
    assert Counts(t) by { CountsSame(s, t); }
    forall j | j in t.inflight ensures ReadOk(t, t.inflight[j]) {
      assert ReadOk(s, s.inflight[j]);
    }
    forall j | j in t.pops ensures PopOk(t, t.pops[j]) {
      assert PopOk(s, s.pops[j]);
    }
  }

  lemma CountsSame(s: Sys, t: Sys)
    requires Counts(s) && t.sce == s.sce && t.inflight == s.inflight && t.pops == s.pops
    ensures Counts(t)
  {
  }

  lemma WriteStep(s: Sys, t: Sys, l: nat, sctr: nat, n: nat)
    requires Inv(s) && Next(s, EvWrite(l, sctr, n), t)
    ensures Inv(t)
  {
    WriteIs(s, t, l, sctr, n);
    hide Boundary, Tokens, Shrinks, Invalidate, Marked, OnlyStale, SameBut, Next;
    InvalidateKeeps(s.sce, l, sctr, n);
    BoundaryParts(s.sce);
    BoundaryParts(t.sce);
    hide Core, Shape, Links, Distinct;
    var m := s.(sce := t.sce);
    TokensShrink(s, m);
    if n > 0 && InsideLun(s.sce, l, sctr, n) {
      KeepsWaiting(s.sce, t.sce, l, sctr, n);
      WriteStale(m, t, s.sce.luns[l].ctx, l, sctr / SCTRPERPAGE, (sctr + n - 1) / SCTRPERPAGE);
    } else {
      NoWriteStale(m, t);
    }
    TokensWrite(m, t);
  }

  predicate InsideLun(s: Sce, l: nat, sctr: nat, n: nat) {
    l < |s.luns| && s.luns[l].present && sctr + n <= s.luns[l].nrSctr
  }

  lemma WriteIs(s: Sys, t: Sys, l: nat, sctr: nat, n: nat)
    requires Next(s, EvWrite(l, sctr, n), t)
    ensures t == s.(sce := Invalidate(s.sce, l, sctr, n).0, hdd := t.hdd)
    ensures if n > 0 && InsideLun(s.sce, l, sctr, n)
      then SameBut(s.hdd, t.hdd, s.sce.luns[l].ctx, sctr / SCTRPERPAGE, (sctr + n - 1) / SCTRPERPAGE)
      else t.hdd == s.hdd
  {
    hide Invalidate, SameBut;
  }

  lemma NoWriteStale(m: Sys, t: Sys)
    requires t.hdd == m.hdd
    ensures OnlyStale(m, t)
  {
  }

  lemma KeepsWaiting(s: Sce, s': Sce, l: nat, sctr: nat, n: nat)
    requires l < |s.luns| && s.luns[l].present && s' == Invalidate(s, l, sctr, n).0
    ensures l < |s'.luns| && s'.luns[l].present && s'.luns[l].ctx == s.luns[l].ctx &&
        s'.luns[l].waiting == s.luns[l].waiting
  {
    if Admits(s, l, sctr, n, true) {
      LoopKeepsLun(s, l, FirstPage(sctr) / PAGEPERFRAG, FirstPage(sctr) % PAGEPERFRAG,
          LastPage(sctr, n) - FirstPage(sctr) + 1);
    }
  }

  lemma {:induction false} LoopKeepsLun(s: Sce, l: nat, f: nat, off: nat, count: nat)
    requires l < |s.luns| && !s.luns[l].waiting && off < PAGEPERFRAG
    ensures var s' := InvalidateFrom(s, l, f, off, count);
            l < |s'.luns| && !s'.luns[l].waiting && s'.luns[l].present == s.luns[l].present &&
                s'.luns[l].ctx == s.luns[l].ctx
    decreases count
  {
    hide InvalidateOne;
    if count > 0 {
      var n := if PAGEPERFRAG - off > count then count else PAGEPERFRAG - off;
      OneKeepsId(s, l, f, PageRange(off, n));
      LoopKeepsLun(InvalidateOne(s, l, f, PageRange(off, n)), l, f + 1, 0, count - n);
    }
  }

  lemma OneKeepsId(s: Sce, l: nat, f: nat, pages: set<nat>)
    requires l < |s.luns| && !s.luns[l].waiting
    ensures var s' := InvalidateOne(s, l, f, pages);
            l < |s'.luns| && !s'.luns[l].waiting && s'.luns[l].present == s.luns[l].present &&
                s'.luns[l].ctx == s.luns[l].ctx
  {
  }

  lemma MappedPresent(s: Sce, l: nat, f: nat, p: nat)
    requires Shape(s) && MappedTo(s, l, f, p)
    ensures s.luns[l].present
  {
    assert LunOk(s.luns[l]);
  }

  lemma WriteStale(m: Sys, t: Sys, ctx: nat, l: nat, first: nat, last: int)
    requires t.sce == m.sce && Shape(m.sce) && Distinct(m.sce) && l < |m.sce.luns| && m.sce.luns[l].present &&
        m.sce.luns[l].ctx == ctx
    requires SameBut(m.hdd, t.hdd, ctx, first, last)
    requires !m.sce.luns[l].waiting ==> Marked(m.sce, l, first, last)
    ensures OnlyStale(m, t)
  {
    forall j: nat, f: nat, p: nat, q: nat |
      MappedTo(t.sce, j, f, p) && p in t.sce.frags && !t.sce.luns[j].waiting && q < PAGEPERFRAG &&
          q !in t.sce.frags[p].invalid
      ensures t.hdd(t.sce.luns[j].ctx, f * PAGEPERFRAG + q) == m.hdd(t.sce.luns[j].ctx, f * PAGEPERFRAG + q)
    {
      MappedPresent(m.sce, j, f, p);
      hide Shape;
      if t.sce.luns[j].ctx == ctx {
        assert j == l;
        assert !Touches(f, first, last, q);
      }
    }
  }

  lemma BypassStep(s: Sys, t: Sys, ctx: nat)
    requires Inv(s) && Next(s, EvBypass(ctx), t)
    ensures Inv(t)
  {
    hide Boundary, Tokens, OnlyStale;
    BoundaryParts(s.sce);
    BypassStale(s, t, ctx);
    TokensWrite(s, t);
  }

  lemma BypassStale(s: Sys, t: Sys, ctx: nat)
    requires Shape(s.sce) && Next(s, EvBypass(ctx), t)
    ensures OnlyStale(s, t)
  {
    forall j: nat, f: nat, p: nat, q: nat |
      MappedTo(t.sce, j, f, p) && p in t.sce.frags && !t.sce.luns[j].waiting && q < PAGEPERFRAG &&
          q !in t.sce.frags[p].invalid
      ensures t.hdd(t.sce.luns[j].ctx, f * PAGEPERFRAG + q) == s.hdd(t.sce.luns[j].ctx, f * PAGEPERFRAG + q)
    {
      MappedPresent(s.sce, j, f, p);
      assert t.sce.luns[j].ctx != ctx;
    }
  }

  // ----- configuration

  /** Same mappings, same fragments; LUNs that hold mappings may only start waiting. */
  lemma TokensSameMapping(s: Sys, t: Sys)
    requires Tokens(s) && t == s.(sce := t.sce) && t.sce.frags == s.sce.frags && |t.sce.luns| == |s.sce.luns|
    requires forall m: nat, g: nat, p: nat :: MappedTo(t.sce, m, g, p) <==> MappedTo(s.sce, m, g, p)
    requires forall m: nat, g: nat, p: nat :: MappedTo(s.sce, m, g, p) ==>
      && t.sce.luns[m].ctx == s.sce.luns[m].ctx && t.sce.luns[m].nrSctr == s.sce.luns[m].nrSctr
      && t.sce.luns[m].fragmap == s.sce.luns[m].fragmap && (s.sce.luns[m].waiting ==> t.sce.luns[m].waiting)
    ensures Tokens(t)
  {
    hide ReadsOn, PopsOn;
    forall j | j in t.inflight ensures ReadOk(t, t.inflight[j]) {
      assert ReadOk(s, s.inflight[j]);
    }
    forall j | j in t.pops ensures PopOk(t, t.pops[j]) {
      assert PopOk(s, s.pops[j]);
    }
  }

  lemma AddLunStep(s: Sys, t: Sys, nrSctr: nat, ctx: nat)
    requires Inv(s) && Next(s, EvAddLun(nrSctr, ctx), t)
    ensures Inv(t)
  {
    hide Boundary, Tokens, AddLun, NewLunOk;
    AddLunKeeps(s.sce, nrSctr, ctx);
    if t.sce != s.sce {
      BoundaryParts(s.sce);
      EmptySlots(s.sce);
      hide Shape, Links, Distinct, Core;
      TokensSameMapping(s, t);
    }
  }

  lemma RmLunStep(s: Sys, t: Sys, l: nat)
    requires Inv(s) && Next(s, EvRmLun(l), t)
    ensures Inv(t)
  {
    hide Boundary, Tokens, RmLun, Shrinks, Purged;
    RmLunKeeps(s.sce, l);
    BoundaryParts(t.sce);
    if t.sce != s.sce {
      if s.sce.luns[l].nrService == 0 {
        TokensShrink(s, t);
      } else {
        TokensSameMapping(s, t);
      }
    }
  }

  lemma AddCdevStep(s: Sys, t: Sys, nrSctr: nat, ctx: nat)
    requires Inv(s) && Next(s, EvAddCdev(nrSctr, ctx), t)
    ensures Inv(t)
  {
    hide Boundary, Tokens, AddCdev, Shrinks, Dev, DevicePfids, CtxUsed;
    AddCdevKeeps(s.sce, nrSctr, ctx);
    BoundaryParts(s.sce);
    BoundaryParts(t.sce);
    hide Core, Shape, Distinct;
    forall l: nat, f: nat, p: nat, q: nat | MappedTo(s.sce, l, f, p) ensures t.ssd(p, q) == s.ssd(p, q) {
      assert p in s.sce.frags;
    }
    TokensShrink(s, t);
  }

  lemma RmCdevStep(s: Sys, t: Sys, d: nat)
    requires Inv(s) && Next(s, EvRmCdev(d), t)
    ensures Inv(t)
  {
    hide Boundary, Tokens, RmCdev, Shrinks, Dev, DeviceIdle, OffDevice;
    RmCdevKeeps(s.sce, d);
    BoundaryParts(t.sce);
    TokensShrink(s, t);
  }

  // ----- all steps, all runs

  lemma InitInv(s: Sys)
    requires Init(s)
    ensures Inv(s)
  {
    CreateOk();
  }

  /** Every step keeps the invariant. */
  lemma StepInv(s: Sys, e: Event, t: Sys)
    requires Inv(s) && Next(s, e, t)
    ensures Inv(t)
  {
    hide Inv, Next;
    match e
    case EvAddLun(nrSctr, ctx) => AddLunStep(s, t, nrSctr, ctx);
    case EvRmLun(l) => RmLunStep(s, t, l);
    case EvAddCdev(nrSctr, ctx) => AddCdevStep(s, t, nrSctr, ctx);
    case EvRmCdev(d) => RmCdevStep(s, t, d);
    case EvGet(id, l, sctr, n) => GetStep(s, t, id, l, sctr, n);
    case EvPut(id) => PutStep(s, t, id);
    case EvWrite(l, sctr, n) => WriteStep(s, t, l, sctr, n);
    case EvBypass(ctx) => BypassStep(s, t, ctx);
    case EvGetPop(id, l, f) => GetPopStep(s, t, id, l, f);
    case EvCopyIn(id, q) => CopyInStep(s, t, id, q);
    case EvCopyOut(id, q) => CopyOutStep(s, t, id, q);
    case EvPutPop(id, failed) => PutPopStep(s, t, id, failed);
  }

  /** A finite run: states and the events between them. */
  ghost predicate IsRun(run: seq<Sys>, events: seq<Event>) {
    && |run| == |events| + 1 && Init(run[0])
    && forall i :: 0 <= i < |events| ==> Next(run[i], events[i], run[i + 1])
  }

  lemma {:induction false} RunInv(run: seq<Sys>, events: seq<Event>, i: nat)
    requires IsRun(run, events) && i < |run|
    ensures Inv(run[i])
  {
    hide Inv, Init, Next;
    if i == 0 {
      InitInv(run[0]);
    } else {
      RunInv(run, events, i - 1);
      StepInv(run[i - 1], events[i - 1], run[i]);
    }
  }

  /** A token that is there before and after a step is the same token. */
  lemma TokenStays(s: Sys, e: Event, t: Sys, id: nat)
    requires Next(s, e, t) && id in s.inflight && id in t.inflight
    ensures t.inflight[id] == s.inflight[id]
  {
    hide AddLun, RmLun, AddCdev, RmCdev, Get4Read, Put4Read, Invalidate, Alloc, Put4Pop, DeviceIdle, NewLunOk, Filled,
        BeyondEnd, Snapshot;
  }

  ghost predicate Outstanding(run: seq<Sys>, id: nat, i: nat, j: nat)
    requires i <= j < |run|
  {
    forall k :: i <= k <= j ==> id in run[k].inflight
  }

  lemma {:induction false} TokenConstant(run: seq<Sys>, events: seq<Event>, id: nat, i: nat, j: nat)
    requires IsRun(run, events) && i <= j < |run| && Outstanding(run, id, i, j)
    ensures run[j].inflight[id] == run[i].inflight[id]
  {
    hide Next, Init;
    if i < j {
      TokenConstant(run, events, id, i, j - 1);
      TokenStays(run[j - 1], events[j - 1], run[j], id);
    }
  }

  /** The token a hit leaves. */
  lemma HitToken(s: Sys, t: Sys, id: nat, l: nat, sctr: nat, n: nat)
    requires Inv(s) && Next(s, EvGet(id, l, sctr, n), t) && id in t.inflight
    ensures n > 0 && l < |s.sce.luns| && Get4Read(s.sce, l, sctr, n).1.Some?
    ensures t.inflight[id] == ReadToken(l, sctr, n, Get4Read(s.sce, l, sctr, n).1.value,
        Snapshot(s.hdd, s.sce.luns[l].ctx, sctr, n))
  {
    hide Get4Read, Snapshot, Tokens, Boundary;
  }

  /** Cached reads are linearizable. In any run, if step `i` is a get4read that hits and its put4read has not come by
      state `j`, then every page of the request is, on the cache device in state `j`, what the disk held just before
      step `i`, whatever writes, populations, evictions and deletions came between; and the fragment is still mapped
      at the entry that was hit. */
  lemma CachedReadsLinearize(run: seq<Sys>, events: seq<Event>, i: nat, j: nat, id: nat, l: nat, sctr: nat, n: nat,
      g: nat)
    requires IsRun(run, events) && i < j < |run| && events[i] == EvGet(id, l, sctr, n)
    requires Outstanding(run, id, i + 1, j)
    requires n > 0 && FirstPage(sctr) <= g <= LastPage(sctr, n)
    ensures l < |run[i].sce.luns|
    ensures Get4Read(run[i].sce, l, sctr, n).1.Some?
    ensures var p := Get4Read(run[i].sce, l, sctr, n).1.value;
            && run[j].ssd(p, g % PAGEPERFRAG) == run[i].hdd(run[i].sce.luns[l].ctx, g)
            && MappedTo(run[j].sce, l, FragOf(sctr), p)
            && p in run[j].sce.frags && run[j].sce.frags[p].nrService > 0
  {
    hide Boundary, Counts, Coherent, PopOk, Get4Read, Next, Init;
    RunInv(run, events, i);
    RunInv(run, events, j);
    HitToken(run[i], run[i + 1], id, l, sctr, n);
    TokenConstant(run, events, id, i + 1, j);
    assert ReadOk(run[j], run[j].inflight[id]);
    ReadBusy(run[j], id);
  }
}
