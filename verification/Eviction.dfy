// _evict_frag: it keeps the invariant on any state, and with dense slots its victim is determined.

module Eviction {
  import opened Arithmetic
  import opened Words
  import opened SceState
  import opened Invariants
  import opened Preservation
  import opened Requests
  import opened Clock

  // ----- the invariant

  lemma {:induction false} EvictLoopKeeps(s: Sce, i: nat)
    requires Boundary(s)
    ensures var (s', ok) := EvictLoop(s, i);
            Boundary(s') && Shrinks(s, s') && SameTables(s, s') && (ok ==> |s'.free| == |s.free| + 1) &&
                (!ok ==> s'.free == s.free)
    decreases i
  {
    hide Boundary, Shrinks, SameTables, Advance, Unmap;
    BoundarySame(s);
    var (s1, at) := Advance(s);
    if i > 0 {
      ArmKeeps(s);
      if at.Some? && at.value in s.frags {
        var p := at.value;
        var fr := s.frags[p];
        if !Idle(fr) {
          EvictLoopKeeps(s1, i - 1);
          ShrinksTwice(s, s1, EvictLoop(s1, i - 1).0);
          SameTablesTwice(s, s1, EvictLoop(s1, i - 1).0);
        } else if fr.nrRef == 0 {
          VictimKeeps(s1, p);
          ShrinksTwice(s, s1, Unmap(s1, fr.lunidx, fr.fragnum));
          SameTablesTwice(s, s1, Unmap(s1, fr.lunidx, fr.fragnum));
        } else {
          var s2 := SetFrag(s1, p, fr.(nrRef := fr.nrRef - 1));
          AgeKeeps(s1, p);
          ShrinksTwice(s, s1, s2);
          SameTablesTwice(s, s1, s2);
          EvictLoopKeeps(s2, i - 1);
          ShrinksTwice(s, s2, EvictLoop(s2, i - 1).0);
          SameTablesTwice(s, s2, EvictLoop(s2, i - 1).0);
        }
      }
    }
  }

  lemma BoundarySame(s: Sce)
    requires Boundary(s)
    ensures Shrinks(s, s) && SameTables(s, s)
  {
    ShrinksSelf(s);
  }

  lemma ArmKeeps(s: Sce)
    requires Boundary(s)
    ensures var s1 := Advance(s).0;
            && Boundary(s1) && Shrinks(s, s1) && SameTables(s, s1)
            && s1.frags == s.frags && s1.free == s.free
  {
    var s1 := Advance(s).0;
    assert s1 == s.(arm := s1.arm);
    ShrinksSelf(s);
    CountersKeep(s, s, s1);
  }

  lemma IdleMapped(s: Sce, p: nat)
    requires Core(s) && p in s.frags && Idle(s.frags[p])
    ensures MappedTo(s, s.frags[p].lunidx, s.frags[p].fragnum, p)
    ensures Unmappable(s, s.frags[p].lunidx, s.frags[p].fragnum)
  {
  }

  lemma VictimKeeps(s: Sce, p: nat)
    requires Boundary(s) && p in s.frags && Idle(s.frags[p])
    ensures var s' := Unmap(s, s.frags[p].lunidx, s.frags[p].fragnum);
            Boundary(s') && Shrinks(s, s') && SameTables(s, s') && |s'.free| == |s.free| + 1
  {
    hide Shape, Distinct, Tables, Links, FreeOk, FragsOk, Services, Shrinks, NoDead, MappedTo, Idle;
    var l, f := s.frags[p].lunidx, s.frags[p].fragnum;
    var s' := Unmap(s, l, f);
    IdleMapped(s, p);
    CoreUnmap(s, l, f);
    UnmapShrinks(s, l, f);
    UnmapTables(s, l, f);
    UnmapCounts(s, l, f);
    UnmapNoDead(s, l, f);
  }

  lemma UnmapCounts(s: Sce, l: nat, f: nat)
    requires Deferred(s)
    ensures Deferred(Unmap(s, l, f))
  {
  }

  lemma UnmapNoDead(s: Sce, l: nat, f: nat)
    requires Core(s) && NoDead(s)
    ensures NoDead(Unmap(s, l, f))
  {
    hide Shape, Distinct, Tables, FreeOk, FragsOk, Services;
    UnmapShrinks(s, l, f);
    if Unmappable(s, l, f) {
      var s' := Unmap(s, l, f);
      UnmapMapping(s, l, f);
      forall m: nat, g: nat, q: nat | MappedTo(s', m, g, q) && q in s'.frags && s'.luns[m].fragmap[g].valid &&
          s'.frags[q].nrService == 0
        ensures s'.frags[q].nrValid > 0
      {
        assert MappedTo(s, m, g, q);
        assert s'.frags[q].nrValid == s.frags[q].nrValid;
      }
    }
  }

  lemma AgeKeeps(s: Sce, p: nat)
    requires Boundary(s) && p in s.frags && Idle(s.frags[p]) && s.frags[p].nrRef > 0
    ensures var s' := SetFrag(s, p, s.frags[p].(nrRef := s.frags[p].nrRef - 1));
            Boundary(s') && Shrinks(s, s') && SameTables(s, s') && s'.free == s.free
  {
    hide Shape, Distinct, Tables, Links, FreeOk, FragsOk, Services, Shrinks, NoDead, Deferred, MappedTo;
    var fr := s.frags[p];
    IdleMapped(s, p);
    RefBound(s, fr.lunidx, fr.fragnum, p);
    StatsKeep(s, fr.lunidx, fr.fragnum, p, fr.(nrRef := fr.nrRef - 1));
    assert SetFrag(s, p, fr.(nrRef := fr.nrRef - 1)).frags.Keys == s.frags.Keys;
  }

  /** On any state, dense or not, _evict_frag keeps the invariant; success means one more free fragment. */
  lemma EvictKeeps(s: Sce)
    requires Boundary(s)
    ensures var (s', ok) := Evict(s);
            Boundary(s') && Shrinks(s, s') && SameTables(s, s') && (ok ==> |s'.free| == |s.free| + 1) &&
                (!ok ==> s'.free == s.free)
  {
    hide Boundary, Shrinks, SameTables, EvictLoop;
    BoundarySame(s);
    EvictLoopKeeps(s, s.nrFrag * REFCEILING);
  }

  // ----- what the loop does, call by call

  /** How many of the first `t` clock calls return fragment `p`. */
  function Visits(s: Sce, p: nat, t: nat): nat {
    if t == 0 then 0 else Visits(s, p, t - 1) + if At(s, t - 1) == Some(p) then 1 else 0
  }

  /** Fragments are evicted in the order of this number: reference count first, clock distance second. */
  function Key(s: Sce, p: nat): nat
    requires Dense(s) && p in s.frags && Dev(p) <= |s.cdevs|
  {
    s.frags[p].nrRef * s.nrFrag + Dist(s, p)
  }

  ghost predicate Good(s: Sce) { Shape(s) && Tables(s) && Dense(s) && s.nrFrag > 0 && forall p :: p in s.frags ==>
      Dev(p) <= |s.cdevs| }

  lemma DenseGood(s: Sce)
    requires Shape(s) && Tables(s) && Dense(s)
    ensures Good(s)
  {
    DenseSize(s);
  }

  function Aged(fr: Frag, visits: nat): Frag {
    if Idle(fr) then fr.(nrRef := if fr.nrRef >= visits then fr.nrRef - visits else 0) else fr
  }

  /** `t` clock steps without an eviction: every idle fragment has lost one reference per visit. */
  function Sweep(s: Sce, t: nat): Sce {
    s.(arm := Turn(s, t).arm, frags := map p | p in s.frags :: Aged(s.frags[p], Visits(s, p, t)))
  }

  lemma {:induction false} VisitsClosed(s: Sce, p: nat, t: nat)
    requires Good(s) && p in s.frags
    ensures Visits(s, p, t) == Rounds(t, s.nrFrag) + if Dist(s, p) < Phase(t, s.nrFrag) then 1 else 0
    ensures At(s, t) == Some(p) <==> Dist(s, p) == Phase(t, s.nrFrag)
  {
    hide Rounds, Phase, Shape, Tables, At, Dist;
    DistBound(s, p);
    AtIff(s, p, t);
    if t == 0 {
      Within(0, s.nrFrag);
    } else {
      VisitsClosed(s, p, t - 1);
      StepRounds(t - 1, s.nrFrag);
    }
  }

  lemma AtIff(s: Sce, p: nat, t: nat)
    requires Good(s) && p in s.frags
    ensures At(s, t) == Some(p) <==> Dist(s, p) == Phase(t, s.nrFrag)
  {
    hide Phase, Shape, Tables, At, Dist;
    Rotation(s, t);
    if Dist(s, p) == Phase(t, s.nrFrag) {
      DistInjective(s, p, At(s, t).value);
    }
  }

  lemma KeyArithmetic(n: nat, r: nat, d: nat, q: nat, h: nat)
    requires d < n && h < n && r * n + d >= q * n + h
    ensures r >= q && (d < h ==> r > q)
    ensures r * n + d == q * n + h <==> r == q && d == h
  {
    if r < q {
      Distribute(r, q - r - 1, n);
    }
    if r * n + d == q * n + h {
      Unique(n, r, d, q, h);
    }
  }

  /** As long as an idle fragment's key has not passed, its references outnumber its visits; its turn to go is its
      key. */
  lemma KeyTurn(s: Sce, p: nat, t: nat)
    requires Good(s) && p in s.frags && Key(s, p) >= t
    ensures Visits(s, p, t) <= s.frags[p].nrRef
    ensures Key(s, p) == t <==> At(s, t) == Some(p) && Visits(s, p, t) == s.frags[p].nrRef
  {
    hide Rounds, Phase, Shape, Tables, At, Dist, Visits;
    VisitsClosed(s, p, t);
    DistBound(s, p);
    RoundsPhase(t, s.nrFrag);
    KeyArithmetic(s.nrFrag, s.frags[p].nrRef, Dist(s, p), Rounds(t, s.nrFrag), Phase(t, s.nrFrag));
  }

  ghost predicate NoneBefore(s: Sce, t: nat)
    requires Good(s)
  {
    forall p :: p in s.frags && Idle(s.frags[p]) ==> Key(s, p) >= t
  }

  lemma SweepStart(s: Sce)
    ensures Sweep(s, 0) == s
  {
    assert Sweep(s, 0).frags == s.frags;
  }

  lemma AdvanceSweep(s: Sce, t: nat)
    requires Good(s)
    ensures var (s1, at) := Advance(Sweep(s, t));
            s1 == Sweep(s, t).(arm := Turn(s, t + 1).arm) && at == At(s, t) && at.Some? && at.value in s.frags
  {
    hide Shape, Tables, Visits, Aged, ArmDev, ArmOff, Arm, Pfid, Dist, ArmPos;
    Rotation(s, t);
    TurnPos(s, t);
  }

  /** One iteration that evicts nobody. */
  lemma SweepStep(s: Sce, t: nat, i: nat)
    requires Good(s) && NoneBefore(s, t) && i > 0 && At(s, t).Some? && At(s, t).value in s.frags
    requires var p := At(s, t).value; !(Idle(s.frags[p]) && Key(s, p) == t)
    ensures EvictLoop(Sweep(s, t), i) == EvictLoop(Sweep(s, t + 1), i - 1)
    ensures NoneBefore(s, t + 1)
  {
    hide Shape, Tables, At, Dist, Unmap, Turn, Advance, Key;
    var p := At(s, t).value;
    AdvanceSweep(s, t);
    forall q | q in s.frags && Idle(s.frags[q]) ensures Key(s, q) >= t + 1 {
      KeyTurn(s, q, t);
    }
    SweepFrags(s, t, p);
    var u := Sweep(s, t);
    if Idle(s.frags[p]) {
      KeyTurn(s, p, t);
      var fr := u.frags[p];
      assert fr.nrRef > 0 && Aged(s.frags[p], Visits(s, p, t) + 1) == fr.(nrRef := fr.nrRef - 1);
      assert SetFrag(Advance(u).0, p, fr.(nrRef := fr.nrRef - 1)) == Sweep(s, t + 1);
    } else {
      assert u.frags[p] == s.frags[p];
      assert Sweep(s, t + 1).frags == u.frags;
      assert Advance(u).0 == Sweep(s, t + 1);
    }
  }

  lemma SweepFrags(s: Sce, t: nat, p: nat)
    requires p in s.frags && At(s, t) == Some(p)
    ensures Sweep(s, t + 1).frags == Sweep(s, t).frags[p := Aged(s.frags[p], Visits(s, p, t) + 1)]
    ensures Sweep(s, t + 1) == Sweep(s, t).(arm := Turn(s, t + 1).arm, frags := Sweep(s, t + 1).frags)
  {
    hide Turn, At, Aged;
  }

  /** The iteration that evicts. */
  lemma SweepEvicts(s: Sce, t: nat, i: nat, v: nat)
    requires Good(s) && NoneBefore(s, t) && i > 0 && v in s.frags && Idle(s.frags[v]) && Key(s, v) == t
    ensures EvictLoop(Sweep(s, t), i) == (Evicted(s, v), true)
  {
    hide Shape, Tables, At, Dist, Unmap, Turn, Advance, Key;
    AdvanceSweep(s, t);
    KeyTurn(s, v, t);
    SweepFrags(s, t, v);
    assert Sweep(s, t + 1).frags == Sweep(s, t).frags;
  }

  /** The state after fragment `v` was evicted: swept up to and including its own turn, then unmapped. */
  function Evicted(s: Sce, v: nat): Sce
    requires Dense(s) && v in s.frags && Dev(v) <= |s.cdevs|
  {
    Unmap(Sweep(s, Key(s, v) + 1), s.frags[v].lunidx, s.frags[v].fragnum)
  }

  ghost predicate IsVictim(s: Sce, v: nat)
    requires Good(s)
  {
    v in s.frags && Idle(s.frags[v]) && NoneBefore(s, Key(s, v))
  }

  lemma {:induction false} LoopFrom(s: Sce, t: nat, i: nat)
    requires Good(s) && NoneBefore(s, t)
    ensures var (s', ok) := EvictLoop(Sweep(s, t), i);
            && (ok ==> exists v :: IsVictim(s, v) && Key(s, v) < t + i && s' == Evicted(s, v))
            && (!ok ==> NoneBefore(s, t + i) && s' == Sweep(s, t + i))
    decreases i
  {
    hide Shape, Tables, At, Dist, Key, Sweep, Evicted, Dense, NoneBefore, Advance;
    if i == 0 {
      assert EvictLoop(Sweep(s, t), 0) == (Sweep(s, t), false);
    } else {
      AdvanceSweep(s, t);
      var p := At(s, t).value;
      if Idle(s.frags[p]) && Key(s, p) == t {
        SweepEvicts(s, t, i, p);
        assert IsVictim(s, p);
      } else {
        SweepStep(s, t, i);
        LoopFrom(s, t + 1, i - 1);
      }
    }
  }

  // ----- the victim

  predicate Evictable(fr: Frag) { Idle(fr) && fr.nrRef < REFCEILING }

  /** A key below 4 * nr_frag is a reference count below 4. */
  lemma KeyBound(s: Sce, p: nat)
    requires Good(s) && p in s.frags
    ensures Key(s, p) < s.nrFrag * REFCEILING <==> s.frags[p].nrRef < REFCEILING
  {
    hide Shape, Tables, Dist;
    DistBound(s, p);
    KeyArithmetic(s.nrFrag, s.frags[p].nrRef, Dist(s, p), s.frags[p].nrRef, Dist(s, p));
    if s.frags[p].nrRef < REFCEILING {
      Distribute(s.frags[p].nrRef, REFCEILING - s.frags[p].nrRef - 1, s.nrFrag);
    } else if s.frags[p].nrRef > REFCEILING {
      Distribute(REFCEILING, s.frags[p].nrRef - REFCEILING - 1, s.nrFrag);
    }
  }

  lemma SomeMapped(s: Sce, p: nat)
    requires Core(s) && p in s.frags && Idle(s.frags[p])
    ensures |s.free| < s.nrFrag
  {
    hide Shape, Distinct, Links, FragsOk, Services;
    ListShorter(s.free, s.frags.Keys, p);
  }

  /** A list without duplicates that misses one member of a set is shorter than the set. */
  lemma {:induction false} ListShorter(free: seq<nat>, all: set<nat>, p: nat)
    requires NoDuplicates(free) && (forall q :: q in free ==> q in all) && p in all && p !in free
    ensures |free| < |all|
  {
    if free != [] {
      var rest := all - {free[0]};
      assert free[0] in free;
      assert |rest| == |all| - 1;
      forall q | q in free[1..] ensures q in rest {
        assert q in free;
      }
      ListShorter(free[1..], rest, p);
    }
  }

  /** _evict_frag succeeds iff a mapped idle fragment has fewer than four references. Its victim is the one with the
      smallest key, that is with the fewest references and among these the one the arm reaches first; the other idle
      fragments lose one reference per visit of the arm, and nothing else changes. A failed call sweeps four rounds.
      */
  lemma EvictExact(s: Sce)
    requires Boundary(s) && Dense(s)
    ensures Good(s)
    ensures var (s', ok) := Evict(s);
            && (ok <==> exists p :: p in s.frags && Evictable(s.frags[p]))
            && (ok ==> exists v :: IsVictim(s, v) && Evictable(s.frags[v]) && s' == Evicted(s, v))
            && (!ok ==> s' == if |s.free| < s.nrFrag then Sweep(s, s.nrFrag * REFCEILING) else s)
  {
    DenseGood(s);
    hide Shape, Tables, Distinct, Links, FreeOk, FragsOk, Services, Deferred, NoDead, Key, Sweep, Evicted, EvictLoop,
        Dist;
    if p :| p in s.frags && Evictable(s.frags[p]) {
      SomeMapped(s, p);
    }
    if |s.free| < s.nrFrag {
      LoopBound(s);
    }
  }

  lemma LoopBound(s: Sce)
    requires Good(s)
    ensures var (s', ok) := EvictLoop(s, s.nrFrag * REFCEILING);
            && (ok <==> exists p :: p in s.frags && Evictable(s.frags[p]))
            && (ok ==> exists v :: IsVictim(s, v) && Evictable(s.frags[v]) && s' == Evicted(s, v))
            && (!ok ==> s' == Sweep(s, s.nrFrag * REFCEILING))
  {
    hide Key, Sweep, Evicted, EvictLoop, Dist, Shape, Tables;
    SweepStart(s);
    assert NoneBefore(s, 0);
    LoopFrom(s, 0, s.nrFrag * REFCEILING);
    forall p | p in s.frags ensures Key(s, p) < s.nrFrag * REFCEILING <==> s.frags[p].nrRef < REFCEILING {
      KeyBound(s, p);
    }
  }

  /** The victim has the fewest references, and is the nearest ahead of the arm among those; it is the only such
      fragment. */
  lemma VictimIsLeast(s: Sce, v: nat, p: nat)
    requires Good(s) && IsVictim(s, v) && p in s.frags && Idle(s.frags[p])
    ensures s.frags[v].nrRef < s.frags[p].nrRef || (s.frags[v].nrRef == s.frags[p].nrRef && Dist(s, v) <= Dist(s, p))
    ensures IsVictim(s, p) ==> p == v
  {
    hide Shape, Tables, Dist;
    DistBound(s, v);
    DistBound(s, p);
    var n := s.nrFrag;
    KeyArithmetic(n, s.frags[p].nrRef, Dist(s, p), s.frags[v].nrRef, Dist(s, v));
    if IsVictim(s, p) {
      DistInjective(s, v, p);
    }
  }

  /** What an eviction leaves: the victim on top of the free list, its entry holding its miss count, every other idle
      fragment short of exactly as many references as the arm passed it, all else as before. */
  lemma EvictedFacts(s: Sce, v: nat)
    requires Core(s) && Good(s) && IsVictim(s, v)
    ensures var s' := Evicted(s, v);
            var (l, f) := (s.frags[v].lunidx, s.frags[v].fragnum);
            && MappedTo(s, l, f, v) && s'.free == [v] + s.free &&
                s'.luns == SetDesc(s, l, f, Heat(s.frags[v].nrMiss)).luns
            && s'.frags.Keys == s.frags.Keys && s'.frags[v].fragnum == WITHINFREELIST
            && (forall p :: p in s.frags && p != v && Idle(s.frags[p]) ==>
                  && Visits(s, p, Key(s, v) + 1) <= s.frags[p].nrRef
                  && s'.frags[p] == s.frags[p].(nrRef := s.frags[p].nrRef - Visits(s, p, Key(s, v) + 1)))
            && (forall p :: p in s.frags && !Idle(s.frags[p]) ==> s'.frags[p] == s.frags[p])
            && s'.arm == Turn(s, Key(s, v) + 1).arm
  {
    hide Shape, Tables, Links, FreeOk, FragsOk, Services, Distinct, Visits, At, Turn, Dist, Key, Unmap;
    IdleMapped(s, v);
    SweepUnmap(s, v, Key(s, v) + 1);
    forall p | p in s.frags && p != v && Idle(s.frags[p]) ensures Visits(s, p, Key(s, v) + 1) <= s.frags[p].nrRef {
      VisitsAfter(s, v, p);
    }
  }

  lemma SweepUnmap(s: Sce, v: nat, t: nat)
    requires v in s.frags && Idle(s.frags[v]) && MappedTo(s, s.frags[v].lunidx, s.frags[v].fragnum, v)
    ensures var (l, f) := (s.frags[v].lunidx, s.frags[v].fragnum);
            var s' := Unmap(Sweep(s, t), l, f);
            && s'.free == [v] + s.free && s'.luns == SetDesc(s, l, f, Heat(s.frags[v].nrMiss)).luns &&
                s'.arm == Turn(s, t).arm
            && s'.frags.Keys == s.frags.Keys && s'.frags[v].fragnum == WITHINFREELIST
            && forall p :: p in s.frags && p != v ==> s'.frags[p] == Aged(s.frags[p], Visits(s, p, t))
  {
    hide Turn, Visits;
    var u := Sweep(s, t);
    assert MappedTo(u, s.frags[v].lunidx, s.frags[v].fragnum, v);
    UnmapIs(u, s.frags[v].lunidx, s.frags[v].fragnum, v);
    assert u.frags.Keys == s.frags.Keys;
  }

  lemma VisitsAfter(s: Sce, v: nat, p: nat)
    requires Good(s) && IsVictim(s, v) && p in s.frags && p != v && Idle(s.frags[p])
    ensures Visits(s, p, Key(s, v) + 1) <= s.frags[p].nrRef
  {
    hide Shape, Tables, At, Dist, Turn, Key;
    KeyTurn(s, v, Key(s, v));
    KeyTurn(s, p, Key(s, v));
    assert At(s, Key(s, v)) != Some(p);
  }

  /** If idle fragments exist and the call fails, they all had four references and have none left: the next call
      succeeds. */
  lemma EvictProgress(s: Sce, p: nat)
    requires Boundary(s) && Dense(s) && p in s.frags && Idle(s.frags[p])
    ensures var (s1, ok) := Evict(s);
            !ok ==> Evict(s1).1
                    && forall q :: q in s.frags && Idle(s.frags[q]) ==>
                         s.frags[q].nrRef == 4 && q in s1.frags && s1.frags[q] == s.frags[q].(nrRef := 0)
  {
    hide Shape, Tables, Distinct, Links, FreeOk, FragsOk, Services, Deferred, NoDead, Visits, Turn, Evict;
    var (s1, ok) := Evict(s);
    EvictExact(s);
    if !ok {
      SomeMapped(s, p);
      var t := s.nrFrag * REFCEILING;
      forall q | q in s.frags && Idle(s.frags[q])
          ensures s.frags[q].nrRef == 4 && s1.frags[q] == s.frags[q].(nrRef := 0) {
        RefAt(s, q);
        VisitedFour(s, q);
      }
      EvictKeeps(s);
      DenseKept(s, s1);
      assert Evictable(s1.frags[p]);
      EvictExact(s1);
    }
  }

  lemma RefAt(s: Sce, p: nat)
    requires Core(s) && p in s.frags && Idle(s.frags[p])
    ensures s.frags[p].nrRef <= REFCEILING
  {
    IdleMapped(s, p);
  }

  lemma VisitedFour(s: Sce, p: nat)
    requires Good(s) && p in s.frags
    ensures Visits(s, p, s.nrFrag * REFCEILING) == REFCEILING
  {
    hide Shape, Tables, Visits, Dist, Rounds, Phase, At;
    VisitsClosed(s, p, s.nrFrag * REFCEILING);
    DivUnique(s.nrFrag * REFCEILING, s.nrFrag, REFCEILING, 0);
  }

  lemma DenseKept(s: Sce, s': Sce)
    requires Dense(s) && SameTables(s, s')
    ensures Dense(s')
  {
  }

  /** Progress needs dense slots: a call that finds the arm at an empty slot evicts nobody, whatever is idle. */
  lemma EvictAtHole(s: Sce)
    requires 0 < s.nrCdev <= |s.cdevs| && s.cdevs[ArmDev(s.arm, s.nrCdev)].nrFrag == 0
    ensures var (s', ok) := Evict(s); !ok && s' == s.(arm := s'.arm)
  {
    hide Arm, Off;
    assert Advance(s).1.None?;
  }

  /** The state after `k` calls. */
  function EvictTimes(s: Sce, k: nat): Sce {
    if k == 0 then s else Evict(EvictTimes(s, k - 1)).0
  }

  /** With one device left, in a slot that is not the first, no call ever evicts anything again. */
  lemma {:induction false} EvictNever(s: Sce, k: nat)
    requires s.nrCdev == 1 && |s.cdevs| > 0 && s.cdevs[0].nrFrag == 0
    ensures EvictTimes(s, k) == s.(arm := EvictTimes(s, k).arm) && !Evict(EvictTimes(s, k)).1
  {
    hide Evict;
    if k > 0 {
      EvictNever(s, k - 1);
      EvictAtHole(EvictTimes(s, k - 1));
    }
    EvictAtHole(EvictTimes(s, k));
  }
}
