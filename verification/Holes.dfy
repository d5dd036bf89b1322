// Eviction with a hole in the device slots: what one call does on any state, and when calls ever succeed.

module Holes {
  import opened Arithmetic
  import opened Words
  import opened SceState
  import opened Invariants
  import opened Preservation
  import opened Requests
  import opened Clock
  import opened Eviction
  import opened Population
  import opened Configuration

  // ----- one call on any state

  /** Call number `t` of the arm meets an idle fragment that has been visited as often as it has references. */
  predicate Due(s: Sce, t: nat) {
    var at := At(s, t);
    at.Some? && at.value in s.frags && Idle(s.frags[at.value]) && s.frags[at.value].nrRef <= Visits(s, at.value, t)
  }

  /** The first `t` calls of the arm return fragments, none of them due. */
  ghost predicate Quiet(s: Sce, t: nat) {
    forall j: nat :: j < t ==> At(s, j).Some? && !Due(s, j)
  }

  lemma {:induction false} TurnArm(s: Sce, t: nat)
    ensures Turn(s, t) == s.(arm := Turn(s, t).arm)
  {
    if t > 0 {
      TurnArm(s, t - 1);
    }
  }

  lemma AtKnown(s: Sce, t: nat)
    requires Shape(s) && Tables(s)
    ensures At(s, t).Some? ==> At(s, t).value in s.frags && Dev(At(s, t).value) < s.nrCdev
  {
    hide Shape, Tables, Advance, Dev;
    TurnArm(s, t);
    TurnTables(s, Turn(s, t).arm);
    AdvanceKnown(Turn(s, t), Turn(s, t));
  }

  lemma {:induction false} QuietRefs(s: Sce, t: nat, p: nat)
    requires Quiet(s, t) && p in s.frags && Idle(s.frags[p])
    ensures Visits(s, p, t) <= s.frags[p].nrRef
  {
    hide At;
    if t > 0 {
      QuietRefs(s, t - 1, p);
      assert !Due(s, t - 1);
    }
  }

  /** The arm moves on a swept state as on the original one. */
  lemma AdvanceSwept(s: Sce, t: nat)
    ensures Advance(Sweep(s, t)) == (Sweep(s, t).(arm := Turn(s, t + 1).arm), At(s, t))
  {
    hide Visits, Aged, ArmDev, ArmOff, Arm, Pfid;
    TurnArm(s, t);
  }

  /** The state after the fragment under the arm at call `t` was evicted. */
  function EvictedAt(s: Sce, t: nat): Sce
    requires At(s, t).Some? && At(s, t).value in s.frags
  {
    Unmap(Sweep(s, t + 1), s.frags[At(s, t).value].lunidx, s.frags[At(s, t).value].fragnum)
  }

  /** What the loop did when it ended: it evicted at call `t`, ran into an empty slot at call `t`, or used up `n`
      calls. */
  datatype Outcome = Took(t: nat) | Stuck(t: nat) | Spent(n: nat)

  ghost predicate Explains(s: Sce, n: nat, o: Outcome, s': Sce, ok: bool) {
    match o
    case Took(t) => ok && t < n && Quiet(s, t) && Due(s, t) && s' == EvictedAt(s, t)
    case Stuck(t) => !ok && t < n && Quiet(s, t) && At(s, t).None? && s' == Sweep(s, t + 1)
    case Spent(m) => !ok && m == n && Quiet(s, n) && s' == Sweep(s, n)
  }

  /** One iteration. */
  lemma IterationAt(s: Sce, t: nat, i: nat)
    requires Shape(s) && Tables(s) && Quiet(s, t) && i > 0
    ensures At(s, t).None? ==> EvictLoop(Sweep(s, t), i) == (Sweep(s, t + 1), false)
    ensures At(s, t).Some? ==> At(s, t).value in s.frags
    ensures Due(s, t) ==> EvictLoop(Sweep(s, t), i) == (EvictedAt(s, t), true)
    ensures At(s, t).Some? && !Due(s, t) ==> EvictLoop(Sweep(s, t), i) == EvictLoop(Sweep(s, t + 1), i - 1)
  {
    hide Shape, Tables, At, Turn, Advance, Unmap, Dev, Quiet;
    AdvanceSwept(s, t);
    AtKnown(s, t);
    if At(s, t).None? {
      assert Sweep(s, t + 1).frags == Sweep(s, t).frags;
    } else {
      var p := At(s, t).value;
      SweepFrags(s, t, p);
      if Idle(s.frags[p]) {
        QuietRefs(s, t, p);
        SweepIdle(s, t, p);
        if Due(s, t) {
          assert Sweep(s, t + 1).frags == Sweep(s, t).frags;
        }
      } else {
        assert Sweep(s, t).frags[p] == s.frags[p];
        assert Sweep(s, t + 1).frags == Sweep(s, t).frags;
      }
    }
  }

  lemma SweepIdle(s: Sce, t: nat, p: nat)
    requires p in s.frags && Idle(s.frags[p]) && Visits(s, p, t) <= s.frags[p].nrRef
    ensures var fr := Sweep(s, t).frags[p];
            && p in Sweep(s, t).frags && Idle(fr) && fr.nrRef == s.frags[p].nrRef - Visits(s, p, t)
            && fr.lunidx == s.frags[p].lunidx && fr.fragnum == s.frags[p].fragnum
            && Aged(s.frags[p], Visits(s, p, t) + 1) == if fr.nrRef > 0 then fr.(nrRef := fr.nrRef - 1) else fr
  {
    hide Visits, Turn;
  }

  lemma {:induction false} LoopExplained(s: Sce, t: nat, i: nat) returns (o: Outcome)
    requires Shape(s) && Tables(s) && Quiet(s, t)
    ensures var (s', ok) := EvictLoop(Sweep(s, t), i); Explains(s, t + i, o, s', ok)
    decreases i
  {
    hide Shape, Tables, At, Due, Sweep, EvictedAt;
    if i == 0 {
      o := Spent(t);
      assert EvictLoop(Sweep(s, t), 0) == (Sweep(s, t), false);
    } else {
      IterationAt(s, t, i);
      if At(s, t).None? {
        o := Stuck(t);
      } else if Due(s, t) {
        o := Took(t);
      } else {
        o := LoopExplained(s, t + 1, i - 1);
      }
    }
  }

  /** _evict_frag on any state, with holes or without: the arm goes from fragment to fragment, idle ones lose a
      reference per visit, and the call ends at the first idle fragment visited more often than it has references
      (evicted), at the first empty slot (failed), or after four times nr_frag calls (failed). */
  lemma EvictExplained(s: Sce) returns (o: Outcome)
    requires Boundary(s)
    ensures var (s', ok) := Evict(s);
            if |s.free| < s.nrFrag then Explains(s, s.nrFrag * REFCEILING, o, s', ok) else s' == s && !ok
  {
    hide Boundary, Shape, Tables, EvictLoop, Sweep, Explains;
    BoundaryTables(s);
    SweepStart(s);
    o := LoopExplained(s, 0, s.nrFrag * REFCEILING);
  }

  /** The explanation is unique. */
  lemma OneOutcome(s: Sce, n: nat, o: Outcome, s1: Sce, ok1: bool, u: Outcome, s2: Sce, ok2: bool)
    requires Explains(s, n, o, s1, ok1) && Explains(s, n, u, s2, ok2)
    ensures o == u && s1 == s2 && ok1 == ok2
  {
    hide At, Sweep, EvictedAt;
  }

  // ----- progress

  /** How many times the arm has to change device before it can return fragment `x` of device `d`; it stands on device
      `dev`, at offset `a`. */
  function Gap(nrCdev: nat, dev: nat, a: nat, d: nat, x: nat): int {
    if dev == d then (if a <= x then 0 else nrCdev) else if dev < d then d - dev else d + nrCdev - dev
  }

  /** The offset on a device of `n` fragments that the arm's offset field `o` stands for. */
  function Offset(o: nat, n: nat): nat { if n == 0 then 0 else Phase(o, n) }

  /** A bound on the arm calls until an eviction, for a fragment `x` of device `d` with `r` references. An arm that
      stands at an empty slot with an offset left over costs one more round, because it may enter the next device in
      the middle. */
  function Bound(r: nat, nrCdev: nat, dev: nat, o: nat, n: nat, d: nat, x: nat): int {
    ((2 * r + if n == 0 && o > 0 then 1 else 0) * 18 + Gap(nrCdev, dev, Offset(o, n), d, x)) * 0x100_0001 + n -
        Offset(o, n)
  }

  function Left(s: Sce, p: nat): int
    requires p in s.frags && 0 < s.nrCdev <= |s.cdevs|
  {
    var dev := ArmDev(s.arm, s.nrCdev);
    Bound(s.frags[p].nrRef, s.nrCdev, dev, Off(s.arm), s.cdevs[dev].nrFrag, Dev(p), Off(p))
  }

  lemma LeftNat(s: Sce, p: nat)
    requires p in s.frags && 0 < s.nrCdev <= |s.cdevs|
    ensures Left(s, p) >= 0
  {
  }

  /** The arm moves on the same device, or to the next one. */
  lemma SameDevice(r: nat, nrCdev: nat, dev: nat, o: nat, n: nat, d: nat, x: nat)
    requires Offset(o, n) + 1 < n && !(dev == d && Offset(o, n) == x)
    ensures Bound(r, nrCdev, dev, Offset(o, n) + 1, n, d, x) < Bound(r, nrCdev, dev, o, n, d, x)
  {
    hide Phase;
    Within(Offset(o, n) + 1, n);
  }

  lemma OtherDevice(r: nat, nrCdev: nat, dev: nat, o: nat, n: nat, d: nat, x: nat, m: nat)
    requires dev < nrCdev <= 16 && d < nrCdev && n > 0 && Offset(o, n) + 1 == n && !(dev == d && Offset(o, n) == x) &&
        (dev == d ==> x < n)
    requires m <= 0x100_0000
    ensures Bound(r, nrCdev, if dev + 1 < nrCdev then dev + 1 else 0, 0, m, d, x) < Bound(r, nrCdev, dev, o, n, d, x)
  {
    hide Phase;
    if m > 0 {
      Within(0, m);
    }
  }

  lemma OverHole(r: nat, nrCdev: nat, dev: nat, o: nat, d: nat, x: nat, m: nat)
    requires dev < nrCdev <= 16 && d < nrCdev && dev != d && m <= 0x100_0000
    ensures Bound(r, nrCdev, if dev + 1 < nrCdev then dev + 1 else 0, o, m, d, x) < Bound(r, nrCdev, dev, o, 0, d, x)
  {
    hide Phase;
    if o == 0 && m > 0 {
      Within(0, m);
    }
  }

  /** A visit that takes a reference, whatever the arm does next. */
  lemma Visited(r: nat, nrCdev: nat, dev: nat, o: nat, n: nat, dev': nat, o': nat, m: nat, d: nat, x: nat)
    requires r > 0 && dev < nrCdev <= 16 && n > 0 && (m > 0 || o' == 0) && m <= 0x100_0000 && dev' < nrCdev &&
        d < nrCdev && Offset(o, n) < n
    ensures Bound(r - 1, nrCdev, dev', o', m, d, x) < Bound(r, nrCdev, dev, o, n, d, x)
  {
    hide Phase;
  }

  lemma ArmMoved(dev: nat, o: nat, nrCdev: nat)
    requires dev <= nrCdev <= DEVSPACE && nrCdev > 0 && o < OFFSPACE
    ensures ArmDev(Arm(dev, o), nrCdev) == if dev < nrCdev then dev else 0
    ensures Off(Arm(dev, o)) == o
  {
    hide Pfid, Dev, Off, Phase, Arm, ArmDev;
    ArmParts(dev, o, nrCdev, o + 1);
    ArmFields(dev, o);
  }

  lemma Where(s: Sce, p: nat)
    requires Shape(s) && Tables(s) && p in s.frags
    ensures Dev(p) < |s.cdevs| && Off(p) < s.cdevs[Dev(p)].nrFrag && s.nrCdev <= DEVSPACE == |s.cdevs|
    ensures forall d :: 0 <= d < |s.cdevs| ==> s.cdevs[d].nrFrag <= OFFSPACE
  {
    hide Dev, Off;
    assert InDevice(s.cdevs, p);
    CountFits(s);
    forall d | 0 <= d < |s.cdevs| ensures s.cdevs[d].nrFrag <= OFFSPACE {
      assert CdevOk(s.cdevs[d]);
    }
  }

  lemma PfidSame(dev: nat, off: nat, p: nat)
    requires dev < DEVSPACE && off < OFFSPACE
    ensures Pfid(dev, off) == p ==> Dev(p) == dev && Off(p) == off
    ensures Dev(p) == dev && Off(p) == off ==> Pfid(dev, off) == p
  {
  }

  /** Every arm call brings the arm closer to `p`, or visits it. */
  lemma StepCloser(s: Sce, p: nat)
    requires Shape(s) && Tables(s) && s.nrCdev > 0 && p in s.frags && Dev(p) < s.nrCdev
    ensures s.nrCdev <= |s.cdevs|
    ensures var (s1, at) := Advance(s);
            && s1 == s.(arm := s1.arm)
            && (at != Some(p) ==> Left(s1, p) < Left(s, p))
            && (at == Some(p) && s.frags[p].nrRef > 0 ==>
                  Left(SetFrag(s1, p, s.frags[p].(nrRef := s.frags[p].nrRef - 1)), p) < Left(s, p))
  {
    hide Shape, Tables, Dev, Off, Pfid, Arm, ArmDev, Phase, Bound;
    Where(s, p);
    var dev, o := ArmDev(s.arm, s.nrCdev), Off(s.arm);
    OffBound(s.arm);
    var n, next := s.cdevs[dev].nrFrag, if dev + 1 < s.nrCdev then dev + 1 else 0;
    var r, d, x, m := s.frags[p].nrRef, Dev(p), Off(p), s.cdevs[next].nrFrag;
    if n == 0 {
      ArmMoved(dev + 1, o, s.nrCdev);
      OverHole(r, s.nrCdev, dev, o, d, x, m);
    } else {
      var off := Offset(o, n);
      PfidSame(dev, off, p);
      if off + 1 >= n {
        ArmMoved(dev + 1, 0, s.nrCdev);
        if dev == d && off == x {
          if r > 0 {
            Visited(r, s.nrCdev, dev, o, n, next, 0, m, d, x);
          }
        } else {
          OtherDevice(r, s.nrCdev, dev, o, n, d, x, m);
        }
      } else {
        ArmMoved(dev, off + 1, s.nrCdev);
        if dev == d && off == x {
          if r > 0 {
            Visited(r, s.nrCdev, dev, o, n, dev, off + 1, n, d, x);
          }
        } else {
          SameDevice(r, s.nrCdev, dev, o, n, d, x);
        }
      }
    }
  }

  lemma OffBound(p: nat)
    ensures Off(p) < OFFSPACE
  {
  }

  // ----- runs of calls

  /** What a failed call leaves of the things progress depends on. */
  ghost predicate Waits(s: Sce, s': Sce, p: nat) {
    && s'.cdevs == s.cdevs && s'.nrCdev == s.nrCdev && s'.nrFrag == s.nrFrag && s'.free == s.free &&
        s'.frags.Keys == s.frags.Keys
    && p in s.frags && s'.frags[p] == s.frags[p].(nrRef := s'.frags[p].nrRef)
  }

  lemma TablesSame(s: Sce, s': Sce)
    requires Shape(s) && Tables(s) && s'.cdevs == s.cdevs && s'.nrCdev == s.nrCdev && s'.nrFrag == s.nrFrag
    requires s'.luns == s.luns && s'.nrLun == s.nrLun && s'.frags.Keys == s.frags.Keys
    ensures Shape(s') && Tables(s')
  {
    assert |s'.frags| == |s'.frags.Keys| && |s.frags| == |s.frags.Keys|;
  }

  /** A loop with an idle fragment in reach evicts something or brings that fragment's turn closer. */
  lemma {:induction false} LoopCloser(s: Sce, i: nat, p: nat)
    requires Shape(s) && Tables(s) && 0 < s.nrCdev <= |s.cdevs| && p in s.frags && Dev(p) < s.nrCdev &&
        Idle(s.frags[p]) && i > 0
    ensures var (s', ok) := EvictLoop(s, i);
            ok || (Waits(s, s', p) && Left(s', p) < Left(s, p))
    decreases i
  {
    hide Shape, Tables, Advance, Unmap, Left, Dev;
    StepCloser(s, p);
    AdvanceKnown(s, s);
    var (s1, at) := Advance(s);
    if at.Some? {
      var q := at.value;
      var fr := s.frags[q];
      var s2 := if Idle(fr) && fr.nrRef > 0 then SetFrag(s1, q, fr.(nrRef := fr.nrRef - 1)) else s1;
      if !(Idle(fr) && fr.nrRef == 0) {
        TablesSame(s, s2);
        if q != p {
          LeftSame(s1, s2, p);
        }
        if i > 1 {
          LoopCloser(s2, i - 1, p);
        } else {
          assert EvictLoop(s2, 0) == (s2, false);
        }
      }
    }
  }

  lemma LeftSame(s: Sce, s': Sce, p: nat)
    requires p in s.frags && p in s'.frags && s'.frags[p].nrRef == s.frags[p].nrRef
    requires s'.cdevs == s.cdevs && s'.nrCdev == s.nrCdev && s'.arm == s.arm && 0 < s.nrCdev <= |s.cdevs|
    ensures Left(s', p) == Left(s, p)
  {
  }

  lemma {:induction false} TimesShift(s: Sce, k: nat)
    ensures EvictTimes(s, k + 1) == EvictTimes(Evict(s).0, k)
  {
    hide Evict;
    if k > 0 {
      TimesShift(s, k - 1);
    } else {
      assert EvictTimes(s, 1) == Evict(EvictTimes(s, 0)).0;
    }
  }

  /** An idle fragment on one of the first nr_cdev slots: some later call succeeds. */
  lemma {:induction false} SomeCall(s: Sce, p: nat) returns (k: nat)
    requires Boundary(s) && s.nrCdev > 0 && p in s.frags && Idle(s.frags[p]) && Dev(p) < s.nrCdev
    ensures Evict(EvictTimes(s, k)).1
    ensures s.nrCdev <= |s.cdevs|
    decreases Reach(s, p)
  {
    hide Boundary, Evict, Left, Dev, Shape, Tables, Reach;
    BoundaryTables(s);
    Where(s, p);
    if Evict(s).1 {
      k := 0;
      assert EvictTimes(s, 0) == s;
    } else {
      var s1 := Evict(s).0;
      FailedCloser(s, p);
      EvictBoundary(s);
      k := SomeCall(s1, p);
      TimesShift(s, k);
      k := k + 1;
    }
  }

  function Reach(s: Sce, p: nat): nat {
    if p in s.frags && 0 < s.nrCdev <= |s.cdevs| && Left(s, p) >= 0 then Left(s, p) else 0
  }

  lemma EvictBoundary(s: Sce)
    requires Boundary(s)
    ensures Boundary(Evict(s).0)
  {
    hide Boundary, Evict, Shrinks, SameTables;
    EvictKeeps(s);
  }

  lemma FailedCloser(s: Sce, p: nat)
    requires Boundary(s) && s.nrCdev > 0 && p in s.frags && Idle(s.frags[p]) && Dev(p) < s.nrCdev && !Evict(s).1
    ensures var s1 := Evict(s).0; Waits(s, s1, p) && Idle(s1.frags[p]) && Reach(s1, p) < Reach(s, p)
  {
    hide Core, Deferred, NoDead, Shape, Tables, EvictLoop, Left, Dev;
    BoundaryTables(s);
    Where(s, p);
    SomeMapped(s, p);
    LoopCloser(s, s.nrFrag * REFCEILING, p);
    LeftNat(s, p);
    LeftNat(Evict(s).0, p);
  }

  /** With no idle fragment in reach a call changes nothing but the arm. */
  lemma {:induction false} LoopIdle(s: Sce, i: nat)
    requires Shape(s) && Tables(s) && forall p :: p in s.frags && Idle(s.frags[p]) ==> Dev(p) >= s.nrCdev
    ensures var (s', ok) := EvictLoop(s, i); !ok && s' == s.(arm := s'.arm)
    decreases i
  {
    hide Shape, Tables, Advance, Unmap, Dev;
    if i > 0 {
      AdvanceKnown(s, s);
      var (s1, at) := Advance(s);
      if at.Some? {
        TablesSame(s, s1);
        LoopIdle(s1, i - 1);
      }
    }
  }

  lemma {:induction false} NoCall(s: Sce, k: nat)
    requires Shape(s) && Tables(s) && forall p :: p in s.frags && Idle(s.frags[p]) ==> Dev(p) >= s.nrCdev
    ensures EvictTimes(s, k) == s.(arm := EvictTimes(s, k).arm) && !Evict(EvictTimes(s, k)).1
  {
    hide Shape, Tables, EvictLoop, Dev;
    if k > 0 {
      NoCall(s, k - 1);
      var s1 := EvictTimes(s, k - 1);
      TablesSame(s, s1);
      LoopIdle(s1, s1.nrFrag * REFCEILING);
    }
    var t := EvictTimes(s, k);
    TablesSame(s, t);
    LoopIdle(t, t.nrFrag * REFCEILING);
  }

  /** Evictions come to a stop exactly if no idle fragment sits on one of the first nr_cdev slots, however many of
      them are empty and wherever the arm stands. */
  lemma EvictsIff(s: Sce)
    requires Boundary(s) && s.nrCdev > 0
    ensures (exists k: nat :: Evict(EvictTimes(s, k)).1) <==>
        exists p :: p in s.frags && Idle(s.frags[p]) && Dev(p) < s.nrCdev
  {
    hide Boundary, Evict, EvictTimes, Shape, Tables, Dev;
    BoundaryTables(s);
    if p :| p in s.frags && Idle(s.frags[p]) && Dev(p) < s.nrCdev {
      var k := SomeCall(s, p);
    } else {
      forall k: nat ensures !Evict(EvictTimes(s, k)).1 {
        NoCall(s, k);
      }
    }
  }

  /** With a fragment to evict, one call succeeds from every arm value exactly if the slots are dense. */
  lemma EveryArmIffDense(s: Sce, p: nat)
    requires Boundary(s) && s.nrCdev > 0 && p in s.frags && Evictable(s.frags[p])
    ensures Dense(s) <==> forall a: nat :: Evict(s.(arm := a)).1
  {
    hide Core, Deferred, NoDead, Shape, Evict, Arm, Tables;
    BoundaryTables(s);
    Where(s, p);
    if Dense(s) {
      forall a: nat ensures Evict(s.(arm := a)).1 {
        ArmBoundary(s, a);
        hide Boundary;
        EvictExact(s.(arm := a));
      }
    } else {
      var d: nat :| d < s.nrCdev && !s.cdevs[d].present;
      AbsentSlot(s, d);
      ArmMoved(d, 0, s.nrCdev);
      EvictAtHole(s.(arm := Arm(d, 0)));
    }
  }

  lemma ArmBoundary(s: Sce, a: nat)
    requires Boundary(s)
    ensures Boundary(s.(arm := a))
  {
    ShrinksSelf(s);
    CountersKeep(s, s, s.(arm := a));
  }

  lemma AbsentSlot(s: Sce, d: nat)
    requires Shape(s) && d < |s.cdevs| && !s.cdevs[d].present
    ensures s.cdevs[d].nrFrag == 0
  {
    assert CdevOk(s.cdevs[d]);
  }

  // ----- a hole that stops eviction

  lemma EmptyEngine()
    ensures var s := Create(); FindCdev(s.cdevs, 0) == 0 && !CtxUsed(s, 1) && s.nrCdev == 0 && s.nrLun == 0
    ensures |Create().luns| == MAXLUN && forall l :: 0 <= l < MAXLUN ==> Create().luns[l] == EMPTYLUN
  {
  }

  lemma SecondSlot(s: Sce)
    requires s.cdevs == Create().cdevs[0 := Cdev(true, 1, 1)]
    ensures FindCdev(s.cdevs, 0) == 1 && !CtxUsed(s, 2)
  {
    assert FindCdev(s.cdevs, 1) == 1;
  }

  lemma FirstLun(s: Sce)
    requires s.luns == Create().luns
    ensures NewLunOk(s, 2048, 1) && FindLun(s.luns, 0) == 0
    ensures AddLun(s, 2048, 1) == (s.(luns := s.luns[0 := Lun(true, 1, 2048, [FRESH], 0, false)],
        nrLun := s.nrLun + 1), Some(0))
  {
    assert seq(1, _ => FRESH) == [FRESH];
  }

  lemma OnlyEntry(s: Sce, p: nat, d: nat)
    requires |s.luns| > 0 && |s.luns[0].fragmap| == 1 && s.luns[0].fragmap[0].data == p && Dev(p) != d
    requires forall l :: 0 < l < |s.luns| ==> s.luns[l].fragmap == []
    ensures DeviceIdle(s, d)
  {
    hide Dev;
  }

  /** A small device in the first empty slot. */
  lemma OneFragmentDevice(s: Sce, d: nat, ctx: nat)
    requires Boundary(s) && s.nrCdev < MAXCDEV && !CtxUsed(s, ctx) && FindCdev(s.cdevs, 0) == d
    ensures var (s', got) := AddCdev(s, 2048, ctx);
            && Boundary(s') && got == Some(d) && d < |s.cdevs| == |s'.cdevs| && s'.nrCdev == s.nrCdev + 1 &&
                s'.luns == s.luns
            && s'.nrLun == s.nrLun && s'.free == [Pfid(d, 0)] + s.free && s'.cdevs == s.cdevs[d := Cdev(true, ctx, 1)]
            && Pfid(d, 0) in s'.frags
  {
    hide Boundary, Pfid, Shrinks, Plug;
    AddCdevKeeps(s, 2048, ctx);
    BoundaryTables(s);
    hide Shape, Tables;
    PlugFields(s, d, 1, ctx);
    assert DevicePfids(d, 1) == [Pfid(d, 0)];
    assert AddCdev(s, 2048, ctx).0.free[0] in AddCdev(s, 2048, ctx).0.free;
    ListedExists(AddCdev(s, 2048, ctx).0, Pfid(d, 0));
  }

  lemma ListedExists(s: Sce, p: nat)
    requires Boundary(s) && p in s.free
    ensures p in s.frags
  {
  }

  /** LUN 0 has one fragment, served by `p`, and is in service `n` times. */
  predicate Single(s: Sce, p: nat, valid: bool, n: nat) {
    && |s.luns| > 0 && s.luns[0].present && s.luns[0].ctx == 1 && |s.luns[0].fragmap| == 1 && MappedTo(s, 0, 0, p) &&
        s.luns[0].fragmap[0].valid == valid
    && s.luns[0].nrService == n && !s.luns[0].waiting
    && p in s.frags && s.frags[p] == Frag(0, 0, {}, PAGEPERFRAG, n, 0, 0, 0)
  }

  predicate OtherLunsSame(s: Sce, t: Sce) { |t.luns| == |s.luns| && forall l :: 0 < l < |s.luns| ==>
      t.luns[l] == s.luns[l] }

  /** A population of a LUN of one fragment, begun. */
  lemma BeginOne(s: Sce, p: nat)
    requires Boundary(s) && s.free != [] && s.free[0] == p && 0 < |s.luns| &&
        s.luns[0] == Lun(true, 1, 2048, [FRESH], 0, false)
    ensures var t := Alloc(s, 0, 0).0;
            Boundary(t) && t.cdevs == s.cdevs && t.nrCdev == s.nrCdev && OtherLunsSame(s, t) && Single(t, p, false, 1)
  {
    hide Boundary, Shrinks, SameTables;
    AllocKeeps(s, 0, 0);
    assert PageRange(PAGEPERFRAG, 0) == {};
  }

  /** And completed. */
  lemma CompleteOne(s: Sce, p: nat)
    requires Boundary(s) && Single(s, p, false, 1)
    ensures var t := Complete(s, 0, 0).0;
            Boundary(t) && t.cdevs == s.cdevs && t.nrCdev == s.nrCdev && OtherLunsSame(s, t) && Single(t, p, true, 0)
  {
    hide Boundary, Shrinks, Pins, Purged, Core, Complete, Ready;
    CompleteKeeps(s, 0, 0, p);
    CompleteFields(s, p);
  }

  lemma CompleteFields(s: Sce, p: nat)
    requires Single(s, p, false, 1)
    ensures var t := Complete(s, 0, 0).0;
            t.cdevs == s.cdevs && t.nrCdev == s.nrCdev && OtherLunsSame(s, t) && Single(t, p, true, 0)
  {
    hide Unmap, Purge;
  }

  /** Two devices, a fragment of the second populated, the first removed while it is idle: the engine is sound and the
      fragment is idle and without references, yet no call evicts it, now or later. */
  lemma HoleStops(k: nat)
    ensures var s1 := AddCdev(AddCdev(Create(), 2048, 1).0, 2048, 2).0;
            var s2 := Alloc(AddLun(s1, 2048, 1).0, 0, 0).0;
            var s := RmCdev(Complete(s2, 0, 0).0, 0).0;
            && Boundary(s) && s.nrCdev == 1 && Pfid(1, 0) in s.frags && Evictable(s.frags[Pfid(1, 0)])
            && !Evict(EvictTimes(s, k)).1
  {
    hide Boundary, AddCdev, AddLun, Alloc, Complete, RmCdev, Evict, EvictTimes, Pfid, Dev, DeviceIdle, Shrinks,
        CtxUsed, NewLunOk;
    CreateOk();
    EmptyEngine();
    var s0 := AddCdev(Create(), 2048, 1).0;
    OneFragmentDevice(Create(), 0, 1);
    SecondSlot(s0);
    OneFragmentDevice(s0, 1, 2);
    var s1 := AddCdev(s0, 2048, 2).0;
    FirstLun(s1);
    AddLunKeeps(s1, 2048, 1);
    var s2 := AddLun(s1, 2048, 1).0;
    var p := Pfid(1, 0);
    BeginOne(s2, p);
    CompleteOne(Alloc(s2, 0, 0).0, p);
    var s3 := Complete(Alloc(s2, 0, 0).0, 0, 0).0;
    PfidParts(1, 0);
    OnlyEntry(s3, p, 0);
    RmCdevKeeps(s3, 0);
    var s := RmCdev(s3, 0).0;
    assert s.frags[p] == s3.frags[p];
    BoundaryTables(s);
    EvictNever(s, k);
  }
}
