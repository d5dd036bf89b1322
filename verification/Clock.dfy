// The clock arm is a rotation over all fragments if and only if the device slots in use are the first ones.

module Clock {
  import opened Arithmetic
  import opened Words
  import opened SceState
  import opened Invariants

  // ----- positions

  /** How many fragments the devices before `d` have. */
  function Base(cdevs: seq<Cdev>, d: nat): nat
    requires d <= |cdevs|
  {
    if d == 0 then 0 else Base(cdevs, d - 1) + cdevs[d - 1].nrFrag
  }

  /** The device slots in use are the first ones. */
  predicate Dense(s: Sce) {
    0 < s.nrCdev <= |s.cdevs| && forall d :: 0 <= d < s.nrCdev ==> s.cdevs[d].present
  }

  function Linear(cdevs: seq<Cdev>, p: nat): nat
    requires Dev(p) <= |cdevs|
  {
    Base(cdevs, Dev(p)) + Off(p)
  }

  lemma {:induction false} BaseMonotone(cdevs: seq<Cdev>, d: nat, e: nat)
    requires d <= e <= |cdevs|
    ensures Base(cdevs, d) <= Base(cdevs, e)
  {
    if d < e {
      BaseMonotone(cdevs, d, e - 1);
    }
  }

  /** The fragments on the devices before `d`. */
  function Before(s: Sce, d: nat): set<nat> { set p | p in s.frags && Dev(p) < d }

  /** Device `d` contributes as many fragments as it has. */
  lemma {:induction false} DeviceSize(d: nat, n: nat)
    requires d < DEVSPACE && n <= OFFSPACE
    ensures |DeviceIds(d, n)| == n
    ensures forall p: nat :: p in DeviceIds(d, n) <==> Dev(p) == d && Off(p) < n
  {
    hide Dev, Off, DeviceIds;
    DeviceMembers(d, n);
    if n > 0 {
      DeviceSize(d, n - 1);
      DeviceMembers(d, n - 1);
      var last := d * OFFSPACE + (n - 1);
      IdParts(d, n - 1);
      forall p: nat ensures p in DeviceIds(d, n) <==> p in DeviceIds(d, n - 1) + {last} {
        IdOf(p);
      }
      assert DeviceIds(d, n) == DeviceIds(d, n - 1) + {last};
    } else {
      assert DeviceIds(d, n) == {};
    }
  }

  lemma DeviceMembers(d: nat, n: nat)
    ensures forall p: nat :: p in DeviceIds(d, n) <==> Dev(p) == d && Off(p) < n
  {
    hide Dev, Off;
    forall p: nat ensures p in DeviceIds(d, n) <==> Dev(p) == d && Off(p) < n {
      IdOf(p);
    }
  }

  lemma IdParts(d: nat, k: nat)
    requires k < OFFSPACE
    ensures Dev(d * OFFSPACE + k) == d && Off(d * OFFSPACE + k) == k
  {
  }

  lemma IdOf(p: nat)
    ensures p == Dev(p) * OFFSPACE + Off(p)
  {
  }

  predicate OnDevice(d: nat, n: nat, p: nat) { Dev(p) == d && Off(p) < n }

  function DeviceIds(d: nat, n: nat): set<nat> {
    set p: nat | p < d * OFFSPACE + n && OnDevice(d, n, p)
  }

  lemma {:induction false} BeforeSize(s: Sce, d: nat)
    requires Shape(s) && Tables(s) && d <= MAXCDEV
    ensures |Before(s, d)| == Base(s.cdevs, d)
  {
    hide Dev, Off, DeviceIds, Shape, Tables, Before;
    if d == 0 {
      BeforeNone(s);
    } else {
      BeforeSize(s, d - 1);
      CdevBound(s, d - 1);
      var n := s.cdevs[d - 1].nrFrag;
      DeviceSize(d - 1, n);
      BeforeGrows(s, d - 1, n);
    }
  }

  lemma BeforeNone(s: Sce)
    ensures Before(s, 0) == {}
  {
  }

  lemma CdevBound(s: Sce, d: nat)
    requires Shape(s) && d < MAXCDEV
    ensures d < |s.cdevs| && s.cdevs[d].nrFrag <= OFFSPACE
    ensures |s.cdevs| == MAXCDEV && MAXCDEV == DEVSPACE
    ensures s.cdevs[d].present <==> s.cdevs[d].nrFrag > 0
  {
    assert CdevOk(s.cdevs[d]);
  }

  lemma BeforeGrows(s: Sce, d: nat, n: nat)
    requires Tables(s) && d < |s.cdevs| && n == s.cdevs[d].nrFrag
    requires forall p: nat :: p in DeviceIds(d, n) <==> Dev(p) == d && Off(p) < n
    ensures Before(s, d + 1) == Before(s, d) + DeviceIds(d, n) && Before(s, d) !! DeviceIds(d, n)
  {
    hide Dev, Off, DeviceIds;
    forall p: nat ensures p in Before(s, d + 1) <==> p in Before(s, d) || p in DeviceIds(d, n) {
      if Dev(p) == d {
        assert p in s.frags <==> InDevice(s.cdevs, p);
      }
    }
  }

  /** nr_frag is the sum of the device sizes. */
  lemma TotalSize(s: Sce)
    requires Shape(s) && Tables(s)
    ensures Base(s.cdevs, MAXCDEV) == s.nrFrag
  {
    BeforeSize(s, MAXCDEV);
    assert Before(s, MAXCDEV) == s.frags.Keys;
  }

  lemma PresentAre(s: Sce)
    requires Shape(s) && Dense(s)
    ensures forall d :: 0 <= d < MAXCDEV ==> (s.cdevs[d].present <==> d < s.nrCdev)
  {
    var first := PageRange(0, s.nrCdev);
    RangeSize(0, s.nrCdev);
    assert first <= PresentCdevs(s.cdevs);
    var rest := PresentCdevs(s.cdevs) - first;
    assert PresentCdevs(s.cdevs) == first + rest;
    assert |first + rest| == |first| + |rest|;
    assert rest == {};
    forall d | s.nrCdev <= d < MAXCDEV ensures !s.cdevs[d].present {
      assert d !in rest;
    }
  }

  lemma {:induction false} EmptyTail(cdevs: seq<Cdev>, d: nat, e: nat)
    requires d <= e <= |cdevs| && forall i :: d <= i < e ==> cdevs[i].nrFrag == 0
    ensures Base(cdevs, e) == Base(cdevs, d)
  {
    if d < e {
      EmptyTail(cdevs, d, e - 1);
    }
  }

  /** With dense slots every fragment sits on one of the first nr_cdev devices, and these hold all nr_frag fragments. */
  lemma DenseSize(s: Sce)
    requires Shape(s) && Tables(s) && Dense(s)
    ensures Base(s.cdevs, s.nrCdev) == s.nrFrag > 0
    ensures forall p :: p in s.frags ==> Dev(p) < s.nrCdev
  {
    PresentAre(s);
    TotalSize(s);
    forall d | 0 <= d < MAXCDEV && !s.cdevs[d].present ensures s.cdevs[d].nrFrag == 0 {
      assert CdevOk(s.cdevs[d]);
    }
    EmptyTail(s.cdevs, s.nrCdev, MAXCDEV);
    assert CdevOk(s.cdevs[0]);
    BaseMonotone(s.cdevs, 1, s.nrCdev);
    forall p | p in s.frags ensures Dev(p) < s.nrCdev {
      assert InDevice(s.cdevs, p);
    }
  }

  lemma LinearBound(s: Sce, p: nat)
    requires Shape(s) && Tables(s) && Dense(s) && p in s.frags
    ensures Linear(s.cdevs, p) < s.nrFrag
  {
    DenseSize(s);
    assert InDevice(s.cdevs, p);
    BaseMonotone(s.cdevs, Dev(p) + 1, s.nrCdev);
  }

  lemma LinearInjective(s: Sce, p: nat, q: nat)
    requires Shape(s) && Tables(s) && p in s.frags && q in s.frags && Linear(s.cdevs, p) == Linear(s.cdevs, q)
    ensures p == q
  {
    assert InDevice(s.cdevs, p) && InDevice(s.cdevs, q);
    if Dev(p) < Dev(q) {
      BaseMonotone(s.cdevs, Dev(p) + 1, Dev(q));
    } else if Dev(q) < Dev(p) {
      BaseMonotone(s.cdevs, Dev(q) + 1, Dev(p));
    }
    PfidSplits(p);
    PfidSplits(q);
  }

  /** The position of the arm. */
  function ArmPos(s: Sce): nat
    requires Dense(s)
  {
    var dev := ArmDev(s.arm, s.nrCdev);
    var n := s.cdevs[dev].nrFrag;
    Base(s.cdevs, dev) + if n == 0 then 0 else ArmOff(s.arm, n)
  }

  function Wrap(x: nat, n: nat): nat { if x < n then x else x - n }

  lemma ArmParts(dev: nat, off: nat, nrCdev: nat, n: nat)
    requires dev <= nrCdev <= DEVSPACE && nrCdev > 0 && off < n <= OFFSPACE
    ensures ArmDev(Arm(dev, off), nrCdev) == if dev < nrCdev then dev else 0
    ensures ArmOff(Arm(dev, off), n) == off
  {
    hide Pfid, Dev, Off, Phase;
    ArmFields(dev, off);
    Within(off, n);
    if dev < nrCdev {
      Within(dev, nrCdev);
    } else {
      Within(0, nrCdev);
      DivUnique(nrCdev, nrCdev, 1, 0);
    }
  }

  lemma ArmFields(dev: nat, off: nat)
    requires dev <= DEVSPACE && off < OFFSPACE
    ensures Dev(Arm(dev, off)) % DEVSPACE == if dev == DEVSPACE then 0 else dev
    ensures Off(Arm(dev, off)) == off
  {
  }

  lemma AtArm(s: Sce, dev: nat, off: nat)
    requires Dense(s) && dev < s.nrCdev && off < s.cdevs[dev].nrFrag
    requires ArmDev(s.arm, s.nrCdev) == dev && ArmOff(s.arm, s.cdevs[dev].nrFrag) == off
    ensures ArmPos(s) == Base(s.cdevs, dev) + off
  {
  }

  /** One call returns the fragment under the arm and moves the arm to the next position. */
  lemma AdvanceStep(s: Sce)
    requires Shape(s) && Tables(s) && Dense(s)
    ensures var (s1, at) := Advance(s);
            && at.Some? && at.value in s.frags && Linear(s.cdevs, at.value) == ArmPos(s) < s.nrFrag
            && s1 == s.(arm := s1.arm) && Dense(s1) && ArmPos(s1) == Wrap(ArmPos(s) + 1, s.nrFrag)
  {
    hide Dev, Off, Pfid, Arm, ArmDev, ArmOff, Shape;
    DenseSize(s);
    var dev := ArmDev(s.arm, s.nrCdev);
    CdevsBound(s);
    CdevBound(s, dev);
    var n := s.cdevs[dev].nrFrag;
    var off := ArmOff(s.arm, n);
    var p := Pfid(dev, off);
    PfidParts(dev, off);
    assert InDevice(s.cdevs, p);
    LinearBound(s, p);
    BaseMonotone(s.cdevs, dev + 1, s.nrCdev);
    if off + 1 >= n {
      NextDevice(s, dev);
    } else {
      ArmParts(dev, off + 1, s.nrCdev, n);
      AtArm(s.(arm := Arm(dev, off + 1)), dev, off + 1);
    }
  }

  lemma CdevsBound(s: Sce)
    requires Shape(s) && Dense(s)
    ensures s.nrCdev <= MAXCDEV == |s.cdevs| == DEVSPACE
    ensures forall d :: 0 <= d < s.nrCdev ==> 0 < s.cdevs[d].nrFrag <= OFFSPACE
  {
    forall d | 0 <= d < s.nrCdev ensures 0 < s.cdevs[d].nrFrag <= OFFSPACE {
      assert CdevOk(s.cdevs[d]);
    }
  }

  lemma PfidParts(dev: nat, off: nat)
    requires dev < DEVSPACE && off < OFFSPACE
    ensures Dev(Pfid(dev, off)) == dev && Off(Pfid(dev, off)) == off
  {
  }

  lemma NextDevice(s: Sce, dev: nat)
    requires Shape(s) && Tables(s) && Dense(s) && dev < s.nrCdev
    ensures Dense(s.(arm := Arm(dev + 1, 0)))
    ensures ArmPos(s.(arm := Arm(dev + 1, 0))) == Wrap(Base(s.cdevs, dev + 1), s.nrFrag)
  {
    hide Dev, Off, Pfid, Arm, ArmDev, ArmOff, Shape;
    DenseSize(s);
    CdevsBound(s);
    var next := if dev + 1 < s.nrCdev then dev + 1 else 0;
    ArmParts(dev + 1, 0, s.nrCdev, s.cdevs[next].nrFrag);
    var s1 := s.(arm := Arm(dev + 1, 0));
    AtArm(s1, next, 0);
    BaseMonotone(s.cdevs, next + 1, s.nrCdev);
  }

  lemma KnownAt(s: Sce, dev: nat, off: nat)
    requires Shape(s) && Tables(s) && dev < |s.cdevs| && off < s.cdevs[dev].nrFrag
    ensures Pfid(dev, off) in s.frags && Dev(Pfid(dev, off)) == dev && Off(Pfid(dev, off)) == off
  {
    assert CdevOk(s.cdevs[dev]);
    assert InDevice(s.cdevs, Pfid(dev, off));
  }

  /** The arm only points at fragments there are, on the first nr_cdev slots. */
  lemma AdvanceKnown(s0: Sce, s: Sce)
    requires Shape(s0) && Tables(s0) && s.cdevs == s0.cdevs && s.frags.Keys == s0.frags.Keys
    ensures Advance(s).1.Some? ==> Advance(s).1.value in s.frags && Dev(Advance(s).1.value) < s.nrCdev
    ensures Advance(s).0 == s.(arm := Advance(s).0.arm)
  {
    hide Shape, Tables, Pfid, ArmDev, ArmOff, Arm, Dev, Off;
    if Advance(s).1.Some? {
      var dev := ArmDev(s.arm, s.nrCdev);
      KnownAt(s0, dev, ArmOff(s.arm, s.cdevs[dev].nrFrag));
    }
  }

  // ----- rotation

  /** The state after `t` calls of _get_frag_advance_clockarm. */
  function Turn(s: Sce, t: nat): Sce {
    if t == 0 then s else Advance(Turn(s, t - 1)).0
  }

  /** What call number `t` (from 0) returns. */
  function At(s: Sce, t: nat): Option<nat> { Advance(Turn(s, t)).1 }

  /** How far fragment `p` is ahead of the arm. */
  function Dist(s: Sce, p: nat): nat
    requires Dense(s) && Dev(p) <= |s.cdevs|
  {
    var x := Linear(s.cdevs, p);
    if x >= ArmPos(s) then x - ArmPos(s) else if x + s.nrFrag >= ArmPos(s) then x + s.nrFrag - ArmPos(s) else 0
  }

  lemma {:induction false} TurnPos(s: Sce, t: nat)
    requires Shape(s) && Tables(s) && Dense(s)
    ensures Turn(s, t) == s.(arm := Turn(s, t).arm) && Dense(Turn(s, t))
    ensures ArmPos(s) < s.nrFrag && ArmPos(Turn(s, t)) == Wrap(ArmPos(s) + Phase(t, s.nrFrag), s.nrFrag)
  {
    hide Phase, Advance, Shape, Tables, ArmPos;
    AdvanceStep(s);
    if t == 0 {
      Within(0, s.nrFrag);
    } else {
      TurnPos(s, t - 1);
      var s1 := Turn(s, t - 1);
      TurnTables(s, s1.arm);
      AdvanceStep(s1);
      StepRounds(t - 1, s.nrFrag);
    }
  }

  lemma TurnTables(s: Sce, arm: nat)
    requires Shape(s) && Tables(s)
    ensures Shape(s.(arm := arm)) && Tables(s.(arm := arm))
  {
  }

  /** Call number `t` returns the fragment that was `t` modulo nr_frag ahead of the arm. */
  lemma Rotation(s: Sce, t: nat)
    requires Shape(s) && Tables(s) && Dense(s)
    ensures At(s, t).Some? && At(s, t).value in s.frags && s.nrFrag > 0
    ensures Dev(At(s, t).value) <= |s.cdevs| && Dist(s, At(s, t).value) == Phase(t, s.nrFrag)
  {
    hide Phase, Advance, Shape, ArmPos, Tables;
    TurnPos(s, t);
    var s1 := Turn(s, t);
    TurnTables(s, s1.arm);
    AdvanceStep(s1);
    DenseSize(s);
    LinearBound(s, At(s, t).value);
    CdevsBound(s);
  }

  lemma DistInjective(s: Sce, p: nat, q: nat)
    requires Shape(s) && Tables(s) && Dense(s) && p in s.frags && q in s.frags
    requires Dev(p) <= |s.cdevs| && Dev(q) <= |s.cdevs| && Dist(s, p) == Dist(s, q)
    ensures p == q
  {
    TurnPos(s, 0);
    LinearBound(s, p);
    LinearBound(s, q);
    LinearInjective(s, p, q);
  }

  lemma DistBound(s: Sce, p: nat)
    requires Shape(s) && Tables(s) && Dense(s) && p in s.frags
    ensures Dev(p) <= |s.cdevs| && Dist(s, p) < s.nrFrag
  {
    TurnPos(s, 0);
    LinearBound(s, p);
    DenseSize(s);
  }

  /** From any arm value, nr_frag consecutive calls return every fragment exactly once if and only if the slots are
      dense. */
  lemma RotationIffDense(s: Sce)
    requires Shape(s) && Tables(s) && s.nrCdev > 0
    ensures Dense(s) <==> forall p :: p in s.frags ==> exists j: nat :: j < s.nrFrag && At(s, j) == Some(p)
    ensures Dense(s) ==> forall i: nat, j: nat :: i < j < s.nrFrag ==> At(s, i) != At(s, j)
  {
    hide Shape, Tables, Turn, Dist, At, Phase;
    if Dense(s) {
      forall p | p in s.frags ensures exists j: nat :: j < s.nrFrag && At(s, j) == Some(p) {
        DistBound(s, p);
        var j := Dist(s, p);
        Rotation(s, j);
        Within(j, s.nrFrag);
        DistInjective(s, p, At(s, j).value);
        assert At(s, j) == Some(p);
      }
      forall i: nat, j: nat | i < j < s.nrFrag ensures At(s, i) != At(s, j) {
        Rotation(s, i);
        Rotation(s, j);
        Within(i, s.nrFrag);
        Within(j, s.nrFrag);
      }
    } else {
      var p := Unreached(s);
      SlotsBound(s);
      forall j: nat ensures At(s, j) != Some(p) {
        OnlyFirst(s, j);
      }
    }
  }

  lemma SlotsBound(s: Sce)
    requires Shape(s)
    ensures |s.cdevs| <= DEVSPACE
  {
  }

  /** Some fragment sits on a slot the arm never visits. */
  lemma Unreached(s: Sce) returns (p: nat)
    requires Shape(s) && Tables(s) && s.nrCdev > 0 && !Dense(s)
    ensures p in s.frags && Dev(p) >= s.nrCdev
  {
    hide Pfid, Dev, Off;
    var d := FarDevice(s);
    CdevBound(s, d);
    p := Pfid(d, 0);
    PfidParts(d, 0);
    assert InDevice(s.cdevs, p);
  }

  lemma SubsetSame(a: set<nat>, b: set<nat>)
    requires a <= b && |a| == |b|
    ensures a == b
  {
    assert b == a + (b - a);
    assert |b| == |a| + |b - a|;
  }

  lemma FarDevice(s: Sce) returns (d: nat)
    requires Shape(s) && s.nrCdev > 0 && !Dense(s)
    ensures s.nrCdev <= d < MAXCDEV && s.cdevs[d].present
  {
    var first := PageRange(0, s.nrCdev);
    RangeSize(0, s.nrCdev);
    CountFits(s);
    var here := PresentCdevs(s.cdevs);
    var e: nat :| e < s.nrCdev && !s.cdevs[e].present;
    assert e in first && e !in here;
    if here <= first {
      SubsetSame(here, first);
      assert false;
    }
    d :| d in here && d !in first;
  }

  lemma CountFits(s: Sce)
    requires Shape(s)
    ensures s.nrCdev <= MAXCDEV
  {
    RangeSize(0, MAXCDEV);
    var all := PageRange(0, MAXCDEV);
    assert PresentCdevs(s.cdevs) <= all;
    assert all == PresentCdevs(s.cdevs) + (all - PresentCdevs(s.cdevs));
  }

  lemma {:induction false} OnlyFirst(s: Sce, t: nat)
    requires s.nrCdev > 0 && |s.cdevs| <= DEVSPACE
    decreases t
    ensures Turn(s, t) == s.(arm := Turn(s, t).arm)
    ensures At(s, t).Some? ==> Dev(At(s, t).value) < s.nrCdev
  {
    hide Arm, ArmDev, ArmOff, Off, Pfid;
    if t > 0 {
      OnlyFirst(s, t - 1);
    }
  }
}
