// Adding and removing LUNs and cache devices.

module Configuration {
  import opened Words
  import opened SceState
  import opened Invariants
  import opened Preservation
  import opened Collection
  import opened Clock

  lemma CreateOk()
    ensures Boundary(Create())
  {
    var s := Create();
    assert PresentCdevs(s.cdevs) == {};
    assert PresentLuns(s.luns) == {};
  }

  // ----- LUNs

  /** A context not in use, and a size whose fragment addresses fit 32 bits. */
  ghost predicate NewLunOk(s: Sce, nrSctr: nat, ctx: nat) {
    && ctx != 0 && (forall m :: 0 <= m < |s.luns| && s.luns[m].present ==> s.luns[m].ctx != ctx)
    && (nrSctr + SCTRPERFRAG - 1) / SCTRPERFRAG < MAXLUNFRAGS
  }

  /** sce_addlun takes the first empty slot; every other LUN and every mapping stays. The engine is sound afterwards
      exactly if the context was not in use and the size fits. */
  lemma AddLunKeeps(s: Sce, nrSctr: nat, ctx: nat)
    requires Boundary(s)
    ensures var (s', got) := AddLun(s, nrSctr, ctx);
            && (got.Some? <==> nrSctr > 0 && s.nrLun < MAXLUN) && (got.None? ==> s' == s)
            && (Boundary(s') <==> got.None? || NewLunOk(s, nrSctr, ctx))
            && (got.Some? ==>
                  && got.value < MAXLUN && !s.luns[got.value].present && s'.nrLun == s.nrLun + 1
                  && (forall m :: 0 <= m < got.value ==> s.luns[m].present)
                  && s'.frags == s.frags && s'.free == s.free
                  && s' == s.(luns := s.luns[got.value := s'.luns[got.value]], nrLun := s.nrLun + 1)
                  && (var lun := s'.luns[got.value];
                      && lun == Lun(true, ctx, nrSctr, lun.fragmap, 0, false)
                      && |lun.fragmap| * SCTRPERFRAG >= nrSctr > (|lun.fragmap| - 1) * SCTRPERFRAG
                      && forall f :: 0 <= f < |lun.fragmap| ==> lun.fragmap[f] == FRESH)
                  && forall m: nat, g: nat, p: nat :: MappedTo(s', m, g, p) <==> MappedTo(s, m, g, p))
  {
    hide Tables, Links, FreeOk, FragsOk, Services, NoDead, Distinct, NewLunOk;
    LunSlots(s);
    var (s', got) := AddLun(s, nrSctr, ctx);
    if got.Some? {
      var l := got.value;
      assert LunOk(s.luns[l]);
      AddLunMapping(s, s', l);
      if NewLunOk(s, nrSctr, ctx) {
        AddLunSound(s, s', l, nrSctr, ctx);
      } else {
        AddLunUnsound(s, s', l, nrSctr, ctx);
      }
    }
  }

  lemma AddLunSound(s: Sce, s': Sce, l: nat, nrSctr: nat, ctx: nat)
    requires Boundary(s) && NewLunOk(s, nrSctr, ctx) && AddLun(s, nrSctr, ctx) == (s', Some(l))
    requires forall m: nat, g: nat, p: nat :: MappedTo(s', m, g, p) <==> MappedTo(s, m, g, p)
    requires forall m: nat, g: nat, p: nat :: MappedTo(s, m, g, p) ==> m < |s.luns| && s'.luns[m] == s.luns[m]
    ensures Boundary(s')
  {
    hide Tables, Links, FreeOk, FragsOk, NoDead, Shape, Distinct, Services, NewLunOk;
    AddLunTables(s, s', l, nrSctr, ctx);
    AddLunServices(s, s', l);
    SameMappingCore(s, s');
    AddLunNoDead(s, s', l);
  }

  lemma AddLunUnsound(s: Sce, s': Sce, l: nat, nrSctr: nat, ctx: nat)
    requires AddLun(s, nrSctr, ctx) == (s', Some(l)) && !NewLunOk(s, nrSctr, ctx) && !s.luns[l].present
    ensures !(Shape(s') && Distinct(s'))
  {
    if m :| 0 <= m < |s.luns| && s.luns[m].present && s.luns[m].ctx == ctx {
      assert m != l && s'.luns[m] == s.luns[m] && s'.luns[l].ctx == ctx;
    } else {
      assert s'.luns[l].present && !LunOk(s'.luns[l]);
    }
  }

  lemma LunSlots(s: Sce)
    requires Shape(s)
    ensures FindLun(s.luns, 0) == |s.luns| <==> s.nrLun >= MAXLUN
  {
    var all := PageRange(0, MAXLUN);
    RangeSize(0, MAXLUN);
    var here := PresentLuns(s.luns);
    assert here <= all;
    assert all == here + (all - here);
    assert |all| == |here| + |all - here|;
    var l := FindLun(s.luns, 0);
    if l == |s.luns| {
      assert all - here == {};
    } else {
      assert l in all - here;
    }
  }

  lemma AddLunTables(s: Sce, s': Sce, l: nat, nrSctr: nat, ctx: nat)
    requires Shape(s) && Distinct(s) && Tables(s) && NewLunOk(s, nrSctr, ctx)
    requires AddLun(s, nrSctr, ctx) == (s', Some(l))
    ensures Shape(s') && Distinct(s') && Tables(s')
  {
    AddLunShape(s, s', l, nrSctr, ctx);
    AddLunDistinct(s, s', l, nrSctr, ctx);
    hide Shape, Distinct, FindLun, NewLunOk;
  }

  lemma AddLunShape(s: Sce, s': Sce, l: nat, nrSctr: nat, ctx: nat)
    requires Shape(s) && NewLunOk(s, nrSctr, ctx) && AddLun(s, nrSctr, ctx) == (s', Some(l))
    ensures Shape(s')
  {
    assert PresentLuns(s'.luns) == PresentLuns(s.luns) + {l};
    assert l !in PresentLuns(s.luns);
  }

  lemma AddLunDistinct(s: Sce, s': Sce, l: nat, nrSctr: nat, ctx: nat)
    requires Distinct(s) && NewLunOk(s, nrSctr, ctx) && AddLun(s, nrSctr, ctx) == (s', Some(l))
    ensures Distinct(s')
  {
  }

  lemma {:induction false} UnmappedSum(n: nat, frags: map<nat, Frag>)
    ensures ServiceSum(seq(n, _ => FRESH), frags) == 0
  {
    if n > 0 {
      var fm := seq(n, _ => FRESH);
      assert fm[..n - 1] == seq(n - 1, _ => FRESH);
      UnmappedSum(n - 1, frags);
    }
  }

  lemma AddLunServices(s: Sce, s': Sce, l: nat)
    requires Services(s) && l < |s.luns| == |s'.luns| && s'.frags == s.frags && s'.luns == s.luns[l := s'.luns[l]]
    requires s'.luns[l].fragmap == seq(|s'.luns[l].fragmap|, _ => FRESH)
    requires s'.luns[l].nrService == 0
    ensures Services(s')
  {
    UnmappedSum(|s'.luns[l].fragmap|, s'.frags);
  }

  lemma AddLunMapping(s: Sce, s': Sce, l: nat)
    requires l < |s.luns| && |s'.luns| == |s.luns| && s'.luns == s.luns[l := s'.luns[l]] && s.luns[l].fragmap == []
    requires forall g :: 0 <= g < |s'.luns[l].fragmap| ==> s'.luns[l].fragmap[g] == FRESH
    ensures forall m: nat, g: nat, p: nat :: MappedTo(s', m, g, p) <==> MappedTo(s, m, g, p)
    ensures forall m: nat, g: nat, p: nat :: MappedTo(s, m, g, p) ==> m < |s.luns| && s'.luns[m] == s.luns[m]
  {
  }

  lemma AddLunNoDead(s: Sce, s': Sce, l: nat)
    requires NoDead(s) && s'.frags == s.frags
    requires forall m: nat, g: nat, p: nat :: MappedTo(s', m, g, p) <==> MappedTo(s, m, g, p)
    requires forall m: nat, g: nat, p: nat ::
        MappedTo(s, m, g, p) ==> m < |s.luns| && m < |s'.luns| && s'.luns[m] == s.luns[m]
    ensures NoDead(s')
  {
  }

  /** sce_rmlun: an idle LUN is purged at once, with its own mappings and no others; a busy one is only marked. */
  lemma RmLunKeeps(s: Sce, l: nat)
    requires Boundary(s)
    ensures var (s', ok) := RmLun(s, l);
            && Boundary(s') && (ok <==> l < |s.luns| && s.luns[l].present) && (!ok ==> s' == s)
            && (ok && s.luns[l].nrService == 0 ==>
                  && Purged(s, s', l) && Shrinks(s, s') && OnlyLunGone(s, s', l)
                  && s.nrLun > 0 && s' == Emptied(s, l))
            && (ok && s.luns[l].nrService > 0 ==>
                  && s' == s.(luns := s.luns[l := s.luns[l].(waiting := true)])
                  && forall m: nat, g: nat, p: nat :: MappedTo(s', m, g, p) <==> MappedTo(s, m, g, p))
  {
    hide Tables, Links, FreeOk, FragsOk, NoDead, Shrinks, Frees, Purge, Services, OnlyLunGone, AllListed, Held;
    if l < |s.luns| && s.luns[l].present {
      if s.luns[l].nrService == 0 {
        PurgeExact(s, l);
        PurgeIdle(s, l);
        PurgeNoDead(s, Purge(s, l).0, l);
        PurgeOthers(s, Purge(s, l).0, l);
      } else {
        MarkKeeps(s, l);
      }
    }
  }

  lemma PurgeOthers(s: Sce, s': Sce, l: nat)
    requires l < |s.luns| && Deferred(s) && Frees(s, s', l, |s.luns[l].fragmap|) && s'.luns[l] == EMPTYLUN
    ensures Deferred(s')
  {
  }

  lemma MarkKeeps(s: Sce, l: nat)
    requires Boundary(s) && l < |s.luns| && s.luns[l].present && s.luns[l].nrService > 0
    ensures var s' := s.(luns := s.luns[l := s.luns[l].(waiting := true)]);
            Boundary(s') && forall m: nat, g: nat, p: nat :: MappedTo(s', m, g, p) <==> MappedTo(s, m, g, p)
  {
    hide Links, FreeOk, FragsOk;
    var s' := s.(luns := s.luns[l := s.luns[l].(waiting := true)]);
    assert PresentLuns(s'.luns) == PresentLuns(s.luns);
    assert LunOk(s.luns[l]);
    assert forall m: nat, g: nat, p: nat :: MappedTo(s', m, g, p) <==> MappedTo(s, m, g, p);
    SameMappingCore(s, s');
  }

  // ----- cache devices

  lemma DeviceList(d: nat, n: nat)
    requires d < DEVSPACE && n <= OFFSPACE
    ensures NoDuplicates(DevicePfids(d, n)) && |DevicePfids(d, n)| == n
    ensures forall p: nat :: p in DevicePfids(d, n) <==> Dev(p) == d && Off(p) < n
    ensures forall p: nat :: p in DevicePfids(d, n) <==> p in DeviceIds(d, n)
  {
    var ids := DevicePfids(d, n);
    DeviceSize(d, n);
    hide DeviceIds;
    forall i | 0 <= i < n ensures Dev(ids[i]) == d && Off(ids[i]) == i {
      assert ids[i] == Pfid(d, i);
    }
    hide Dev, Off, Pfid;
    forall p: nat | Dev(p) == d && Off(p) < n ensures p in ids {
      SamePfid(p, d);
      assert ids[Off(p)] == p;
    }
  }

  lemma SamePfid(p: nat, d: nat)
    requires Dev(p) == d < DEVSPACE
    ensures Pfid(d, Off(p)) == p
  {
  }

  /** The device slots are full exactly when the count says so, and an empty slot has the null context. */
  lemma CdevSlots(s: Sce)
    requires Shape(s)
    ensures FindCdev(s.cdevs, 0) == |s.cdevs| <==> s.nrCdev >= MAXCDEV
    ensures FindCdev(s.cdevs, 0) < |s.cdevs| ==> s.cdevs[FindCdev(s.cdevs, 0)].ctx == 0
  {
    var all := PageRange(0, MAXCDEV);
    RangeSize(0, MAXCDEV);
    var here := PresentCdevs(s.cdevs);
    assert here <= all;
    assert all == here + (all - here);
    assert |all| == |here| + |all - here|;
    var d := FindCdev(s.cdevs, 0);
    if d == |s.cdevs| {
      assert all - here == {};
    } else {
      assert d in all - here;
      assert CdevOk(s.cdevs[d]);
    }
  }

  predicate CtxUsed(s: Sce, ctx: nat) { exists d :: 0 <= d < |s.cdevs| && s.cdevs[d].ctx == ctx }

  /** sce_addcdev takes the first empty slot and puts all its fragments, in order, in front of the free list. */
  lemma AddCdevKeeps(s: Sce, nrSctr: nat, ctx: nat)
    requires Boundary(s) && nrSctr / SCTRPERFRAG <= OFFSPACE
    ensures var (s', got) := AddCdev(s, nrSctr, ctx);
            && Boundary(s') && Shrinks(s, s') && (got.None? ==> s' == s)
            && (got.Some? <==> nrSctr >= SCTRPERFRAG && s.nrCdev < MAXCDEV && !CtxUsed(s, ctx))
            && (got.Some? ==>
                  && got.value < MAXCDEV && !s.cdevs[got.value].present && s'.nrCdev == s.nrCdev + 1
                  && s'.free == DevicePfids(got.value, nrSctr / SCTRPERFRAG) + s.free && s'.luns == s.luns
                  && (forall p :: p in s.frags ==> p in s'.frags && s'.frags[p] == s.frags[p] && Dev(p) != got.value)
                  && (forall p: nat :: p in s'.frags && p !in s.frags <==>
                      Dev(p) == got.value && Off(p) < nrSctr / SCTRPERFRAG)
                  && (forall p :: p in s'.frags && p !in s.frags ==> s'.frags[p] == FRESHFRAG)
                  && s' == s.(cdevs := s.cdevs[got.value := Cdev(true, ctx, nrSctr / SCTRPERFRAG)],
                              nrCdev := s.nrCdev + 1, nrFrag := s.nrFrag + nrSctr / SCTRPERFRAG,
                              frags := s'.frags, free := s'.free))
  {
    hide Links, FragsOk, Services, NoDead, Tables, FreeOk, Shrinks, DevicePfids;
    CdevSlots(s);
    ShrinksSelf(s);
    var (s', got) := AddCdev(s, nrSctr, ctx);
    if got.Some? {
      assert ctx != 0;
      var n := nrSctr / SCTRPERFRAG;
      PlugFrags(s, got.value, n, ctx);
      PlugTables(s, got.value, n, ctx);
      PlugFree(s, got.value, n, ctx);
      PlugCore(s, s', got.value);
    }
  }

  lemma PlugFrags(s: Sce, d: nat, n: nat, ctx: nat)
    requires Shape(s) && Tables(s) && n <= OFFSPACE && d < MAXCDEV && !s.cdevs[d].present
    ensures var s' := Plug(s, d, n, ctx);
            && (forall p :: p in s.frags ==> p in s'.frags && s'.frags[p] == s.frags[p] && Dev(p) != d)
            && (forall p: nat :: p in s'.frags && p !in s.frags <==> Dev(p) == d && Off(p) < n)
            && (forall p :: p in s'.frags && p !in s.frags ==> s'.frags[p] == FRESHFRAG)
            && |s'.frags| == |s.frags| + n
  {
    hide Shape, Tables, Dev, Off, DevicePfids, DeviceIds, Plug;
    SlotRange(s);
    DeviceSize(d, n);
    AbsentDevice(s, d);
    PlugKeys(s, d, n, ctx);
    var s' := Plug(s, d, n, ctx);
    assert s.frags.Keys !! DeviceIds(d, n);
    assert |s'.frags| == |s'.frags.Keys|;
  }

  lemma SlotRange(s: Sce)
    requires Shape(s)
    ensures |s.cdevs| == MAXCDEV == DEVSPACE
  {
  }

  lemma PlugKeys(s: Sce, d: nat, n: nat, ctx: nat)
    requires n <= OFFSPACE && d < DEVSPACE && d < |s.cdevs|
    ensures var s' := Plug(s, d, n, ctx);
            && s'.frags.Keys == s.frags.Keys + DeviceIds(d, n)
            && forall p :: p in s'.frags ==> s'.frags[p] == if p in DeviceIds(d, n) then FRESHFRAG else s.frags[p]
  {
    hide Dev, Off, DevicePfids, DeviceIds;
    DeviceList(d, n);
    var ids := DevicePfids(d, n);
    assert (set p | p in ids) == DeviceIds(d, n);
  }

  lemma AbsentDevice(s: Sce, d: nat)
    requires Shape(s) && Tables(s) && d < MAXCDEV && !s.cdevs[d].present
    ensures forall p :: p in s.frags ==> Dev(p) != d
    ensures s.cdevs[d].nrFrag == 0
  {
    hide Dev, Off;
    assert CdevOk(s.cdevs[d]);
    forall p | p in s.frags ensures Dev(p) != d {
      assert InDevice(s.cdevs, p);
    }
  }

  lemma PlugFree(s: Sce, d: nat, n: nat, ctx: nat)
    requires FreeOk(s) && n <= OFFSPACE && d < DEVSPACE && d < |s.cdevs|
    requires forall p :: p in s.frags ==> Dev(p) != d
    ensures FreeOk(Plug(s, d, n, ctx))
  {
    hide Dev, Off, DevicePfids, DeviceIds, NoDuplicates, Plug;
    DeviceList(d, n);
    DeviceSize(d, n);
    PlugKeys(s, d, n, ctx);
    PlugFields(s, d, n, ctx);
    var ids := DevicePfids(d, n);
    forall p: nat | p in ids ensures p !in s.free {
      assert Dev(p) == d;
    }
    Concatenated(ids, s.free);
  }

  lemma Concatenated(a: seq<nat>, b: seq<nat>)
    requires NoDuplicates(a) && NoDuplicates(b) && forall p: nat :: p in a ==> p !in b
    ensures NoDuplicates(a + b)
    ensures forall p: nat :: p in a + b <==> p in a || p in b
  {
    forall i, j | 0 <= i < |a| && 0 <= j < |b| ensures a[i] != b[j] {
      assert a[i] in a && b[j] in b;
    }
  }

  lemma PlugTables(s: Sce, d: nat, n: nat, ctx: nat)
    requires Shape(s) && Distinct(s) && Tables(s) && 0 < n <= OFFSPACE && ctx != 0 && d < MAXCDEV && !s.cdevs[d].present
    ensures var s' := Plug(s, d, n, ctx); Shape(s') && Distinct(s') && Tables(s')
  {
    hide Dev, Off, Plug, DevicePfids, Tables, Shape, InDevice, CdevOk;
    SlotRange(s);
    PlugFrags(s, d, n, ctx);
    AbsentDevice(s, d);
    PlugFields(s, d, n, ctx);
    PlugShape(s, Plug(s, d, n, ctx), d, n, ctx);
    PlugInDevice(s, Plug(s, d, n, ctx), d, n, ctx);
  }

  lemma PlugShape(s: Sce, s': Sce, d: nat, n: nat, ctx: nat)
    requires Shape(s) && 0 < n <= OFFSPACE && ctx != 0 && d < MAXCDEV && !s.cdevs[d].present
    requires s'.cdevs == s.cdevs[d := Cdev(true, ctx, n)] && s'.nrCdev == s.nrCdev + 1 && s'.luns == s.luns &&
        s'.nrLun == s.nrLun
    ensures Shape(s')
  {
    hide LunOk, PresentLuns;
    assert PresentCdevs(s'.cdevs) == PresentCdevs(s.cdevs) + {d};
    assert d !in PresentCdevs(s.cdevs);
  }

  lemma PlugInDevice(s: Sce, s': Sce, d: nat, n: nat, ctx: nat)
    requires Tables(s) && d < |s.cdevs| && s'.cdevs == s.cdevs[d := Cdev(true, ctx, n)] && s.cdevs[d].nrFrag == 0
    requires forall p :: p in s.frags ==> p in s'.frags && Dev(p) != d
    requires forall p: nat :: p in s'.frags && p !in s.frags <==> Dev(p) == d && Off(p) < n
    requires |s'.frags| == |s.frags| + n && s'.nrFrag == s.nrFrag + n
    ensures Tables(s')
  {
    hide Dev, Off;
    forall p: nat ensures p in s'.frags <==> InDevice(s'.cdevs, p) {
      assert p in s.frags <==> InDevice(s.cdevs, p);
    }
  }

  lemma PlugFields(s: Sce, d: nat, n: nat, ctx: nat)
    requires d < |s.cdevs|
    ensures var s' := Plug(s, d, n, ctx);
            && s'.cdevs == s.cdevs[d := Cdev(true, ctx, n)] && s'.nrCdev == s.nrCdev + 1 && s'.nrFrag == s.nrFrag + n
            && s'.luns == s.luns && s'.nrLun == s.nrLun && s'.free == DevicePfids(d, n) + s.free
  {
  }

  lemma PlugCore(s: Sce, s': Sce, d: nat)
    requires Boundary(s) && s'.luns == s.luns && Shape(s') && Distinct(s') && Tables(s') && FreeOk(s')
    requires forall p :: p in s.frags ==> p in s'.frags && s'.frags[p] == s.frags[p]
    requires forall p :: p in s'.frags && p !in s.frags ==> s'.frags[p] == FRESHFRAG
    ensures Boundary(s') && Shrinks(s, s')
  {
    hide Shape, Distinct, Tables, FreeOk, PagesOk;
    assert forall m: nat, g: nat, p: nat :: MappedTo(s', m, g, p) <==> MappedTo(s, m, g, p);
    forall m | 0 <= m < |s.luns| ensures s'.luns[m].nrService == ServiceSum(s'.luns[m].fragmap, s'.frags) {
      forall g | 0 <= g < |s.luns[m].fragmap|
        ensures ServiceOf(s.luns[m].fragmap[g], s.frags) == ServiceOf(s'.luns[m].fragmap[g], s'.frags)
      {
        assert s.luns[m].fragmap[g].mapped ==> MappedTo(s, m, g, s.luns[m].fragmap[g].data);
      }
      SumSame(s.luns[m].fragmap, s.frags, s'.luns[m].fragmap, s'.frags);
    }
  }

  // ----- removing a device

  /** No fragment of device `d` is in service. */
  ghost predicate DeviceIdle(s: Sce, d: nat) {
    forall l: nat, f: nat, p: nat :: MappedTo(s, l, f, p) && Dev(p) == d && p in s.frags ==> s.frags[p].nrService == 0
  }

  lemma {:induction false} FilterIs(free: seq<nat>, d: nat)
    requires NoDuplicates(free)
    ensures NoDuplicates(OffDevice(free, d))
    ensures forall p :: p in OffDevice(free, d) <==> p in free && Dev(p) != d
  {
    hide Dev;
    if free != [] {
      FilterIs(free[1..], d);
      assert free == [free[0]] + free[1..];
      assert free[0] !in free[1..];
    }
  }

  predicate CanRemove(s: Sce, d: nat) {
    d < |s.cdevs| && s.cdevs[d].present && s.nrCdev > 0 && s.nrFrag >= s.cdevs[d].nrFrag
  }

  lemma RemoveEnabled(s: Sce, d: nat)
    requires Shape(s) && Tables(s) && d < |s.cdevs| && s.cdevs[d].present
    ensures CanRemove(s, d)
  {
    assert d in PresentCdevs(s.cdevs);
    assert CdevOk(s.cdevs[d]);
    DeviceFrags(s, d);
  }

  /** Removing a device takes away as many fragments as it had. */
  lemma DeviceFrags(s: Sce, d: nat)
    requires Shape(s) && Tables(s) && d < |s.cdevs| && s.cdevs[d].present
    ensures s.nrFrag >= s.cdevs[d].nrFrag
    ensures forall m: map<nat, Frag> ::
        (forall p :: p in m <==> p in s.frags && Dev(p) != d) ==> |m| == s.nrFrag - s.cdevs[d].nrFrag
  {
    hide Dev, Off, DeviceIds, Shape;
    SlotRange(s);
    CdevBound(s, d);
    var n := s.cdevs[d].nrFrag;
    DeviceSize(d, n);
    forall p: nat ensures p in DeviceIds(d, n) <==> p in s.frags && Dev(p) == d {
      assert p in s.frags <==> InDevice(s.cdevs, p);
    }
    var rest := s.frags.Keys - DeviceIds(d, n);
    assert DeviceIds(d, n) <= s.frags.Keys;
    assert |rest| == |s.frags.Keys| - n;
    forall m: map<nat, Frag> | forall p :: p in m <==> p in s.frags && Dev(p) != d
      ensures |m| == s.nrFrag - n
    {
      assert m.Keys == rest;
    }
  }

  /** The mappings that remain are those on other devices, untouched. */
  lemma RmCdevMapping(s: Sce, d: nat)
    requires Links(s) && CanRemove(s, d)
    ensures var s' := RmCdev(s, d).0;
            && (forall l: nat, f: nat, p: nat :: MappedTo(s', l, f, p) <==> MappedTo(s, l, f, p) && Dev(p) != d)
            && (forall l: nat, f: nat, p: nat ::
                    MappedTo(s', l, f, p) ==> s'.luns[l].fragmap[f] == s.luns[l].fragmap[f])
            && |s'.luns| == |s.luns| && (forall l :: 0 <= l < |s.luns| ==>
                s'.luns[l] == DropDevice(s.luns[l], s.frags, d))
            && (forall p :: p in s'.frags <==> p in s.frags && Dev(p) != d)
            && (forall p :: p in s'.frags ==> s'.frags[p] == s.frags[p])
  {
    hide Dev;
    var s' := RmCdev(s, d).0;
    forall l: nat, f: nat, p: nat ensures MappedTo(s', l, f, p) <==> MappedTo(s, l, f, p) && Dev(p) != d {
      if l < |s.luns| && f < |s.luns[l].fragmap| && s.luns[l].fragmap[f].mapped {
        assert MappedTo(s, l, f, s.luns[l].fragmap[f].data);
      }
    }
  }

  lemma RmCdevTables(s: Sce, d: nat)
    requires Shape(s) && Distinct(s) && Tables(s) && CanRemove(s, d)
    ensures var s' := RmCdev(s, d).0; Shape(s') && Distinct(s') && Tables(s')
  {
    hide Dev, Off, DropDesc;
    var s' := RmCdev(s, d).0;
    assert PresentCdevs(s'.cdevs) == PresentCdevs(s.cdevs) - {d};
    assert d in PresentCdevs(s.cdevs);
    assert PresentLuns(s'.luns) == PresentLuns(s.luns);
    DeviceFrags(s, d);
    forall l | 0 <= l < MAXLUN ensures LunOk(s'.luns[l]) {
      assert LunOk(s.luns[l]);
    }
    forall p: nat ensures p in s'.frags <==> InDevice(s'.cdevs, p) {
      assert p in s.frags <==> InDevice(s.cdevs, p);
    }
  }

  lemma {:induction false} SumAtMost(fm: seq<Word>, frags: map<nat, Frag>, fm': seq<Word>, frags': map<nat, Frag>)
    requires |fm| == |fm'| && forall g :: 0 <= g < |fm| ==> ServiceOf(fm'[g], frags') <= ServiceOf(fm[g], frags)
    ensures ServiceSum(fm', frags') <= ServiceSum(fm, frags)
    ensures (exists g :: 0 <= g < |fm| && ServiceOf(fm'[g], frags') < ServiceOf(fm[g], frags)) ==>
      ServiceSum(fm', frags') < ServiceSum(fm, frags)
  {
    if fm != [] {
      SumAtMost(fm[..|fm| - 1], frags, fm'[..|fm| - 1], frags');
    }
  }

  lemma DroppedService(s: Sce, d: nat, l: nat, f: nat)
    requires Links(s) && CanRemove(s, d) && l < |s.luns| && f < |s.luns[l].fragmap|
    ensures var s' := RmCdev(s, d).0;
            && l < |s'.luns| && f < |s'.luns[l].fragmap|
            && ServiceOf(s'.luns[l].fragmap[f], s'.frags) ==
               if s.luns[l].fragmap[f].mapped && Dev(s.luns[l].fragmap[f].data) == d then 0
                   else ServiceOf(s.luns[l].fragmap[f], s.frags)
  {
    hide Dev;
    if s.luns[l].fragmap[f].mapped {
      assert MappedTo(s, l, f, s.luns[l].fragmap[f].data);
    }
  }

  /** The service counts still add up after removing a device exactly when none of its fragments was in service. */
  lemma RmCdevServices(s: Sce, d: nat)
    requires Links(s) && Services(s) && CanRemove(s, d)
    ensures Services(RmCdev(s, d).0) <==> DeviceIdle(s, d)
  {
    hide Dev, ServiceOf;
    var s' := RmCdev(s, d).0;
    RmCdevMapping(s, d);
    hide RmCdev, DropDesc;
    forall l, f | 0 <= l < |s.luns| && 0 <= f < |s.luns[l].fragmap|
      ensures l < |s'.luns| && f < |s'.luns[l].fragmap|
      ensures ServiceOf(s'.luns[l].fragmap[f], s'.frags) ==
        if s.luns[l].fragmap[f].mapped && Dev(s.luns[l].fragmap[f].data) == d then 0
            else ServiceOf(s.luns[l].fragmap[f], s.frags)
    {
      DroppedService(s, d, l, f);
    }
    if DeviceIdle(s, d) {
      forall l | 0 <= l < |s.luns| ensures s'.luns[l].nrService == ServiceSum(s'.luns[l].fragmap, s'.frags) {
        IdleService(s, d, l);
        SumSame(s.luns[l].fragmap, s.frags, s'.luns[l].fragmap, s'.frags);
      }
    } else {
      var l: nat, f: nat, p: nat :| MappedTo(s, l, f, p) && Dev(p) == d && p in s.frags && s.frags[p].nrService != 0;
      BusyService(s, l, f, p);
      SumAtMost(s.luns[l].fragmap, s.frags, s'.luns[l].fragmap, s'.frags);
      assert ServiceOf(s'.luns[l].fragmap[f], s'.frags) < ServiceOf(s.luns[l].fragmap[f], s.frags);
    }
  }

  lemma BusyService(s: Sce, l: nat, f: nat, p: nat)
    requires MappedTo(s, l, f, p) && p in s.frags
    ensures ServiceOf(s.luns[l].fragmap[f], s.frags) == s.frags[p].nrService
  {
  }

  lemma IdleService(s: Sce, d: nat, l: nat)
    requires DeviceIdle(s, d) && l < |s.luns|
    ensures forall f ::
      0 <= f < |s.luns[l].fragmap| && s.luns[l].fragmap[f].mapped
      && Dev(s.luns[l].fragmap[f].data) == d ==>
      ServiceOf(s.luns[l].fragmap[f], s.frags) == 0
  {
    hide Dev;
    forall f | 0 <= f < |s.luns[l].fragmap| && s.luns[l].fragmap[f].mapped && Dev(s.luns[l].fragmap[f].data) == d
      ensures ServiceOf(s.luns[l].fragmap[f], s.frags) == 0
    {
      assert MappedTo(s, l, f, s.luns[l].fragmap[f].data);
    }
  }

  lemma RmCdevLists(s: Sce, d: nat)
    requires Links(s) && FreeOk(s) && FragsOk(s) && NoDead(s) && CanRemove(s, d)
    ensures var s' := RmCdev(s, d).0; Links(s') && FreeOk(s') && FragsOk(s') && NoDead(s')
  {
    hide Dev, PagesOk, DropDesc;
    var s' := RmCdev(s, d).0;
    RmCdevMapping(s, d);
    FilterIs(s.free, d);
    assert s'.free == OffDevice(s.free, d);
    hide RmCdev, OffDevice, NoDuplicates, MappedTo;
    assert forall l :: 0 <= l < |s.luns| ==> s'.luns[l].nrSctr == s.luns[l].nrSctr;
  }

  lemma RmCdevShrinks(s: Sce, d: nat)
    requires Links(s) && DeviceIdle(s, d) && CanRemove(s, d)
    ensures Shrinks(s, RmCdev(s, d).0)
  {
    hide Dev, DropDesc;
    RmCdevMapping(s, d);
    hide RmCdev;
  }

  lemma RmCdevDeferred(s: Sce, d: nat)
    requires Deferred(s) && CanRemove(s, d)
    ensures Deferred(RmCdev(s, d).0)
  {
  }

  /** sce_rmcdev: nothing refers to the device any more, everything else is as before, the counts match; and the state
      is sound again exactly if no fragment of the device was in service. */
  lemma RmCdevKeeps(s: Sce, d: nat)
    requires Boundary(s) && d < |s.cdevs| && s.cdevs[d].present
    ensures var (s', ok) := RmCdev(s, d);
            && ok && (Boundary(s') <==> DeviceIdle(s, d)) && (DeviceIdle(s, d) ==> Shrinks(s, s'))
            && (forall l: nat, f: nat, p: nat :: MappedTo(s', l, f, p) <==> MappedTo(s, l, f, p) && Dev(p) != d)
            && (forall l: nat, f: nat, p: nat ::
                    MappedTo(s', l, f, p) ==> s'.luns[l].fragmap[f] == s.luns[l].fragmap[f])
            && (forall p :: p in s'.frags <==> p in s.frags && Dev(p) != d) &&
                (forall p :: p in s'.frags ==> s'.frags[p] == s.frags[p])
            && s'.free == OffDevice(s.free, d) && (forall p :: p in s'.free <==> p in s.free && Dev(p) != d)
            && s'.nrCdev == s.nrCdev - 1 && s'.nrFrag == s.nrFrag - s.cdevs[d].nrFrag == |s'.frags|
            && s' == s.(cdevs := s.cdevs[d := EMPTYCDEV], nrCdev := s'.nrCdev, nrFrag := s'.nrFrag,
                        luns := s'.luns, frags := s'.frags, free := s'.free)
  {
    hide Shape, Distinct, Tables, Links, FreeOk, FragsOk, Services, NoDead, Deferred, DeviceIdle, Shrinks, Dev,
        OffDevice, MappedTo;
    RemoveEnabled(s, d);
    RmCdevMapping(s, d);
    RmCdevTables(s, d);
    RmCdevServices(s, d);
    RmCdevLists(s, d);
    RmCdevDeferred(s, d);
    if DeviceIdle(s, d) {
      RmCdevShrinks(s, d);
    }
    FreeFilter(s, d);
    CountOk(RmCdev(s, d).0);
  }

  /** Removing a device leaves every LUN as it was, but for the entries on the device, which keep their miss counts. */
  lemma RmCdevLun(s: Sce, d: nat, l: nat)
    requires Boundary(s) && d < |s.cdevs| && s.cdevs[d].present && l < |s.luns|
    ensures var luns := RmCdev(s, d).0.luns;
            && |luns| == |s.luns| && |luns[l].fragmap| == |s.luns[l].fragmap|
            && luns[l] == s.luns[l].(fragmap := luns[l].fragmap)
            && forall f :: 0 <= f < |s.luns[l].fragmap| ==>
                 var w := s.luns[l].fragmap[f];
                 && (!(w.mapped && Dev(w.data) == d) ==> luns[l].fragmap[f] == w)
                 && (w.mapped && Dev(w.data) == d ==>
                       && w.data in s.frags
                       && luns[l].fragmap[f] == Word(false, false, 0, s.frags[w.data].nrMiss % DATASPACE))
  {
    hide Shape, Distinct, Tables, Links, FreeOk, FragsOk, Services, NoDead, Deferred, Dev, OffDevice;
    RemoveEnabled(s, d);
    forall f: nat | f < |s.luns[l].fragmap| && s.luns[l].fragmap[f].mapped
      ensures s.luns[l].fragmap[f].data in s.frags
    {
      assert MappedTo(s, l, f, s.luns[l].fragmap[f].data);
      MappedCounted(s, l, f, s.luns[l].fragmap[f].data);
    }
  }

  lemma FreeFilter(s: Sce, d: nat)
    requires FreeOk(s)
    ensures forall p :: p in OffDevice(s.free, d) <==> p in s.free && Dev(p) != d
  {
    FilterIs(s.free, d);
  }

  lemma CountOk(s: Sce)
    requires Tables(s)
    ensures s.nrFrag == |s.frags|
  {
  }
}
