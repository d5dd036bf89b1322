// What it costs to remove a device whose fragments are in service.

module Removal {
  import opened Words
  import opened SceState
  import opened Invariants
  import opened Configuration
  import Clock
  import Holes
  import MissLog
  import Preservation

  /** LUN `l` is marked for deletion and counts services, but no entry is left that could give them back. */
  ghost predicate Stuck(s: Sce, l: nat) {
    && l < |s.luns| && s.luns[l].present && s.luns[l].waiting && s.luns[l].nrService > 0
    && forall f :: 0 <= f < |s.luns[l].fragmap| ==> !s.luns[l].fragmap[f].mapped
  }

  /** Slot `l` is as it was. */
  ghost predicate Keeps(s: Sce, t: Sce, l: nat) { l < |s.luns| == |t.luns| && t.luns[l] == s.luns[l] }

  datatype Call =
    | AddLunCall(nrSctr: nat, ctx: nat)
    | RmLunCall(m: nat)
    | AddCdevCall(nrSctr: nat, ctx: nat)
    | RmCdevCall(d: nat)
    | Get4ReadCall(m: nat, sctr: nat, n: nat)
    | Put4ReadCall(m: nat, sctr: nat, n: nat)
    | InvalidateCall(m: nat, sctr: nat, n: nat)
    | Get4PopCall(m: nat, f: nat)
    | Put4PopCall(ctx: nat, f: nat, failed: bool)

  /** The state after a call; a population is only begun for a LUN that can be served, as _choose4population sees to. */
  function Apply(s: Sce, c: Call): Sce {
    match c
    case AddLunCall(nrSctr, ctx) => AddLun(s, nrSctr, ctx).0
    case RmLunCall(m) => RmLun(s, m).0
    case AddCdevCall(nrSctr, ctx) => AddCdev(s, nrSctr, ctx).0
    case RmCdevCall(d) => RmCdev(s, d).0
    case Get4ReadCall(m, sctr, n) => Get4Read(s, m, sctr, n).0
    case Put4ReadCall(m, sctr, n) => Put4Read(s, m, sctr, n).0
    case InvalidateCall(m, sctr, n) => Invalidate(s, m, sctr, n).0
    case Get4PopCall(m, f) => if MissLog.IsValidIdx(s.luns, m) then Alloc(s, m, f).0 else s
    case Put4PopCall(ctx, f, failed) => Put4Pop(s, ctx, f, failed).0
  }

  function ApplyAll(s: Sce, calls: seq<Call>): Sce {
    if calls == [] then s else Apply(ApplyAll(s, calls[..|calls| - 1]), calls[|calls| - 1])
  }

  // ----- no call reaches the slot

  lemma StuckKept(s: Sce, t: Sce, l: nat)
    requires Stuck(s, l) && Keeps(s, t, l)
    ensures Stuck(t, l)
  {
  }

  lemma UnmapKeeps(s: Sce, m: nat, f: nat, l: nat)
    requires Stuck(s, l)
    ensures Keeps(s, Unmap(s, m, f), l)
  {
  }

  lemma {:induction false} UnmapUpToKeeps(s: Sce, m: nat, n: nat, l: nat)
    requires Stuck(s, l)
    ensures Keeps(s, UnmapUpTo(s, m, n), l)
  {
    hide Unmap;
    if n > 0 {
      UnmapUpToKeeps(s, m, n - 1, l);
      StuckKept(s, UnmapUpTo(s, m, n - 1), l);
      UnmapKeeps(UnmapUpTo(s, m, n - 1), m, n - 1, l);
    }
  }

  lemma PurgeKeeps(s: Sce, m: nat, l: nat)
    requires Stuck(s, l)
    ensures Keeps(s, Purge(s, m).0, l)
  {
    hide UnmapUpTo;
    if m < |s.luns| {
      UnmapUpToKeeps(s, m, |s.luns[m].fragmap|, l);
    }
  }

  lemma GcKeeps(s: Sce, m: nat, p: nat, l: nat)
    requires Stuck(s, l) && p in s.frags && m < |s.luns|
    ensures Keeps(s, Gc(s, m, p), l)
  {
    hide Unmap, Purge;
    UnmapKeeps(s, m, s.frags[p].fragnum, l);
    StuckKept(s, Unmap(s, m, s.frags[p].fragnum), l);
    PurgeKeeps(s, m, l);
    PurgeKeeps(Unmap(s, m, s.frags[p].fragnum), m, l);
  }

  lemma {:induction false} EvictLoopKeeps(s: Sce, i: nat, l: nat)
    requires Stuck(s, l)
    ensures Keeps(s, EvictLoop(s, i).0, l)
    decreases i
  {
    hide Unmap;
    if i > 0 {
      var (s1, at) := Advance(s);
      if at.Some? && at.value in s.frags {
        var fr := s.frags[at.value];
        if !Idle(fr) {
          EvictLoopKeeps(s1, i - 1, l);
        } else if fr.nrRef == 0 {
          UnmapKeeps(s1, fr.lunidx, fr.fragnum, l);
        } else {
          EvictLoopKeeps(SetFrag(s1, at.value, fr.(nrRef := fr.nrRef - 1)), i - 1, l);
        }
      }
    }
  }

  lemma AllocCallKeeps(s: Sce, m: nat, f: nat, l: nat)
    requires Stuck(s, l) && MissLog.IsValidIdx(s.luns, m)
    ensures Keeps(s, Alloc(s, m, f).0, l)
  {
    hide EvictLoop;
    EvictLoopKeeps(s, s.nrFrag * REFCEILING, l);
    assert Keeps(s, Reclaim(s).0, l);
    hide Reclaim;
  }

  lemma Put4ReadCallKeeps(s: Sce, m: nat, sctr: nat, n: nat, l: nat)
    requires Stuck(s, l)
    ensures Keeps(s, Put4Read(s, m, sctr, n).0, l)
  {
    hide Gc;
    if Put4Read(s, m, sctr, n).1 {
      var p := s.luns[m].fragmap[sctr / SCTRPERFRAG].data;
      var fr := s.frags[p];
      var s1 := SetService(SetFrag(s, p, fr.(nrService := fr.nrService - 1)), m, s.luns[m].nrService - 1);
      assert m != l && Keeps(s, s1, l);
      GcKeeps(s1, m, p, l);
    }
  }

  lemma {:induction false} InvalidateFromKeeps(s: Sce, m: nat, f: nat, off: nat, count: nat, l: nat)
    requires Stuck(s, l) && off < PAGEPERFRAG
    ensures Keeps(s, InvalidateFrom(s, m, f, off, count), l)
    decreases count
  {
    hide InvalidateOne;
    if count > 0 {
      var n := if PAGEPERFRAG - off > count then count else PAGEPERFRAG - off;
      var s1 := InvalidateOne(s, m, f, PageRange(off, n));
      InvalidateOneKeeps(s, m, f, PageRange(off, n), l);
      StuckKept(s, s1, l);
      InvalidateFromKeeps(s1, m, f + 1, 0, count - n, l);
    }
  }

  lemma InvalidateOneKeeps(s: Sce, m: nat, f: nat, pages: set<nat>, l: nat)
    requires Stuck(s, l)
    ensures Keeps(s, InvalidateOne(s, m, f, pages), l)
  {
    hide Gc;
    if IsMapped(s, m, f) && s.luns[m].fragmap[f].data in s.frags {
      var p := s.luns[m].fragmap[f].data;
      GcKeeps(SetFrag(s, p, InvalidatePages(s.frags[p], pages)), m, p, l);
    }
  }

  lemma CompleteCallKeeps(s: Sce, m: nat, f: nat, l: nat)
    requires Stuck(s, l)
    ensures Keeps(s, Complete(s, m, f).0, l)
  {
    hide Gc;
    if Complete(s, m, f).1 {
      var d := s.luns[m].fragmap[f];
      var fr := s.frags[d.data];
      var s1 := if d.valid then s else SetFrag(SetDesc(s, m, f, d.(valid := true)), d.data, fr.(nrService := 0));
      var s2 := SetService(s1, m, Dec32(s.luns[m].nrService));
      assert m != l && Keeps(s, s2, l);
      GcKeeps(s2, m, d.data, l);
    }
  }

  lemma CancelCallKeeps(s: Sce, m: nat, f: nat, l: nat)
    requires Stuck(s, l)
    ensures Keeps(s, Cancel(s, m, f).0, l)
  {
    hide Gc, Unmap;
    if IsMapped(s, m, f) && s.luns[m].fragmap[f].data in s.frags {
      var d := s.luns[m].fragmap[f];
      var s0 := SetFrag(s, d.data, s.frags[d.data].(nrService := 0));
      var s1 := Unmap(s0, m, f);
      assert m != l;
      UnmapKeeps(s0, m, f, l);
      StuckKept(s, s1, l);
      if m < |s1.luns| && d.data in s1.frags {
        var s2 := SetService(s1, m, Dec32(s1.luns[m].nrService));
        StuckKept(s1, s2, l);
        GcKeeps(s2, m, d.data, l);
      }
    }
  }

  lemma Put4PopCallKeeps(s: Sce, ctx: nat, f: nat, failed: bool, l: nat)
    requires Stuck(s, l)
    ensures Keeps(s, Put4Pop(s, ctx, f, failed).0, l)
  {
    hide Cancel, Complete;
    var m := LunSearch(s.luns, ctx, 0);
    if m.Some? {
      CancelCallKeeps(s, m.value, f, l);
      CompleteCallKeeps(s, m.value, f, l);
    }
  }

  lemma InvalidateCallKeeps(s: Sce, m: nat, sctr: nat, n: nat, l: nat)
    requires Stuck(s, l)
    ensures Keeps(s, Invalidate(s, m, sctr, n).0, l)
  {
    hide InvalidateFrom;
    if Admits(s, m, sctr, n, true) {
      var start := FirstPage(sctr);
      InvalidateFromKeeps(s, m, start / PAGEPERFRAG, start % PAGEPERFRAG, LastPage(sctr, n) - start + 1, l);
    }
  }

  lemma RmCdevCallKeeps(s: Sce, d: nat, l: nat)
    requires Stuck(s, l)
    ensures Keeps(s, RmCdev(s, d).0, l)
  {
    assert DropDevice(s.luns[l], s.frags, d) == s.luns[l];
    hide DropDevice;
  }

  lemma CallKeeps(s: Sce, c: Call, l: nat)
    requires Stuck(s, l)
    ensures Keeps(s, Apply(s, c), l)
  {
    hide RmCdev, Put4Read, Invalidate, Alloc, Put4Pop, Purge;
    match c {
      case RmLunCall(m) => PurgeKeeps(s, m, l);
      case RmCdevCall(d) => RmCdevCallKeeps(s, d, l);
      case Put4ReadCall(m, sctr, n) => Put4ReadCallKeeps(s, m, sctr, n, l);
      case InvalidateCall(m, sctr, n) => InvalidateCallKeeps(s, m, sctr, n, l);
      case Get4PopCall(m, f) => if MissLog.IsValidIdx(s.luns, m) { AllocCallKeeps(s, m, f, l); }
      case Put4PopCall(ctx, f, failed) => Put4PopCallKeeps(s, ctx, f, failed, l);
      case _ =>
    }
  }

  /** Whatever is called afterwards, a stuck LUN is never purged. */
  lemma {:induction false} StuckForEver(s: Sce, calls: seq<Call>, l: nat)
    requires Stuck(s, l)
    ensures Keeps(s, ApplyAll(s, calls), l)
  {
    hide Apply;
    if calls != [] {
      var before := ApplyAll(s, calls[..|calls| - 1]);
      StuckForEver(s, calls[..|calls| - 1], l);
      StuckKept(s, before, l);
      CallKeeps(before, calls[|calls| - 1], l);
    }
  }

  // ----- a removal that leaves a LUN stuck

  /** One device, a population of a LUN of one fragment in progress. */
  lemma BusyDevice()
    ensures var s := Alloc(AddLun(AddCdev(Create(), 2048, 1).0, 2048, 1).0, 0, 0).0;
            Boundary(s) && Holes.Single(s, Pfid(0, 0), false, 1) && s.cdevs == Create().cdevs[0 := Cdev(true, 1, 1)]
  {
    hide Boundary, AddCdev, AddLun, Alloc, Pfid, Preservation.Shrinks, CtxUsed, NewLunOk;
    CreateOk();
    Holes.EmptyEngine();
    Holes.OneFragmentDevice(Create(), 0, 1);
    var s0 := AddCdev(Create(), 2048, 1).0;
    Holes.FirstLun(s0);
    AddLunKeeps(s0, 2048, 1);
    var s1 := AddLun(s0, 2048, 1).0;
    Holes.BeginOne(s1, Pfid(0, 0));
  }

  /** The device is removed during the population: the LUN's count stays at one with nothing left to give it back. The
      put that answers the population is refused, and once the LUN is to be deleted no sequence of calls ever purges
      it. */
  lemma BusyRemoval(failed: bool, calls: seq<Call>)
    ensures var s := Alloc(AddLun(AddCdev(Create(), 2048, 1).0, 2048, 1).0, 0, 0).0;
            var (s1, ok) := RmCdev(s, 0);
            var s2 := RmLun(s1, 0).0;
            && Boundary(s) && !DeviceIdle(s, 0) && ok && !Boundary(s1)
            && Put4Pop(s2, 1, 0, failed) == (s2, false)
            && Stuck(s2, 0) && Keeps(s2, ApplyAll(s2, calls), 0)
  {
    hide Boundary, AddCdev, AddLun, Alloc, Pfid, ApplyAll;
    BusyDevice();
    var s := Alloc(AddLun(AddCdev(Create(), 2048, 1).0, 2048, 1).0, 0, 0).0;
    Clock.PfidParts(0, 0);
    RemovedBusy(s, Pfid(0, 0), failed);
    StuckForEver(RmLun(RmCdev(s, 0).0, 0).0, calls, 0);
  }

  lemma RemovedBusy(s: Sce, p: nat, failed: bool)
    requires Boundary(s) && Holes.Single(s, p, false, 1) && Dev(p) == 0 && 0 < |s.cdevs| && s.cdevs[0].present
    ensures var (s1, ok) := RmCdev(s, 0);
            var s2 := RmLun(s1, 0).0;
            !DeviceIdle(s, 0) && ok && !Boundary(s1) && Put4Pop(s2, 1, 0, failed) == (s2, false) && Stuck(s2, 0)
  {
    hide Boundary, DeviceIdle, Purge, OffDevice, Dev, Preservation.Shrinks;
    RmCdevKeeps(s, 0);
    NotIdle(s, p);
    var s1 := RmCdev(s, 0).0;
    assert s1.luns[0] == DropDevice(s.luns[0], s.frags, 0);
    hide RmCdev;
    var s2 := RmLun(s1, 0).0;
    assert LunSearch(s2.luns, 1, 0) == Some(0);
  }

  lemma NotIdle(s: Sce, p: nat)
    requires Holes.Single(s, p, false, 1) && Dev(p) == 0
    ensures !DeviceIdle(s, 0)
  {
    assert MappedTo(s, 0, 0, p);
  }
}
