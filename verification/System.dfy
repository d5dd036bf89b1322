// The engine between its disks: reads in flight, populations copying page by page, writes, evictions, deletions.

module System {
  import opened Words
  import opened SceState
  import opened Invariants
  import opened Preservation
  import opened Population
  import opened Configuration

  // ----- state

  /** A read that hit: the request, the fragment it was sent to, and the disk pages when it hit. */
  datatype ReadToken = ReadToken(lun: nat, sctr: nat, n: nat, pfid: nat, seen: map<nat, int>)

  /** A population: its target, the buffer pages read so far and the cache pages written so far. */
  datatype PopTask = PopTask(lun: nat, ctx: nat, fragnum: nat, pfid: nat, buffer: map<nat, int>, written: set<nat>)

  /** Page contents are integers. A disk page is addressed by LUN context and page number, a cache page by physical
      fragment and page within it. */
  datatype Sys = Sys(sce: Sce, hdd: (nat, nat) -> int, ssd: (nat, nat) -> int,
                     inflight: map<nat, ReadToken>, pops: map<nat, PopTask>)

  datatype Event =
    | EvAddLun(nrSctr: nat, ctx: nat)
    | EvRmLun(l: nat)
    | EvAddCdev(nrSctr: nat, ctx: nat)
    | EvRmCdev(d: nat)
    | EvGet(id: nat, l: nat, sctr: nat, n: nat)
    | EvPut(id: nat)
    | EvWrite(l: nat, sctr: nat, n: nat)
    | EvBypass(ctx: nat)
    | EvGetPop(id: nat, l: nat, f: nat)
    | EvCopyIn(id: nat, q: nat)
    | EvCopyOut(id: nat, q: nat)
    | EvPutPop(id: nat, failed: bool)

  function FragOf(sctr: nat): nat { FirstPage(sctr) / PAGEPERFRAG }

  /** The disk pages a read asks for. */
  function Snapshot(hdd: (nat, nat) -> int, ctx: nat, sctr: nat, n: nat): map<nat, int>
    requires n > 0
  {
    map g: nat | FirstPage(sctr) <= g < LastPage(sctr, n) + 1 :: hdd(ctx, g)
  }

  /** Every page wholly inside the LUN has been read. */
  predicate Filled(t: PopTask, nrSctr: nat) {
    forall q: nat :: q < PAGEPERFRAG && !BeyondEnd(nrSctr, t.fragnum, q) ==> q in t.buffer
  }

  ghost predicate SameBut(a: (nat, nat) -> int, b: (nat, nat) -> int, x: nat, first: nat, last: int) {
    forall y: nat, g: nat :: !(y == x && first <= g <= last) ==> b(y, g) == a(y, g)
  }

  ghost predicate SameElsewhere(a: (nat, nat) -> int, b: (nat, nat) -> int, x: nat) {
    forall y: nat, g: nat :: y != x ==> b(y, g) == a(y, g)
  }

  /** One step. Calls of the engine are atomic, and so is a disk write together with its sce_invalidate. */
  ghost predicate Next(s: Sys, e: Event, t: Sys) {
    match e
    case EvAddLun(nrSctr, ctx) =>
      && NewLunOk(s.sce, nrSctr, ctx)
      && t == s.(sce := AddLun(s.sce, nrSctr, ctx).0)
    case EvRmLun(l) =>
      t == s.(sce := RmLun(s.sce, l).0)
    case EvAddCdev(nrSctr, ctx) =>
      var (sce, got) := AddCdev(s.sce, nrSctr, ctx);
      && nrSctr / SCTRPERFRAG <= OFFSPACE
      && t == s.(sce := sce, ssd := t.ssd)
      && forall p: nat, q: nat :: !(got.Some? && Dev(p) == got.value) ==> t.ssd(p, q) == s.ssd(p, q)
    case EvRmCdev(d) =>
      && d < |s.sce.cdevs| && s.sce.cdevs[d].present && DeviceIdle(s.sce, d)
      && t == s.(sce := RmCdev(s.sce, d).0)
    case EvGet(id, l, sctr, n) =>
      var (sce, hit) := Get4Read(s.sce, l, sctr, n);
      && id !in s.inflight
      && t == s.(sce := sce, inflight := if hit.None? || l >= |s.sce.luns| || n == 0 then s.inflight else
                   s.inflight[id := ReadToken(l, sctr, n, hit.value, Snapshot(s.hdd, s.sce.luns[l].ctx, sctr, n))])
    case EvPut(id) =>
      && id in s.inflight
      && var k := s.inflight[id];
         t == s.(sce := Put4Read(s.sce, k.lun, k.sctr, k.n).0, inflight := s.inflight - {id})
    case EvWrite(l, sctr, n) =>
      && t == s.(sce := Invalidate(s.sce, l, sctr, n).0, hdd := t.hdd)
      && if l < |s.sce.luns| && s.sce.luns[l].present && n > 0 && sctr + n <= s.sce.luns[l].nrSctr
         then SameBut(s.hdd, t.hdd, s.sce.luns[l].ctx, sctr / SCTRPERPAGE, (sctr + n - 1) / SCTRPERPAGE)
         else t.hdd == s.hdd
    case EvBypass(ctx) =>
      && (forall l ::
              0 <= l < |s.sce.luns| && s.sce.luns[l].present && s.sce.luns[l].ctx == ctx ==> s.sce.luns[l].waiting)
      && t == s.(hdd := t.hdd) && SameElsewhere(s.hdd, t.hdd, ctx)
    case EvGetPop(id, l, f) =>
      var (sce, got) := Alloc(s.sce, l, f);
      && id !in s.pops
      && t == s.(sce := sce, pops := if got.None? || l >= |s.sce.luns| then s.pops else
                   s.pops[id := PopTask(l, s.sce.luns[l].ctx, f, got.value, map[], {})])
    case EvCopyIn(id, q) =>
      && id in s.pops && s.pops[id].lun < |s.sce.luns| && q < PAGEPERFRAG
      && var k := s.pops[id];
         && !BeyondEnd(s.sce.luns[k.lun].nrSctr, k.fragnum, q)
         && t == s.(pops := s.pops[id := k.(buffer := k.buffer[q := s.hdd(k.ctx, k.fragnum * PAGEPERFRAG + q)])])
    case EvCopyOut(id, q) =>
      && id in s.pops && s.pops[id].lun < |s.sce.luns| && q < PAGEPERFRAG
      && var k := s.pops[id];
         && Filled(k, s.sce.luns[k.lun].nrSctr)
         && t == s.(ssd := t.ssd, pops := s.pops[id := k.(written := k.written + {q})])
         && SameBut(s.ssd, t.ssd, k.pfid, q, q)
         && (q in k.buffer ==> t.ssd(k.pfid, q) == k.buffer[q])
    case EvPutPop(id, failed) =>
      && id in s.pops
      && var k := s.pops[id];
         && (!failed ==> forall q: nat :: q < PAGEPERFRAG ==> q in k.written)
         && t == s.(sce := Put4Pop(s.sce, k.ctx, k.fragnum, failed).0, pops := s.pops - {id})
  }

  ghost predicate Init(s: Sys) { s.sce == Create() && s.inflight == map[] && s.pops == map[] }

  // ----- invariant

  function ReadsOn(inflight: map<nat, ReadToken>, p: nat): set<nat>
      { set id | id in inflight && inflight[id].pfid == p }

  function PopsOn(pops: map<nat, PopTask>, p: nat): set<nat> { set id | id in pops && pops[id].pfid == p }

  /** A read in flight points at a readable mapped fragment whose pages are what the disk held when it hit. */
  ghost predicate ReadOk(s: Sys, k: ReadToken) {
    && k.n > 0 && OneFragment(k.sctr, k.n) && k.lun < |s.sce.luns| && k.sctr + k.n <= s.sce.luns[k.lun].nrSctr
    && MappedTo(s.sce, k.lun, FragOf(k.sctr), k.pfid) && s.sce.luns[k.lun].fragmap[FragOf(k.sctr)].valid
    && forall g: nat :: FirstPage(k.sctr) <= g <= LastPage(k.sctr, k.n) ==>
         g in k.seen && s.ssd(k.pfid, g % PAGEPERFRAG) == k.seen[g]
  }

  /** A population points at an unreadable mapped fragment; its valid pages already copied equal the disk. */
  ghost predicate PopOk(s: Sys, k: PopTask) {
    && Populating(s.sce, k.lun, k.fragnum, k.pfid) && s.sce.luns[k.lun].ctx == k.ctx
    && (!s.sce.luns[k.lun].waiting ==>
          forall q: nat :: q < PAGEPERFRAG && q !in s.sce.frags[k.pfid].invalid ==>
            && (q in k.buffer ==> k.buffer[q] == s.hdd(k.ctx, k.fragnum * PAGEPERFRAG + q))
            && (q in k.written ==> s.ssd(k.pfid, q) == s.hdd(k.ctx, k.fragnum * PAGEPERFRAG + q)))
  }

  /** Each mapped fragment is in service for exactly its outstanding tokens. */
  ghost predicate Counts(s: Sys) {
    forall l: nat, f: nat, p: nat :: MappedTo(s.sce, l, f, p) ==>
      p in s.sce.frags && s.sce.frags[p].nrService == |ReadsOn(s.inflight, p)| + |PopsOn(s.pops, p)|
  }

  /** Valid pages of readable fragments of a LUN in service equal the disk. */
  ghost predicate Coherent(s: Sys) {
    forall l: nat, f: nat, p: nat, q: nat ::
      MappedTo(s.sce, l, f, p) && p in s.sce.frags && s.sce.luns[l].fragmap[f].valid && !s.sce.luns[l].waiting
      && q < PAGEPERFRAG && q !in s.sce.frags[p].invalid ==>
        s.ssd(p, q) == s.hdd(s.sce.luns[l].ctx, f * PAGEPERFRAG + q)
  }

  ghost predicate Tokens(s: Sys) {
    && (forall id :: id in s.inflight ==> ReadOk(s, s.inflight[id]))
    && (forall id :: id in s.pops ==> PopOk(s, s.pops[id]))
    && Counts(s) && Coherent(s)
  }

  ghost predicate Inv(s: Sys) { Boundary(s.sce) && Tokens(s) }

  // ----- steps that only drop idle mappings

  lemma ReadBusy(s: Sys, id: nat)
    requires Counts(s) && id in s.inflight && ReadOk(s, s.inflight[id])
    ensures s.inflight[id].pfid in s.sce.frags && s.sce.frags[s.inflight[id].pfid].nrService > 0
  {
    var p := s.inflight[id].pfid;
    assert MappedTo(s.sce, s.inflight[id].lun, FragOf(s.inflight[id].sctr), p);
    assert id in ReadsOn(s.inflight, p);
  }

  lemma PopBusy(s: Sys, id: nat)
    requires Counts(s) && id in s.pops && PopOk(s, s.pops[id])
    ensures s.pops[id].pfid in s.sce.frags && s.sce.frags[s.pops[id].pfid].nrService > 0
  {
    var k := s.pops[id];
    assert MappedTo(s.sce, k.lun, k.fragnum, k.pfid);
    assert id in PopsOn(s.pops, k.pfid);
  }

  lemma ReadShrinks(s: Sys, t: Sys, k: ReadToken)
    requires ReadOk(s, k) && Shrinks(s.sce, t.sce) && k.pfid in s.sce.frags && s.sce.frags[k.pfid].nrService > 0
    requires forall q: nat :: t.ssd(k.pfid, q) == s.ssd(k.pfid, q)
    requires forall l :: 0 <= l < |t.sce.luns| && !t.sce.luns[l].present ==> t.sce.luns[l].fragmap == []
    ensures ReadOk(t, k)
  {
    assert MappedTo(t.sce, k.lun, FragOf(k.sctr), k.pfid);
    assert KeptLun(s.sce.luns[k.lun], t.sce.luns[k.lun]);
  }

  lemma PopShrinks(s: Sys, t: Sys, k: PopTask)
    requires PopOk(s, k) && Shrinks(s.sce, t.sce) && s.sce.frags[k.pfid].nrService > 0
    requires t.hdd == s.hdd && forall q: nat :: t.ssd(k.pfid, q) == s.ssd(k.pfid, q)
    requires forall l :: 0 <= l < |t.sce.luns| && !t.sce.luns[l].present ==> t.sce.luns[l].fragmap == []
    ensures PopOk(t, k)
  {
    assert MappedTo(t.sce, k.lun, k.fragnum, k.pfid);
    assert KeptLun(s.sce.luns[k.lun], t.sce.luns[k.lun]);
  }

  lemma CoherentShrinks(s: Sys, t: Sys)
    requires Coherent(s) && Shrinks(s.sce, t.sce) && t.hdd == s.hdd && Shape(t.sce)
    requires forall l: nat, f: nat, p: nat, q: nat :: MappedTo(s.sce, l, f, p) ==> t.ssd(p, q) == s.ssd(p, q)
    ensures Coherent(t)
  {
    EmptySlots(t.sce);
    hide Shape;
    forall l: nat, f: nat, p: nat, q: nat |
      MappedTo(t.sce, l, f, p) && p in t.sce.frags && t.sce.luns[l].fragmap[f].valid && !t.sce.luns[l].waiting
      && q < PAGEPERFRAG && q !in t.sce.frags[p].invalid
      ensures t.ssd(p, q) == t.hdd(t.sce.luns[l].ctx, f * PAGEPERFRAG + q)
    {
      assert MappedTo(s.sce, l, f, p);
      assert KeptLun(s.sce.luns[l], t.sce.luns[l]);
    }
  }

  lemma CountsShrinks(s: Sys, t: Sys)
    requires Counts(s) && Shrinks(s.sce, t.sce) && t.inflight == s.inflight && t.pops == s.pops
    ensures Counts(t)
  {
    forall l: nat, f: nat, p: nat | MappedTo(t.sce, l, f, p)
      ensures p in t.sce.frags && t.sce.frags[p].nrService == |ReadsOn(t.inflight, p)| + |PopsOn(t.pops, p)|
    {
      assert MappedTo(s.sce, l, f, p);
    }
  }

  /** Dropping idle mappings and invalidating pages disturbs no token. */
  lemma TokensShrink(s: Sys, t: Sys)
    requires Tokens(s) && Shrinks(s.sce, t.sce) && Shape(t.sce)
    requires t == s.(sce := t.sce, ssd := t.ssd)
    requires forall l: nat, f: nat, p: nat, q: nat :: MappedTo(s.sce, l, f, p) ==> t.ssd(p, q) == s.ssd(p, q)
    ensures Tokens(t)
  {
    hide Shape, Shrinks, Counts, Coherent;
    EmptySlots(t.sce);
    CoherentShrinks(s, t);
    CountsShrinks(s, t);
    forall id | id in t.inflight ensures ReadOk(t, t.inflight[id]) {
      ReadBusy(s, id);
      ReadShrinks(s, t, s.inflight[id]);
    }
    forall id | id in t.pops ensures PopOk(t, t.pops[id]) {
      PopBusy(s, id);
      PopShrinks(s, t, s.pops[id]);
    }
  }
}
