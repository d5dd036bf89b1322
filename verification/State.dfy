// The cache engine's state and its calls, each one atomic step on values.

module SceState {
  import opened Arithmetic
  import opened Words

  const MAXCDEV: nat := 16
  const MAXLUN: nat := 256
  const REFCEILING: nat := 4
  const MISSLOGSIZE: nat := 1024
  const PAGEPERFRAG: nat := 256
  const SCTRPERPAGE: nat := 8
  const SCTRPERFRAG: nat := 2048
  const WITHINFREELIST: nat := 0xffff_ffff
  const UNLISTED: nat := 0xffff_fffe // FRAGNUM_FREE

  datatype Option<+T> = None | Some(value: T)

  /** A physical fragment. The page bitmap is the set of invalid pages. */
  datatype Frag = Frag(lunidx: nat, fragnum: nat, invalid: set<nat>, nrValid: int,
                       nrService: nat, nrHit: nat, nrMiss: nat, nrRef: nat)

  datatype Cdev = Cdev(present: bool, ctx: nat, nrFrag: nat)

  datatype Lun = Lun(present: bool, ctx: nat, nrSctr: nat, fragmap: seq<Word>, nrService: nat, waiting: bool)

  datatype LogEntry = LogEntry(lunidx: nat, fragnum: nat)

  /** The engine. `free` is the free list from its head, `log` the miss log from the newest entry. */
  datatype Sce = Sce(cdevs: seq<Cdev>, nrCdev: nat, luns: seq<Lun>, nrLun: nat, nrFrag: nat,
                     free: seq<nat>, frags: map<nat, Frag>, arm: nat,
                     nrHit: nat, nrMiss: nat, nrEviction: nat, log: seq<LogEntry>)

  const EMPTYCDEV := Cdev(false, 0, 0)
  const EMPTYLUN := Lun(false, 0, 0, [], 0, false)

  /** sce_create. */
  function Create(): Sce {
    Sce(seq(MAXCDEV, _ => EMPTYCDEV), 0, seq(MAXLUN, _ => EMPTYLUN), 0, 0, [], map[], 0, 0, 0, 0, [])
  }

  // ----- geometry of a request

  function FirstPage(sctr: nat): nat { sctr / SCTRPERPAGE }

  function LastPage(sctr: nat, n: nat): nat
    requires n > 0
  {
    (sctr + n - 1) / SCTRPERPAGE
  }

  predicate InRun(first: nat, count: nat, q: nat) { first <= q < first + count }

  function PageRange(first: nat, count: nat): (r: set<nat>) {
    set q: nat | q < first + count && InRun(first, count, q)
  }

  /** Page `q` of fragment `f` is one of the LUN pages first..last. */
  predicate Touches(f: nat, first: nat, last: int, q: nat) { first <= f * PAGEPERFRAG + q <= last }

  /** The pages of fragment `f` among the LUN pages first..last. */
  function TouchedPages(f: nat, first: nat, last: int): set<nat> {
    set q: nat | q < PAGEPERFRAG && Touches(f, first, last, q)
  }

  /** How many pages _map_frag marks invalid at the end of the last fragment. */
  function TailCount(nrSctr: nat, nrFrag: nat, f: nat): nat {
    var whole := nrFrag * SCTRPERFRAG;
    if f + 1 == nrFrag && nrSctr < whole then (whole - nrSctr + SCTRPERPAGE - 1) / SCTRPERPAGE else 0
  }

  // ----- tables

  /** Entry `f` of LUN `l` is mapped to physical fragment `p`. */
  predicate MappedTo(s: Sce, l: nat, f: nat, p: nat) {
    && l < |s.luns| && f < |s.luns[l].fragmap|
    && s.luns[l].fragmap[f].mapped && s.luns[l].fragmap[f].data == p
  }

  predicate IsMapped(s: Sce, l: nat, f: nat) {
    l < |s.luns| && f < |s.luns[l].fragmap| && s.luns[l].fragmap[f].mapped
  }

  function SetDesc(s: Sce, l: nat, f: nat, w: Word): Sce
    requires l < |s.luns| && f < |s.luns[l].fragmap|
  {
    s.(luns := s.luns[l := s.luns[l].(fragmap := s.luns[l].fragmap[f := w])])
  }

  function SetService(s: Sce, l: nat, n: nat): Sce
    requires l < |s.luns|
  {
    s.(luns := s.luns[l := s.luns[l].(nrService := n)])
  }

  function SetFrag(s: Sce, p: nat, fr: Frag): Sce {
    s.(frags := s.frags[p := fr])
  }

  /** Decrement of a 32-bit counter. */
  function Dec32(n: nat): nat { if n == 0 then WORDSPACE - 1 else n - 1 }

  function LogPut(log: seq<LogEntry>, e: LogEntry): seq<LogEntry> {
    if |log| < MISSLOGSIZE then [e] + log else ([e] + log)[..MISSLOGSIZE]
  }

  // ----- mapping

  predicate Unmappable(s: Sce, l: nat, f: nat) {
    && IsMapped(s, l, f)
    && var p := s.luns[l].fragmap[f].data;
       p in s.frags && s.frags[p].nrService == 0 && s.frags[p].fragnum != WITHINFREELIST
  }

  /** _unmap_frag: nothing happens unless the entry is mapped to an idle fragment. */
  function Unmap(s: Sce, l: nat, f: nat): Sce {
    if !Unmappable(s, l, f) then s else
      var p := s.luns[l].fragmap[f].data;
      var fr := s.frags[p];
      SetDesc(SetFrag(s, p, fr.(fragnum := WITHINFREELIST)), l, f, Heat(fr.nrMiss)).(free := [p] + s.free)
  }

  /** A just mapped fragment, pinned by the population that asked for it. */
  function NewFrag(l: nat, f: nat, tail: nat): Frag
    requires tail <= PAGEPERFRAG
  {
    Frag(l, f, PageRange(PAGEPERFRAG - tail, tail), PAGEPERFRAG - tail, 1, 0, 0, 0)
  }

  /** Map entry `f` to the head of the free list and pin it (_map_frag and the counters after it). */
  function MapHead(s: Sce, l: nat, f: nat): Sce
    requires l < |s.luns| && f < |s.luns[l].fragmap| && s.free != [] && s.free[0] < DATASPACE
    requires TailCount(s.luns[l].nrSctr, |s.luns[l].fragmap|, f) <= PAGEPERFRAG
  {
    var lun := s.luns[l];
    var p := s.free[0];
    var s1 := SetFrag(s, p, NewFrag(l, f, TailCount(lun.nrSctr, |lun.fragmap|, f)));
    SetService(SetDesc(s1, l, f, Word(true, false, 0, p)), l, lun.nrService + 1).(free := s.free[1..])
  }

  // ----- eviction

  function Arm(dev: nat, off: nat): nat { Pfid(dev, off) }

  /** The device and the offset an arm value stands for. */
  function ArmDev(arm: nat, nrCdev: nat): (d: nat)
    requires nrCdev > 0
    ensures d < nrCdev
  {
    Phase(Dev(arm) % DEVSPACE, nrCdev)
  }

  function ArmOff(arm: nat, n: nat): (o: nat)
    requires n > 0
    ensures o < n
  {
    Phase(Off(arm), n)
  }

  /** _get_frag_advance_clockarm. */
  function Advance(s: Sce): (Sce, Option<nat>) {
    if s.nrCdev == 0 || |s.cdevs| < s.nrCdev then (s, None) else
      var dev := ArmDev(s.arm, s.nrCdev);
      var n := s.cdevs[dev].nrFrag;
      if n == 0 then (s.(arm := Arm(dev + 1, Off(s.arm))), None) else
        var off := ArmOff(s.arm, n);
        (s.(arm := if off + 1 >= n then Arm(dev + 1, 0) else Arm(dev, off + 1)), Some(Pfid(dev, off)))
  }

  predicate Idle(fr: Frag) { fr.fragnum < UNLISTED && fr.nrService == 0 }

  /** The counted loop of _evict_frag with `i` iterations left. */
  function EvictLoop(s: Sce, i: nat): (Sce, bool)
    decreases i
  {
    if i == 0 then (s, false) else
      var (s1, at) := Advance(s);
      if at.None? || at.value !in s.frags then (s1, false) else
        var fr := s.frags[at.value];
        if !Idle(fr) then EvictLoop(s1, i - 1)
        else if fr.nrRef == 0 then (Unmap(s1, fr.lunidx, fr.fragnum), true)
        else EvictLoop(SetFrag(s1, at.value, fr.(nrRef := fr.nrRef - 1)), i - 1)
  }

  /** _evict_frag. */
  function Evict(s: Sce): (Sce, bool) {
    if |s.free| < s.nrFrag then EvictLoop(s, s.nrFrag * REFCEILING) else (s, false)
  }

  // ----- LUN life cycle

  function UnmapUpTo(s: Sce, l: nat, n: nat): Sce {
    if n == 0 then s else Unmap(UnmapUpTo(s, l, n - 1), l, n - 1)
  }

  /** _lun_purge. */
  function Purge(s: Sce, l: nat): (Sce, bool) {
    if l < |s.luns| && s.luns[l].present && s.luns[l].nrService == 0 && s.nrLun > 0 then
      var s1 := UnmapUpTo(s, l, |s.luns[l].fragmap|);
      (s1.(luns := if l < |s1.luns| then s1.luns[l := EMPTYLUN] else s1.luns, nrLun := s.nrLun - 1), true)
    else
      (s, false)
  }

  /** _lun_gc, called with fragment `p` of LUN `l`. */
  function Gc(s: Sce, l: nat, p: nat): Sce
    requires p in s.frags && l < |s.luns|
  {
    var fr := s.frags[p];
    var s1 := if fr.nrService == 0 && fr.nrValid == 0 then Unmap(s, l, fr.fragnum) else s;
    if s1.luns[l].waiting && s1.luns[l].nrService == 0 then Purge(s1, l).0 else s1
  }

  // ----- reads

  /** The argument check shared by the I/O calls. */
  predicate Admits(s: Sce, l: nat, sctr: nat, n: nat, serviceable: bool) {
    && l < |s.luns| && s.luns[l].present && n > 0 && sctr + n <= s.luns[l].nrSctr
    && (serviceable ==> !s.luns[l].waiting)
  }

  predicate OneFragment(sctr: nat, n: nat)
    requires n > 0
  {
    FirstPage(sctr) % PAGEPERFRAG + (LastPage(sctr, n) - FirstPage(sctr) + 1) <= PAGEPERFRAG
  }

  function Miss(s: Sce, l: nat, f: nat): Sce {
    s.(nrMiss := s.nrMiss + 1, log := LogPut(s.log, LogEntry(l, f)))
  }

  /** The read at fragment `f` of LUN `l` is served by fragment `p`. */
  predicate Hits(s: Sce, l: nat, f: nat, pages: set<nat>, p: nat) {
    && MappedTo(s, l, f, p) && s.luns[l].fragmap[f].valid
    && p in s.frags && pages !! s.frags[p].invalid
  }

  /** What sce_get4read does to the entry of its fragment and to the fragment. */
  function FragmentRead(s: Sce, l: nat, f: nat, pages: set<nat>): (Sce, Option<nat>)
    requires l < |s.luns| && f < |s.luns[l].fragmap|
    requires s.luns[l].fragmap[f].mapped ==> s.luns[l].fragmap[f].data in s.frags
  {
    var d := s.luns[l].fragmap[f];
    if !d.mapped then (Miss(SetDesc(s, l, f, Inc(d)), l, f), None) else
      var fr := s.frags[d.data];
      if d.valid && pages !! fr.invalid then
        var ref := if fr.nrRef < REFCEILING then fr.nrRef + 1 else fr.nrRef;
        var s1 := SetFrag(s, d.data, fr.(nrHit := fr.nrHit + 1, nrService := fr.nrService + 1, nrRef := ref));
        (SetService(s1, l, s.luns[l].nrService + 1).(nrHit := s.nrHit + 1), Some(d.data))
      else
        (Miss(SetFrag(s, d.data, fr.(nrMiss := fr.nrMiss + 1)), l, f), None)
  }

  /** sce_get4read: on a hit, the physical fragment that holds the data. */
  function Get4Read(s: Sce, l: nat, sctr: nat, n: nat): (Sce, Option<nat>) {
    if !Admits(s, l, sctr, n, true) || !OneFragment(sctr, n) then (s, None) else
      var f := FirstPage(sctr) / PAGEPERFRAG;
      if f >= |s.luns[l].fragmap| || (s.luns[l].fragmap[f].mapped && s.luns[l].fragmap[f].data !in s.frags)
          then (s, None)
      else FragmentRead(s, l, f, TouchedPages(f, FirstPage(sctr), LastPage(sctr, n)))
  }

  /** sce_put4read. */
  function Put4Read(s: Sce, l: nat, sctr: nat, n: nat): (Sce, bool) {
    if !Admits(s, l, sctr, n, false) then (s, false) else
      var f := sctr / SCTRPERFRAG;
      if (sctr + n - 1) / SCTRPERFRAG != f || f >= |s.luns[l].fragmap| then (s, false) else
        var d := s.luns[l].fragmap[f];
        if !d.mapped || !d.valid || d.data !in s.frags then (s, false) else
          var fr := s.frags[d.data];
          if fr.nrService == 0 || s.luns[l].nrService == 0 then (s, false) else
            var s1 := SetService(SetFrag(s, d.data, fr.(nrService := fr.nrService - 1)), l, s.luns[l].nrService - 1);
            (if fr.nrService == 1 then Gc(s1, l, d.data) else s1, true)
  }

  // ----- invalidation

  /** _frag_invalidate on a set of pages of one fragment. */
  function InvalidatePages(fr: Frag, pages: set<nat>): Frag {
    fr.(invalid := fr.invalid + pages, nrValid := fr.nrValid - |pages - fr.invalid|)
  }

  /** The body of the loop of sce_invalidate for one fragment. */
  function InvalidateOne(s: Sce, l: nat, f: nat, pages: set<nat>): Sce {
    if !IsMapped(s, l, f) || s.luns[l].fragmap[f].data !in s.frags then s else
      var d := s.luns[l].fragmap[f];
      var s1 := SetFrag(s, d.data, InvalidatePages(s.frags[d.data], pages));
      if d.valid then Gc(s1, l, d.data) else s1
  }

  /** The loop of sce_invalidate with `count` pages left, the next one at page `off` of fragment `f`. */
  function InvalidateFrom(s: Sce, l: nat, f: nat, off: nat, count: nat): Sce
    requires off < PAGEPERFRAG
    decreases count
  {
    if count == 0 then s else
      var n := if PAGEPERFRAG - off > count then count else PAGEPERFRAG - off;
      InvalidateFrom(InvalidateOne(s, l, f, PageRange(off, n)), l, f + 1, 0, count - n)
  }

  /** sce_invalidate. */
  function Invalidate(s: Sce, l: nat, sctr: nat, n: nat): (Sce, bool) {
    if !Admits(s, l, sctr, n, true) then (s, false) else
      var start := FirstPage(sctr);
      (InvalidateFrom(s, l, start / PAGEPERFRAG, start % PAGEPERFRAG, LastPage(sctr, n) - start + 1), true)
  }

  // ----- population

  /** The allocation loop of _alloc4population: make the free list non-empty if that is possible. */
  function Reclaim(s: Sce): (Sce, bool) {
    if s.free != [] then (s, true) else
      var (s1, ok) := Evict(s);
      (if ok then s1.(nrEviction := s1.nrEviction + 1) else s1, ok)
  }

  /** _alloc4population. A fragment that cannot be mapped goes back to the head of the free list. */
  function Alloc(s: Sce, l: nat, f: nat): (Sce, Option<nat>) {
    if l >= |s.luns| || !s.luns[l].present || f >= |s.luns[l].fragmap| then (s, None) else
      var (s1, ok) := Reclaim(s);
      if !ok || s1.free == [] || s1.free[0] >= DATASPACE || l >= |s1.luns| || f >= |s1.luns[l].fragmap|
      then (s1, None)
      else if s1.luns[l].fragmap[f].mapped || TailCount(s1.luns[l].nrSctr, |s1.luns[l].fragmap|, f) > PAGEPERFRAG
          then (s1, None)
      else (MapHead(s1, l, f), Some(s1.free[0]))
  }

  /** _complete_population. */
  function Complete(s: Sce, l: nat, f: nat): (Sce, bool) {
    if !IsMapped(s, l, f) || s.luns[l].fragmap[f].data !in s.frags then (s, false) else
      var d := s.luns[l].fragmap[f];
      var fr := s.frags[d.data];
      if !d.valid && fr.nrService != 1 then (s, false) else
        var s1 := if d.valid then s else SetFrag(SetDesc(s, l, f, d.(valid := true)), d.data, fr.(nrService := 0));
        (Gc(SetService(s1, l, Dec32(s.luns[l].nrService)), l, d.data), true)
  }

  /** _cancel_population; there is never a secondary fragment. */
  function Cancel(s: Sce, l: nat, f: nat): (Sce, bool) {
    if !IsMapped(s, l, f) || s.luns[l].fragmap[f].data !in s.frags then (s, false) else
      var d := s.luns[l].fragmap[f];
      var fr := s.frags[d.data];
      if d.valid || fr.nrService != 1 then (s, false) else
        var s1 := Unmap(SetFrag(s, d.data, fr.(nrService := 0)), l, f);
        if l >= |s1.luns| || d.data !in s1.frags then (s1, false) else
          (Gc(SetService(s1, l, Dec32(s1.luns[l].nrService)), l, d.data), true)
  }

  /** _lun_search: the first slot with this context. */
  function LunSearch(luns: seq<Lun>, ctx: nat, i: nat): (r: Option<nat>)
    ensures r.Some? ==> i <= r.value < |luns| && luns[r.value].ctx == ctx
    ensures r.Some? ==> forall j :: i <= j < r.value ==> luns[j].ctx != ctx
    ensures r.None? ==> forall j :: i <= j < |luns| ==> luns[j].ctx != ctx
    decreases |luns| - i
  {
    if i >= |luns| then None else if luns[i].ctx == ctx then Some(i) else LunSearch(luns, ctx, i + 1)
  }

  /** sce_put4pop. */
  function Put4Pop(s: Sce, ctx: nat, f: nat, failed: bool): (Sce, bool) {
    var l := LunSearch(s.luns, ctx, 0);
    if l.None? then (s, false) else if failed then Cancel(s, l.value, f) else Complete(s, l.value, f)
  }

  // ----- configuration

  function FindCdev(cdevs: seq<Cdev>, i: nat): (d: nat)
    requires i <= |cdevs|
    ensures i <= d <= |cdevs|
    ensures d < |cdevs| ==> !cdevs[d].present
    ensures forall e :: i <= e < d ==> cdevs[e].present
    decreases |cdevs| - i
  {
    if i == |cdevs| || !cdevs[i].present then i else FindCdev(cdevs, i + 1)
  }

  function FindLun(luns: seq<Lun>, i: nat): (l: nat)
    requires i <= |luns|
    ensures i <= l <= |luns|
    ensures l < |luns| ==> !luns[l].present
    ensures forall e :: i <= e < l ==> luns[e].present
    decreases |luns| - i
  {
    if i == |luns| || !luns[i].present then i else FindLun(luns, i + 1)
  }

  /** A fragment table entry as memset leaves it (every byte 0x55), once it is on the free list. */
  const FRESHFRAG := Frag(0x5555, WITHINFREELIST, (set q: nat | q < PAGEPERFRAG && q % 2 == 0), 0x5555, 0x5555,
                          0x5555_5555, 0x5555_5555, 0x55)

  /** The ids of device `d`'s first `n` fragments, in order. */
  function DevicePfids(d: nat, n: nat): (r: seq<nat>) {
    seq(n, i requires 0 <= i < n => Pfid(d, i))
  }

  /** Device slot `d` filled with `n` fresh fragments, all in front of the free list. */
  function Plug(s: Sce, d: nat, n: nat, ctx: nat): Sce
    requires d < |s.cdevs|
  {
    var ids := DevicePfids(d, n);
    s.(cdevs := s.cdevs[d := Cdev(true, ctx, n)], nrCdev := s.nrCdev + 1, nrFrag := s.nrFrag + n,
       frags := map p | p in s.frags.Keys + (set p | p in ids) :: if p in ids then FRESHFRAG else s.frags[p],
       free := ids + s.free)
  }

  /** sce_addcdev: the slot taken, if any. */
  function AddCdev(s: Sce, nrSctr: nat, ctx: nat): (Sce, Option<nat>) {
    if nrSctr == 0 || s.nrCdev >= MAXCDEV || exists d :: 0 <= d < |s.cdevs| && s.cdevs[d].ctx == ctx then (s, None) else
      var d := FindCdev(s.cdevs, 0);
      var n := nrSctr / SCTRPERFRAG;
      if d == |s.cdevs| || n == 0 then (s, None) else (Plug(s, d, n, ctx), Some(d))
  }

  /** Free list without the fragments of device `d`, order kept. */
  function OffDevice(free: seq<nat>, d: nat): (r: seq<nat>) {
    if free == [] then []
    else if Dev(free[0]) == d then OffDevice(free[1..], d)
    else [free[0]] + OffDevice(free[1..], d)
  }

  /** _lun_rmcdev on one descriptor. */
  function DropDesc(w: Word, frags: map<nat, Frag>, d: nat): Word {
    if w.mapped && Dev(w.data) == d && w.data in frags then Heat(frags[w.data].nrMiss) else w
  }

  function DropDevice(lun: Lun, frags: map<nat, Frag>, d: nat): Lun {
    lun.(fragmap := seq(|lun.fragmap|, f requires 0 <= f < |lun.fragmap| => DropDesc(lun.fragmap[f], frags, d)))
  }

  /** The fragment tables of the devices other than `d`. */
  function OtherDevices(frags: map<nat, Frag>, d: nat): map<nat, Frag> {
    map p | p in frags && Dev(p) != d :: frags[p]
  }

  /** sce_rmcdev. */
  function RmCdev(s: Sce, d: nat): (Sce, bool) {
    if d >= |s.cdevs| || !s.cdevs[d].present || s.nrCdev == 0 || s.nrFrag < s.cdevs[d].nrFrag then (s, false) else
      (s.(free := OffDevice(s.free, d),
          luns := seq(|s.luns|, l requires 0 <= l < |s.luns| => DropDevice(s.luns[l], s.frags, d)),
          frags := OtherDevices(s.frags, d),
          nrCdev := s.nrCdev - 1, nrFrag := s.nrFrag - s.cdevs[d].nrFrag, cdevs := s.cdevs[d := EMPTYCDEV]),
       true)
  }

  /** sce_addlun: the slot taken, if any. */
  function AddLun(s: Sce, nrSctr: nat, ctx: nat): (Sce, Option<nat>) {
    if nrSctr == 0 then (s, None) else
      var l := FindLun(s.luns, 0);
      if l == |s.luns| then (s, None) else
        var n := (nrSctr + SCTRPERFRAG - 1) / SCTRPERFRAG;
        (s.(luns := s.luns[l := Lun(true, ctx, nrSctr, seq(n, _ => FRESH), 0, false)], nrLun := s.nrLun + 1), Some(l))
  }

  /** sce_rmlun. */
  function RmLun(s: Sce, l: nat): (Sce, bool) {
    if l >= |s.luns| || !s.luns[l].present then (s, false)
    else if s.luns[l].nrService > 0 then (s.(luns := s.luns[l := s.luns[l].(waiting := true)]), true)
    else Purge(s, l)
  }
}
