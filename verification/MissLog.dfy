// The log of recent misses and the choice of the next fragment to populate.

module MissLog {
  import opened SceState

  // ----- the ring

  /** The slot of the entry written `k` puts ago, `head` being the slot of the next put. */
  function Slot(head: nat, k: nat): (i: nat)
    requires head < MISSLOGSIZE && k < MISSLOGSIZE
    ensures i < MISSLOGSIZE
  {
    if head >= k + 1 then head - (k + 1) else MISSLOGSIZE - (k + 1 - head)
  }

  function NextHead(head: nat): nat { if head + 1 == MISSLOGSIZE then 0 else head + 1 }

  /** A put moves every entry one place back and only overwrites the oldest one. */
  lemma SlotMoves(head: nat, k: nat)
    requires head < MISSLOGSIZE && k < MISSLOGSIZE
    ensures if k == 0 then Slot(NextHead(head), k) == head
            else Slot(NextHead(head), k) == Slot(head, k - 1) && Slot(head, k - 1) != head
  {
  }

  class Log {
    const fragnums: array<nat>
    const lunidxs: array<nat>
    var head: nat
    var size: nat

    ghost predicate Valid()
      reads this
    {
      && fragnums.Length == lunidxs.Length == MISSLOGSIZE && fragnums != lunidxs
      && head < MISSLOGSIZE && size <= MISSLOGSIZE
    }

    function EntryAt(k: nat): LogEntry
      requires Valid() && k < MISSLOGSIZE
      reads this, fragnums, lunidxs
    {
      LogEntry(lunidxs[Slot(head, k)], fragnums[Slot(head, k)])
    }

    /** The entries, newest first. */
    ghost function Contents(): seq<LogEntry>
      requires Valid()
      reads this, fragnums, lunidxs
    {
      seq(size, k requires 0 <= k < size && Valid() reads this, fragnums, lunidxs => EntryAt(k))
    }

    constructor ()
      ensures Valid() && Contents() == [] && fresh(fragnums) && fresh(lunidxs)
    {
      fragnums := new nat[MISSLOGSIZE](_ => 0);
      lunidxs := new nat[MISSLOGSIZE](_ => 0);
      head, size := 0, 0;
    }

    /** _misslog_put */
    method Put(lunidx: nat, fragnum: nat)
      requires Valid()
      modifies this, fragnums, lunidxs
      ensures Valid() && Contents() == LogPut(old(Contents()), LogEntry(lunidx, fragnum))
    {
      ghost var was := Contents();
      fragnums[head] := fragnum;
      lunidxs[head] := lunidx;
      ghost var last := head;
      head := head + 1;
      if head == MISSLOGSIZE {
        head := 0;
      }
      if size < MISSLOGSIZE {
        size := size + 1;
      }
      ghost var log := LogPut(was, LogEntry(lunidx, fragnum));
      forall k | 0 <= k < size ensures EntryAt(k) == log[k] {
        SlotMoves(last, k);
        if k > 0 {
          assert was[k - 1] == LogEntry(old(lunidxs[Slot(head, k - 1)]), old(fragnums[Slot(head, k - 1)]));
        }
      }
    }

    /** _misslog_get: entry number `idx` from the newest, if its LUN can still be served. */
    method Get(idx: nat, luntbl: seq<Lun>) returns (ok: bool, lunidx: nat, fragnum: nat)
      requires Valid()
      ensures idx < |Contents()| ==> LogEntry(lunidx, fragnum) == Contents()[idx]
      ensures ok <==> idx < |Contents()| && IsValidIdx(luntbl, Contents()[idx].lunidx)
    {
      ok, lunidx, fragnum := false, 0, 0;
      if idx < size {
        var i := head;
        if i >= idx + 1 {
          i := i - (idx + 1);
        } else {
          i := MISSLOGSIZE - (idx + 1 - i);
        }
        lunidx, fragnum := lunidxs[i], fragnums[i];
        ok := IsValidIdx(luntbl, lunidx);
      }
    }
  }

  // ----- the sequence it implements

  /** The log after these puts, oldest first. */
  function Logged(puts: seq<LogEntry>): seq<LogEntry> {
    if puts == [] then [] else LogPut(Logged(puts[..|puts| - 1]), puts[|puts| - 1])
  }

  /** The log holds the last 1024 puts, newest first. */
  lemma {:induction false} LogHolds(puts: seq<LogEntry>)
    ensures |Logged(puts)| == if |puts| < MISSLOGSIZE then |puts| else MISSLOGSIZE
    ensures forall k :: 0 <= k < |Logged(puts)| ==> Logged(puts)[k] == puts[|puts| - 1 - k]
  {
    if puts != [] {
      LogHolds(puts[..|puts| - 1]);
    }
  }

  // ----- the choice

  const MISSWINDOW: nat := 100

  /** _lun_isvalididx */
  predicate IsValidIdx(luns: seq<Lun>, l: nat) { l < |luns| && luns[l].present && !luns[l].waiting }

  /** How many entries the scan reads: those before the first one whose LUN cannot be served, at most 100. */
  function Window(luns: seq<Lun>, log: seq<LogEntry>, i: nat): (w: nat)
    requires i <= |log|
    ensures i <= w <= |log| && (i <= MISSWINDOW ==> w <= MISSWINDOW)
    ensures forall k :: i <= k < w ==> IsValidIdx(luns, log[k].lunidx)
    ensures w < |log| && w < MISSWINDOW ==> !IsValidIdx(luns, log[w].lunidx)
    decreases |log| - i
  {
    if i < |log| && i < MISSWINDOW && IsValidIdx(luns, log[i].lunidx) then Window(luns, log, i + 1) else i
  }

  /** The miss count of an entry that could be populated; 0 for a mapped one. */
  function HeatOf(luns: seq<Lun>, e: LogEntry): nat {
    if e.lunidx < |luns| && e.fragnum < |luns[e.lunidx].fragmap| && !luns[e.lunidx].fragmap[e.fragnum].mapped
    then luns[e.lunidx].fragmap[e.fragnum].data else 0
  }

  /** Entry `i` is the most recent of the hottest among the first `w`. */
  ghost predicate Hottest(luns: seq<Lun>, log: seq<LogEntry>, w: nat, i: nat)
    requires w <= |log|
  {
    && i < w && HeatOf(luns, log[i]) > 0
    && (forall j :: 0 <= j < i ==> HeatOf(luns, log[j]) < HeatOf(luns, log[i]))
    && (forall j :: i <= j < w ==> HeatOf(luns, log[j]) <= HeatOf(luns, log[i]))
  }

  ghost predicate IsChoice(luns: seq<Lun>, log: seq<LogEntry>, r: Option<LogEntry>) {
    var w := Window(luns, log, 0);
    if r.None? then forall i :: 0 <= i < w ==> HeatOf(luns, log[i]) == 0
    else exists i: nat :: i < w && Hottest(luns, log, w, i) && log[i] == r.value
  }

  lemma HottestHot(luns: seq<Lun>, log: seq<LogEntry>, w: nat, i: nat)
    requires w <= |log| && Hottest(luns, log, w, i)
    ensures i < w && HeatOf(luns, log[i]) > 0
  {
  }

  lemma HottestUnique(luns: seq<Lun>, log: seq<LogEntry>, w: nat, i: nat, j: nat)
    requires w <= |log| && Hottest(luns, log, w, i) && Hottest(luns, log, w, j)
    ensures i == j
  {
    hide HeatOf;
  }

  /** There is at most one choice. */
  lemma ChoiceUnique(luns: seq<Lun>, log: seq<LogEntry>, r: Option<LogEntry>, t: Option<LogEntry>)
    requires IsChoice(luns, log, r) && IsChoice(luns, log, t)
    ensures r == t
  {
    hide Hottest, HeatOf;
    var w := Window(luns, log, 0);
    if r.Some? != t.Some? {
      var c := if r.Some? then r else t;
      var i: nat :| i < w && Hottest(luns, log, w, i) && log[i] == c.value;
      HottestHot(luns, log, w, i);
    }
    if r.Some? && t.Some? {
      var i: nat :| i < w && Hottest(luns, log, w, i) && log[i] == r.value;
      var j: nat :| j < w && Hottest(luns, log, w, j) && log[j] == t.value;
      HottestUnique(luns, log, w, i, j);
    }
  }

  predicate InBounds(luns: seq<Lun>, e: LogEntry) { e.lunidx < |luns| && e.fragnum < |luns[e.lunidx].fragmap| }

  /** _choose4population (HOTMRU), on a log whose scanned entries lie inside their LUNs. */
  method Choose4Population(misslog: Log, luntbl: seq<Lun>) returns (r: Option<LogEntry>)
    requires misslog.Valid()
    requires forall i :: 0 <= i < Window(luntbl, misslog.Contents(), 0) ==> InBounds(luntbl, misslog.Contents()[i])
    ensures IsChoice(luntbl, misslog.Contents(), r)
  {
    hide HeatOf;
    ghost var log := misslog.Contents();
    ghost var w := Window(luntbl, log, 0);
    r := None;
    var maxMiss, i := 0, 0;
    ghost var best := 0;
    while i < MISSWINDOW
      invariant i <= w
      invariant maxMiss == 0 ==> r.None? && forall j :: 0 <= j < i ==> HeatOf(luntbl, log[j]) == 0
      invariant
        maxMiss > 0 ==> Hottest(luntbl, log, i, best) && r == Some(log[best]) && maxMiss == HeatOf(luntbl, log[best])
    {
      var ok, lunidx, fragnum := misslog.Get(i, luntbl);
      if !ok {
        break;
      }
      assert i < w && InBounds(luntbl, log[i]);
      var fdesc := luntbl[lunidx].fragmap[fragnum];
      HeatIs(luntbl, log[i]);
      if !fdesc.mapped && fdesc.data > maxMiss {
        maxMiss, r := fdesc.data, Some(LogEntry(lunidx, fragnum));
        best := i;
      }
      i := i + 1;
    }
    assert i == w;
  }

  lemma HeatIs(luns: seq<Lun>, e: LogEntry)
    requires InBounds(luns, e)
    ensures var d := luns[e.lunidx].fragmap[e.fragnum]; HeatOf(luns, e) == if d.mapped then 0 else d.data
  {
  }
}
