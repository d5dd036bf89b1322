// sce_invalidate walks fragments; its result is a per-page specification.

module Invalidation {
  import opened Words
  import opened SceState
  import opened Invariants
  import opened Preservation
  import opened Requests

  // ----- the loop keeps the invariant and invalidates every page it is given

  /** Every mapped fragment of LUN `l` has the pages first..last invalid. */
  ghost predicate Marked(s: Sce, l: nat, first: nat, last: int) {
    forall f: nat, p: nat, q: nat ::
      MappedTo(s, l, f, p) && q < PAGEPERFRAG && Touches(f, first, last, q) ==> p in s.frags && q in s.frags[p].invalid
  }

  lemma MarkedStays(s: Sce, s': Sce, l: nat, first: nat, last: int)
    requires Shrinks(s, s') && Marked(s, l, first, last)
    ensures Marked(s', l, first, last)
  {
    forall f: nat, p: nat, q: nat | MappedTo(s', l, f, p) && q < PAGEPERFRAG && Touches(f, first, last, q)
      ensures p in s'.frags && q in s'.frags[p].invalid
    {
      assert MappedTo(s, l, f, p);
    }
  }

  /** The pages of the next round extend the marked range. */
  lemma MarkedGrows(s: Sce, l: nat, first: nat, f: nat, off: nat, n: nat, last: int, last': int)
    requires last == f * PAGEPERFRAG + off - 1 && last' == last + n && Marked(s, l, first, last) &&
        off + n <= PAGEPERFRAG
    requires forall p: nat :: MappedTo(s, l, f, p) ==> p in s.frags && PageRange(off, n) <= s.frags[p].invalid
    ensures Marked(s, l, first, last')
  {
    forall g: nat, p: nat, q: nat | MappedTo(s, l, g, p) && q < PAGEPERFRAG && Touches(g, first, last', q)
      ensures p in s.frags && q in s.frags[p].invalid
    {
      if Touches(g, first, last, q) {
      } else {
        RoundPage(f, g, off, n, last, q);
        assert q in PageRange(off, n);
      }
    }
  }

  lemma RoundPage(f: nat, g: nat, off: nat, n: nat, last: int, q: nat)
    requires last == f * PAGEPERFRAG + off - 1 && q < PAGEPERFRAG && off + n <= PAGEPERFRAG
    requires last < g * PAGEPERFRAG + q <= last + n
    ensures g == f && off <= q < off + n
  {
    assert f * 256 + off <= g * 256 + q < f * 256 + off + n;
  }

  lemma {:induction false} InvalidateFromKeeps(s: Sce, l: nat, f: nat, off: nat, count: nat, first: nat)
    requires Boundary(s) && l < |s.luns| && !s.luns[l].waiting && off < PAGEPERFRAG
    requires f * PAGEPERFRAG + off + count <= |s.luns[l].fragmap| * PAGEPERFRAG
    requires Marked(s, l, first, f * PAGEPERFRAG + off - 1)
    ensures var s' := InvalidateFrom(s, l, f, off, count);
            Boundary(s') && Shrinks(s, s') && Marked(s', l, first, f * PAGEPERFRAG + off + count - 1)
    decreases count
  {
    hide Boundary, Shrinks, Marked, InvalidateOne;
    if count == 0 {
      BoundaryShrinksSelf(s);
    } else {
      var n := if PAGEPERFRAG - off > count then count else PAGEPERFRAG - off;
      var s1 := InvalidateOne(s, l, f, PageRange(off, n));
      InvalidateOneKeeps(s, l, f, PageRange(off, n));
      OneKeepsLun(s, l, f, PageRange(off, n));
      MarkedStays(s, s1, l, first, f * PAGEPERFRAG + off - 1);
      MarkedGrows(s1, l, first, f, off, n, f * PAGEPERFRAG + off - 1, f * PAGEPERFRAG + off - 1 + n);
      if n < count {
        InvalidateFromKeeps(s1, l, f + 1, 0, count - n, first);
        ShrinksTwice(s, s1, InvalidateFrom(s1, l, f + 1, 0, count - n));
      } else {
        assert InvalidateFrom(s1, l, f + 1, 0, 0) == s1;
      }
    }
  }

  lemma BoundaryShrinksSelf(s: Sce)
    requires Boundary(s)
    ensures Shrinks(s, s)
  {
    ShrinksSelf(s);
  }

  lemma OneKeepsLun(s: Sce, l: nat, f: nat, pages: set<nat>)
    requires l < |s.luns| && !s.luns[l].waiting
    ensures var s' := InvalidateOne(s, l, f, pages);
            |s'.luns| == |s.luns| && !s'.luns[l].waiting && |s'.luns[l].fragmap| == |s.luns[l].fragmap|
  {
  }

  /** A request is accepted iff it lies inside a LUN that can be served; after it no mapped fragment of the LUN has a
      valid page in the request. */
  lemma InvalidateKeeps(s: Sce, l: nat, sctr: nat, n: nat)
    requires Boundary(s)
    ensures var (s', ok) := Invalidate(s, l, sctr, n);
            && Boundary(s') && Shrinks(s, s') && (!ok ==> s' == s)
            && (ok <==> && l < |s.luns| && s.luns[l].present && !s.luns[l].waiting
                        && n > 0 && sctr + n <= s.luns[l].nrSctr)
            && (ok ==> Marked(s', l, sctr / SCTRPERPAGE, (sctr + n - 1) / SCTRPERPAGE))
  {
    hide Boundary, Shrinks, Marked, InvalidateFrom;
    BoundaryShrinksSelf(s);
    if Admits(s, l, sctr, n, true) {
      RequestPages(s, l, sctr, n);
      var start := FirstPage(sctr);
      NothingMarked(s, l, start);
      InvalidateFromKeeps(s, l, start / PAGEPERFRAG, start % PAGEPERFRAG, LastPage(sctr, n) - start + 1, start);
    }
  }

  lemma NothingMarked(s: Sce, l: nat, first: nat)
    ensures Marked(s, l, first, first - 1)
  {
  }

  lemma RequestPages(s: Sce, l: nat, sctr: nat, n: nat)
    requires Boundary(s) && Admits(s, l, sctr, n, true)
    ensures LastPage(sctr, n) < |s.luns[l].fragmap| * PAGEPERFRAG
    ensures FirstPage(sctr) <= LastPage(sctr, n)
  {
    assert LunOk(s.luns[l]);
    InRange(s, l, sctr, n, true);
  }

  // ----- the per-page specification

  /** Entry `f` loses its fragment: readable, idle, and every page invalid once first..last are. */
  predicate Dies(s: Sce, l: nat, f: nat, first: nat, last: int) {
    && IsMapped(s, l, f) && s.luns[l].fragmap[f].valid && s.luns[l].fragmap[f].data in s.frags
    && s.frags[s.luns[l].fragmap[f].data].nrService == 0
    && InvalidatePages(s.frags[s.luns[l].fragmap[f].data], TouchedPages(f, first, last)).nrValid == 0
  }

  function EntrySpec(s: Sce, l: nat, f: nat, first: nat, last: int): Word
    requires l < |s.luns| && f < |s.luns[l].fragmap|
  {
    if Dies(s, l, f, first, last) then Heat(s.frags[s.luns[l].fragmap[f].data].nrMiss) else s.luns[l].fragmap[f]
  }

  /** Fragment `p` afterwards; only fragments mapped in LUN `l` change. */
  function FragSpec(s: Sce, l: nat, p: nat, first: nat, last: int): Frag
    requires p in s.frags
  {
    var fr := s.frags[p];
    if !MappedTo(s, l, fr.fragnum, p) then fr else
      var fr1 := InvalidatePages(fr, TouchedPages(fr.fragnum, first, last));
      if Dies(s, l, fr.fragnum, first, last) then fr1.(fragnum := WITHINFREELIST) else fr1
  }

  /** The fragments freed from entries below `n`, the last one first. */
  function Freed(s: Sce, l: nat, n: nat, first: nat, last: int): seq<nat> {
    if n == 0 then []
    else if Dies(s, l, n - 1, first, last) then [s.luns[l].fragmap[n - 1].data] + Freed(s, l, n - 1, first, last)
    else Freed(s, l, n - 1, first, last)
  }

  /** sce_invalidate page by page: nothing else of the state changes. */
  function InvalidateSpec(s: Sce, l: nat, first: nat, last: int): Sce
    requires l < |s.luns|
  {
    var n := |s.luns[l].fragmap|;
    s.(luns := s.luns[l := s.luns[l].(fragmap := seq(n, f requires 0 <= f < n => EntrySpec(s, l, f, first, last)))],
       frags := map p | p in s.frags :: FragSpec(s, l, p, first, last),
       free := Freed(s, l, n, first, last) + s.free)
  }

  /** Pages that are not touched change nothing. */
  lemma UntouchedFrag(s: Sce, l: nat, f: nat, p: nat, first: nat, last: int)
    requires Boundary(s) && MappedTo(s, l, f, p) && TouchedPages(f, first, last) == {}
    ensures !Dies(s, l, f, first, last) && FragSpec(s, l, p, first, last) == s.frags[p]
  {
    assert s.frags[p].invalid + {} == s.frags[p].invalid;
  }

  lemma {:induction false} FreedSame(s: Sce, l: nat, n: nat, first: nat, last: int, last': int)
    requires forall f :: 0 <= f < n ==> (Dies(s, l, f, first, last) <==> Dies(s, l, f, first, last'))
    ensures Freed(s, l, n, first, last') == Freed(s, l, n, first, last)
  {
    if n > 0 {
      FreedSame(s, l, n - 1, first, last, last');
    }
  }

  lemma {:induction false} FreedNone(s: Sce, l: nat, m: nat, n: nat, first: nat, last: int)
    requires m <= n && forall f :: m <= f < n ==> !Dies(s, l, f, first, last)
    ensures Freed(s, l, n, first, last) == Freed(s, l, m, first, last)
  {
    if m < n {
      FreedNone(s, l, m, n - 1, first, last);
    }
  }

  /** Entries other than `f` are not concerned by the pages last+1..last' of fragment `f`. */
  lemma OtherEntries(f: nat, g: nat, first: nat, last: int, last': int)
    requires g != f && first <= last + 1 && f * PAGEPERFRAG <= last + 1 && last <= last' < (f + 1) * PAGEPERFRAG
    ensures TouchedPages(g, first, last') == TouchedPages(g, first, last)
  {
    forall q: nat | q < PAGEPERFRAG ensures Touches(g, first, last', q) <==> Touches(g, first, last, q) {
    }
  }

  /** Before its round a fragment has no touched page; in its round it gets exactly these. */
  lemma OwnEntry(f: nat, off: nat, n: nat, first: nat)
    requires off + n <= PAGEPERFRAG && (off == 0 || f * PAGEPERFRAG + off == first) && first <= f * PAGEPERFRAG + off
    ensures TouchedPages(f, first, f * PAGEPERFRAG + off - 1) == {}
    ensures TouchedPages(f, first, f * PAGEPERFRAG + off + n - 1) == PageRange(off, n)
  {
    forall q: nat | q < PAGEPERFRAG
      ensures !Touches(f, first, f * PAGEPERFRAG + off - 1, q)
      ensures Touches(f, first, f * PAGEPERFRAG + off + n - 1, q) <==> q in PageRange(off, n)
    {
    }
  }

  /** The specifications before and after the round of fragment `f` agree on every other entry. */
  lemma OthersStep(s: Sce, l: nat, f: nat, first: nat, last: int, last': int)
    requires first <= last + 1 && f * PAGEPERFRAG <= last + 1 && last <= last' < (f + 1) * PAGEPERFRAG
    ensures forall g: nat {:trigger Dies(s, l, g, first, last)} {:trigger Dies(s, l, g, first, last')} :: g != f ==>
      (Dies(s, l, g, first, last) <==> Dies(s, l, g, first, last'))
    ensures forall p :: p in s.frags && s.frags[p].fragnum != f ==>
      FragSpec(s, l, p, first, last') == FragSpec(s, l, p, first, last)
  {
    hide InvalidatePages, MappedTo, IsMapped;
    forall g: nat | g != f ensures TouchedPages(g, first, last') == TouchedPages(g, first, last) {
      OtherEntries(f, g, first, last, last');
    }
  }

  /** Round `f` frees at most the fragment of entry `f`. */
  lemma FreedStep(s: Sce, l: nat, f: nat, first: nat, last: int, last': int)
    requires Boundary(s) && l < |s.luns| && f < |s.luns[l].fragmap| && !Dies(s, l, f, first, last)
    requires first <= last + 1 && f * PAGEPERFRAG <= last + 1 && last <= last' < (f + 1) * PAGEPERFRAG
    ensures var m := |s.luns[l].fragmap|;
            Freed(s, l, m, first, last') ==
            (if Dies(s, l, f, first, last') then [s.luns[l].fragmap[f].data] else []) + Freed(s, l, m, first, last)
  {
    hide Boundary, Dies, FragSpec;
    OthersStep(s, l, f, first, last, last');
    forall g: nat | f < g ensures !Dies(s, l, g, first, last) && !Dies(s, l, g, first, last') {
      NotYet(s, l, g, first, last);
    }
    FreedNone(s, l, f, |s.luns[l].fragmap|, first, last);
    FreedNone(s, l, f + 1, |s.luns[l].fragmap|, first, last');
    FreedSame(s, l, f, first, last, last');
  }

  lemma NotYet(s: Sce, l: nat, f: nat, first: nat, last: int)
    requires Boundary(s) && (last < f * PAGEPERFRAG || last < first)
    ensures !Dies(s, l, f, first, last)
  {
    if IsMapped(s, l, f) {
      var p := s.luns[l].fragmap[f].data;
      assert MappedTo(s, l, f, p);
      assert TouchedPages(f, first, last) == {};
      UntouchedFrag(s, l, f, p, first, last);
    }
  }

  /** Round `f` turns the specification up to the last page before it into the one up to its own last page. */
  lemma RoundExact(s: Sce, l: nat, f: nat, off: nat, n: nat, first: nat, last: int)
    requires Boundary(s) && l < |s.luns| && f < |s.luns[l].fragmap| && !s.luns[l].waiting
    requires off + n <= PAGEPERFRAG && (off == 0 || f * PAGEPERFRAG + off == first) && first <= f * PAGEPERFRAG + off
    requires last == f * PAGEPERFRAG + off - 1
    ensures InvalidateOne(InvalidateSpec(s, l, first, last), l, f, PageRange(off, n)) ==
        InvalidateSpec(s, l, first, last + n)
  {
    hide Boundary, Dies, FragSpec, Freed, Gc, InvalidatePages;
    NotYet(s, l, f, first, last);
    UnmappedLives(s, l, f, first, last + n);
    OthersStep(s, l, f, first, last, last + n);
    FreedStep(s, l, f, first, last, last + n);
    if IsMapped(s, l, f) {
      assert MappedTo(s, l, f, s.luns[l].fragmap[f].data);
      assert Core(s) by { BoundaryParts(s); }
      MappedFacts(s, l, f, s.luns[l].fragmap[f].data);
      RoundMapped(s, l, f, off, n, first, last, s.luns[l].fragmap[f].data);
    } else {
      SpecEqual(s, l, f, first, last, last + n);
    }
  }

  lemma UnmappedLives(s: Sce, l: nat, f: nat, first: nat, last: int)
    ensures !IsMapped(s, l, f) ==> !Dies(s, l, f, first, last)
  {
  }

  lemma SpecEqual(s: Sce, l: nat, f: nat, first: nat, last: int, last': int)
    requires Boundary(s) && l < |s.luns| && f < |s.luns[l].fragmap| && !IsMapped(s, l, f)
    requires forall g: nat {:trigger Dies(s, l, g, first, last)} ::
        g != f ==> (Dies(s, l, g, first, last) <==> Dies(s, l, g, first, last'))
    requires forall p ::
        p in s.frags && s.frags[p].fragnum != f ==> FragSpec(s, l, p, first, last') == FragSpec(s, l, p, first, last)
    requires Freed(s, l, |s.luns[l].fragmap|, first, last') == Freed(s, l, |s.luns[l].fragmap|, first, last)
    ensures InvalidateSpec(s, l, first, last') == InvalidateSpec(s, l, first, last)
  {
    hide Boundary, Freed, InvalidatePages;
    var s1 := InvalidateSpec(s, l, first, last);
    var s2 := InvalidateSpec(s, l, first, last');
    forall p | p in s.frags ensures FragSpec(s, l, p, first, last') == FragSpec(s, l, p, first, last) {
      assert !MappedTo(s, l, f, p);
    }
    assert s2.frags == s1.frags;
    forall g | 0 <= g < |s.luns[l].fragmap|
        ensures EntrySpec(s, l, g, first, last') == EntrySpec(s, l, g, first, last) {
    }
    assert s2.luns[l].fragmap == s1.luns[l].fragmap;
  }

  lemma RoundMapped(s: Sce, l: nat, f: nat, off: nat, n: nat, first: nat, last: int, p: nat)
    requires Boundary(s) && MappedTo(s, l, f, p) && p in s.frags && !s.luns[l].waiting
    requires off + n <= PAGEPERFRAG && (off == 0 || f * PAGEPERFRAG + off == first) && first <= f * PAGEPERFRAG + off
    requires last == f * PAGEPERFRAG + off - 1 && !Dies(s, l, f, first, last)
    ensures InvalidateOne(InvalidateSpec(s, l, first, last), l, f, PageRange(off, n)) ==
        InvalidateSpec(s, l, first, last + n)
  {
    hide Boundary, FragSpec, Freed, InvalidatePages, Unmap, Dies;
    var s1 := InvalidateSpec(s, l, first, last);
    var s2 := InvalidateSpec(s, l, first, last + n);
    var pages := PageRange(off, n);
    OwnEntry(f, off, n, first);
    OwnFrag(s, l, f, p, first, last, last + n, pages);
    OthersStep(s, l, f, first, last, last + n);
    FreedStep(s, l, f, first, last, last + n);
    RoundLuns(s, l, f, first, last, last + n);
    var fr1 := InvalidatePages(s.frags[p], pages);
    var t := SetFrag(s1, p, fr1);
    assert s1.frags[p] == s.frags[p] && s1.luns[l].fragmap[f] == s.luns[l].fragmap[f];
    if Dies(s, l, f, first, last + n) {
      UnmapIs(t, l, f, p);
      assert InvalidateOne(s1, l, f, pages) == Unmap(t, l, f);
      RoundFrags(s, l, f, p, first, last, last + n, fr1.(fragnum := WITHINFREELIST));
    } else {
      assert InvalidateOne(s1, l, f, pages) == t;
      RoundFrags(s, l, f, p, first, last, last + n, fr1);
      assert s2.luns[l].fragmap == s1.luns[l].fragmap;
    }
  }

  lemma OwnFrag(s: Sce, l: nat, f: nat, p: nat, first: nat, last: int, last': int, pages: set<nat>)
    requires Boundary(s) && MappedTo(s, l, f, p)
    requires TouchedPages(f, first, last) == {} && TouchedPages(f, first, last') == pages
    ensures p in s.frags && s.frags[p].fragnum == f && f < UNLISTED
    ensures !Dies(s, l, f, first, last) && FragSpec(s, l, p, first, last) == s.frags[p]
    ensures Dies(s, l, f, first, last') <==>
      s.luns[l].fragmap[f].valid && s.frags[p].nrService == 0 && InvalidatePages(s.frags[p], pages).nrValid == 0
    ensures var fr1 := InvalidatePages(s.frags[p], pages);
            FragSpec(s, l, p, first, last') == if Dies(s, l, f, first, last') then fr1.(fragnum := WITHINFREELIST)
                else fr1
    ensures InvalidatePages(s.frags[p], pages).fragnum == f &&
        InvalidatePages(s.frags[p], pages).nrService == s.frags[p].nrService
    ensures InvalidatePages(s.frags[p], pages).nrMiss == s.frags[p].nrMiss
  {
    MappedFacts(s, l, f, p);
    UntouchedFrag(s, l, f, p, first, last);
  }

  lemma RoundFrags(s: Sce, l: nat, f: nat, p: nat, first: nat, last: int, last': int, fr: Frag)
    requires MappedTo(s, l, f, p) && p in s.frags && FragSpec(s, l, p, first, last') == fr
    requires forall q ::
        q in s.frags && s.frags[q].fragnum != f ==> FragSpec(s, l, q, first, last') == FragSpec(s, l, q, first, last)
    ensures InvalidateSpec(s, l, first, last').frags == InvalidateSpec(s, l, first, last).frags[p := fr]
  {
    hide Dies, InvalidatePages, EntrySpec, FragSpec;
    forall q | q in s.frags && q != p ensures FragSpec(s, l, q, first, last') == FragSpec(s, l, q, first, last) {
      if s.frags[q].fragnum == f {
        assert !MappedTo(s, l, f, q);
        NotMineSame(s, l, q, first, last);
        NotMineSame(s, l, q, first, last');
      }
    }
  }

  lemma NotMineSame(s: Sce, l: nat, p: nat, first: nat, last: int)
    requires p in s.frags && !MappedTo(s, l, s.frags[p].fragnum, p)
    ensures FragSpec(s, l, p, first, last) == s.frags[p]
  {
  }

  lemma RoundLuns(s: Sce, l: nat, f: nat, first: nat, last: int, last': int)
    requires l < |s.luns| && f < |s.luns[l].fragmap|
    requires forall g: nat {:trigger Dies(s, l, g, first, last)} ::
        g != f ==> (Dies(s, l, g, first, last) <==> Dies(s, l, g, first, last'))
    requires !Dies(s, l, f, first, last)
    ensures var fm := InvalidateSpec(s, l, first, last).luns[l].fragmap;
            InvalidateSpec(s, l, first, last').luns[l].fragmap == fm[f := EntrySpec(s, l, f, first, last')]
  {
    hide Dies;
  }

  // ----- the loop computes the specification

  lemma {:induction false} LoopExact(s: Sce, l: nat, f: nat, off: nat, count: nat, first: nat)
    requires Boundary(s) && l < |s.luns| && !s.luns[l].waiting && off < PAGEPERFRAG
    requires f * PAGEPERFRAG + off + count <= |s.luns[l].fragmap| * PAGEPERFRAG
    requires (off == 0 || f * PAGEPERFRAG + off == first) && first <= f * PAGEPERFRAG + off
    ensures var last := f * PAGEPERFRAG + off - 1;
            InvalidateFrom(InvalidateSpec(s, l, first, last), l, f, off, count) ==
                InvalidateSpec(s, l, first, last + count)
    decreases count
  {
    hide Boundary, InvalidateOne, InvalidateSpec;
    if count > 0 {
      var last := f * PAGEPERFRAG + off - 1;
      var n := if PAGEPERFRAG - off > count then count else PAGEPERFRAG - off;
      RoundExact(s, l, f, off, n, first, last);
      if n < count {
        LoopExact(s, l, f + 1, 0, count - n, first);
      }
    }
  }

  lemma {:induction false} NoneFreed(s: Sce, l: nat, n: nat, first: nat)
    requires Boundary(s)
    ensures Freed(s, l, n, first, first - 1) == []
  {
    hide Boundary, Dies;
    if n > 0 {
      NoneFreed(s, l, n - 1, first);
      NotYet(s, l, n - 1, first, first - 1);
    }
  }

  /** With no page to invalidate the specification is the state itself. */
  lemma SpecStart(s: Sce, l: nat, first: nat)
    requires Boundary(s) && l < |s.luns|
    ensures InvalidateSpec(s, l, first, first - 1) == s
  {
    hide Boundary, Dies, Freed, InvalidatePages;
    NoneFreed(s, l, |s.luns[l].fragmap|, first);
    forall f | 0 <= f < |s.luns[l].fragmap| ensures EntrySpec(s, l, f, first, first - 1) == s.luns[l].fragmap[f] {
      NotYet(s, l, f, first, first - 1);
    }
    forall p | p in s.frags ensures FragSpec(s, l, p, first, first - 1) == s.frags[p] {
      var f := s.frags[p].fragnum;
      if MappedTo(s, l, f, p) {
        assert TouchedPages(f, first, first - 1) == {};
        UntouchedFrag(s, l, f, p, first, first - 1);
      }
    }
    SpecUnchanged(s, l, first);
  }

  lemma SpecUnchanged(s: Sce, l: nat, first: nat)
    requires l < |s.luns| && Freed(s, l, |s.luns[l].fragmap|, first, first - 1) == []
    requires forall f :: 0 <= f < |s.luns[l].fragmap| ==> EntrySpec(s, l, f, first, first - 1) == s.luns[l].fragmap[f]
    requires forall p :: p in s.frags ==> FragSpec(s, l, p, first, first - 1) == s.frags[p]
    ensures InvalidateSpec(s, l, first, first - 1) == s
  {
    hide EntrySpec, FragSpec, Freed;
    var s' := InvalidateSpec(s, l, first, first - 1);
    assert s'.luns[l].fragmap == s.luns[l].fragmap;
    assert s'.luns == s.luns;
    assert s'.frags == s.frags;
    assert s'.free == s.free;
  }

  /** sce_invalidate is its per-page specification, and refuses exactly what does not lie inside a LUN that can be
      served. */
  lemma InvalidateExact(s: Sce, l: nat, sctr: nat, n: nat)
    requires Boundary(s)
    ensures Invalidate(s, l, sctr, n) ==
      if l < |s.luns| && s.luns[l].present && !s.luns[l].waiting && n > 0 && sctr + n <= s.luns[l].nrSctr
      then (InvalidateSpec(s, l, sctr / SCTRPERPAGE, (sctr + n - 1) / SCTRPERPAGE), true)
      else (s, false)
  {
    hide Boundary, InvalidateFrom, InvalidateSpec;
    if Admits(s, l, sctr, n, true) {
      RequestPages(s, l, sctr, n);
      var start := FirstPage(sctr);
      SpecStart(s, l, start);
      LoopExact(s, l, start / PAGEPERFRAG, start % PAGEPERFRAG, LastPage(sctr, n) - start + 1, start);
    }
  }

  /** Page `q` of fragment `f` is one of those the sectors of the request lie in. */
  predicate Requested(sctr: nat, n: nat, f: nat, q: nat) {
    sctr / SCTRPERPAGE <= f * PAGEPERFRAG + q <= (sctr + n - 1) / SCTRPERPAGE
  }

  function RequestedPages(sctr: nat, n: nat, f: nat): set<nat> {
    set q: nat | q < PAGEPERFRAG && Requested(sctr, n, f, q)
  }

  /** What an accepted call does to fragment `p`, mapped at entry `f` of the LUN: exactly the pages of the request that
      lie in it become invalid, and it is given up iff it is readable, idle and has no valid page then. */
  lemma InvalidateEntry(s: Sce, l: nat, sctr: nat, n: nat, f: nat, p: nat)
    requires Boundary(s) && MappedTo(s, l, f, p)
    requires s.luns[l].present && !s.luns[l].waiting && n > 0 && sctr + n <= s.luns[l].nrSctr
    ensures p in s.frags
    ensures var s', fr := Invalidate(s, l, sctr, n).0, s.frags[p];
            var pages := fr.invalid + RequestedPages(sctr, n, f);
            var dead := && s.luns[l].fragmap[f].valid && fr.nrService == 0
                        && forall q: nat :: q < PAGEPERFRAG ==> q in pages;
            && (MappedTo(s', l, f, p) <==> !dead) && p in s'.frags
            && s'.frags[p] == fr.(invalid := pages, nrValid := PAGEPERFRAG - |pages|,
                                  fragnum := if dead then WITHINFREELIST else f)
  {
    hide Boundary, Core, InvalidateSpec, Dies, PagesOk, Requested, Invalidate;
    InvalidateExact(s, l, sctr, n);
    RequestedAre(sctr, n, f);
    DiesIff(s, l, f, p, sctr / SCTRPERPAGE, (sctr + n - 1) / SCTRPERPAGE);
    SpecEntry(s, l, f, p, sctr / SCTRPERPAGE, (sctr + n - 1) / SCTRPERPAGE);
    hide TouchedPages, InvalidatePages, RequestedPages;
  }

  /** It leaves the other LUNs alone. */
  lemma InvalidateOthers(s: Sce, l: nat, sctr: nat, n: nat, m: nat, g: nat, p: nat)
    requires Boundary(s) && MappedTo(s, m, g, p) && m != l
    ensures var s' := Invalidate(s, l, sctr, n).0;
            && |s'.luns| == |s.luns| && s'.luns[m] == s.luns[m]
            && p in s.frags && p in s'.frags && s'.frags[p] == s.frags[p]
  {
    hide Boundary, Core, InvalidateSpec, PagesOk, Invalidate;
    InvalidateExact(s, l, sctr, n);
    BoundaryParts(s);
    MappedFacts(s, m, g, p);
    if l < |s.luns| {
      SpecOther(s, l, m, g, p, sctr / SCTRPERPAGE, (sctr + n - 1) / SCTRPERPAGE);
    }
  }

  lemma RequestedAre(sctr: nat, n: nat, f: nat)
    requires n > 0
    ensures TouchedPages(f, sctr / SCTRPERPAGE, (sctr + n - 1) / SCTRPERPAGE) == RequestedPages(sctr, n, f)
  {
    forall q: nat
      ensures Requested(sctr, n, f, q) <==> Touches(f, sctr / SCTRPERPAGE, (sctr + n - 1) / SCTRPERPAGE, q)
    {
    }
    hide Touches, Requested;
  }

  lemma SpecOther(s: Sce, l: nat, m: nat, g: nat, p: nat, first: nat, last: int)
    requires Core(s) && MappedTo(s, m, g, p) && m != l && l < |s.luns|
    ensures var s' := InvalidateSpec(s, l, first, last);
            && |s'.luns| == |s.luns| && s'.luns[m] == s.luns[m]
            && p in s'.frags && p in s.frags && s'.frags[p] == s.frags[p]
  {
    hide Core, Dies, Freed;
    MappedFacts(s, m, g, p);
    NotHere(s, l, m, g, p);
  }

  lemma NotHere(s: Sce, l: nat, m: nat, g: nat, p: nat)
    requires Core(s) && MappedTo(s, m, g, p) && m != l
    ensures forall f: nat :: !MappedTo(s, l, f, p)
  {
  }

  lemma DiesIff(s: Sce, l: nat, f: nat, p: nat, first: nat, last: int)
    requires Boundary(s) && MappedTo(s, l, f, p)
    ensures p in s.frags && s.frags[p].fragnum == f
    ensures var fr := s.frags[p];
            var pages := fr.invalid + TouchedPages(f, first, last);
            && InvalidatePages(fr, TouchedPages(f, first, last)) ==
                 fr.(invalid := pages, nrValid := PAGEPERFRAG - |pages|)
            && (Dies(s, l, f, first, last) <==>
                  && s.luns[l].fragmap[f].valid && fr.nrService == 0
                  && forall q: nat :: q < PAGEPERFRAG ==> q in pages)
  {
    hide Boundary, Core;
    BoundaryParts(s);
    MappedFacts(s, l, f, p);
    var fr := s.frags[p];
    var touched := TouchedPages(f, first, last);
    assert fr.invalid + touched == fr.invalid + (touched - fr.invalid);
    assert |fr.invalid + (touched - fr.invalid)| == |fr.invalid| + |touched - fr.invalid|;
    AllPages(fr.invalid + touched);
  }

  lemma AllPages(pages: set<nat>)
    requires forall q :: q in pages ==> q < PAGEPERFRAG
    ensures |pages| == PAGEPERFRAG <==> forall q: nat :: q < PAGEPERFRAG ==> q in pages
  {
    FewPages(pages);
    RangeSize(0, PAGEPERFRAG);
    if forall q: nat :: q < PAGEPERFRAG ==> q in pages {
      assert pages == PageRange(0, PAGEPERFRAG);
    }
  }

  lemma SpecEntry(s: Sce, l: nat, f: nat, p: nat, first: nat, last: int)
    requires MappedTo(s, l, f, p) && p in s.frags && s.frags[p].fragnum == f
    ensures var s' := InvalidateSpec(s, l, first, last);
            && (MappedTo(s', l, f, p) <==> !Dies(s, l, f, first, last)) && p in s'.frags
            && var fr := InvalidatePages(s.frags[p], TouchedPages(f, first, last));
               s'.frags[p] == if Dies(s, l, f, first, last) then fr.(fragnum := WITHINFREELIST) else fr
  {
    hide Dies, Freed, InvalidatePages;
  }
}
