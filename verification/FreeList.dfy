// The free list as the engine stores it: links through the fragments' `next` words.

module FreeList {
  import opened Words
  import opened SceState
  import opened Invariants
  import Eviction

  /** Following the links from `head` visits exactly `free`. Only the data bits of a link matter; the mapped bit keeps
      it from being zero. */
  ghost predicate Chain(next: map<nat, Word>, head: Word, free: seq<nat>)
    decreases |free|
  {
    if free == [] then head == ZERO
    else head.mapped && head.data == free[0] && free[0] in next && Chain(next, next[free[0]], free[1..])
  }

  /** The list is determined by the links. */
  lemma {:induction false} ChainUnique(next: map<nat, Word>, head: Word, a: seq<nat>, b: seq<nat>)
    requires Chain(next, head, a) && Chain(next, head, b)
    ensures a == b
    decreases |a|
  {
    if a != [] && b != [] {
      ChainUnique(next, next[a[0]], a[1..], b[1..]);
      assert a == [a[0]] + a[1..] && b == [b[0]] + b[1..];
    }
  }

  /** The same fragment, or no fragment at all. */
  predicate SameLink(a: Word, b: Word) { (a == ZERO <==> b == ZERO) && a.mapped == b.mapped && a.data == b.data }

  /** The other flag bits of the links do not matter. */
  lemma {:induction false} FlagsIgnored(next: map<nat, Word>, next': map<nat, Word>, head: Word, head': Word,
      free: seq<nat>)
    requires Chain(next, head, free) && SameLink(head, head')
    requires forall p :: p in next ==> p in next' && SameLink(next[p], next'[p])
    ensures Chain(next', head', free)
    decreases |free|
  {
    if free != [] {
      FlagsIgnored(next, next', next[free[0]], next'[free[0]], free[1..]);
    }
  }

  /** Only the links of the members count. */
  lemma {:induction false} ChainSame(next: map<nat, Word>, next': map<nat, Word>, head: Word, free: seq<nat>)
    requires Chain(next, head, free)
    requires forall p :: p in free && p in next ==> p in next' && next'[p] == next[p]
    ensures Chain(next', head, free)
    decreases |free|
  {
    if free != [] {
      assert free[0] in free;
      ChainSame(next, next', next[free[0]], free[1..]);
    }
  }

  /** The link that leads out of the first part `a` of the list. */
  function After(next: map<nat, Word>, head: Word, a: seq<nat>): Word
    requires a != [] ==> a[|a| - 1] in next
  {
    if a == [] then head else next[a[|a| - 1]]
  }

  lemma {:induction false} ChainSplit(next: map<nat, Word>, head: Word, a: seq<nat>, b: seq<nat>)
    requires Chain(next, head, a + b)
    ensures a != [] ==> a[|a| - 1] in next
    ensures Chain(next, After(next, head, a), b)
    decreases |a|
  {
    if a == [] {
      assert a + b == b;
    } else {
      assert (a + b)[1..] == a[1..] + b;
      ChainSplit(next, next[a[0]], a[1..], b);
      if |a| > 1 {
        assert a[1..][|a[1..]| - 1] == a[|a| - 1];
      }
    }
  }

  /** Redirecting the link before `c` to the one after `c` takes `c` out and keeps the order of the others. */
  lemma {:induction false} ChainUnlink(next: map<nat, Word>, head: Word, a: seq<nat>, c: nat, b: seq<nat>)
    requires a != [] && NoDuplicates(a + [c] + b) && Chain(next, head, a + [c] + b) && c in next
    ensures Chain(next[a[|a| - 1] := next[c]], head, a + b)
    decreases |a|
  {
    var q := a[|a| - 1];
    var all := a + [c] + b;
    var next' := next[q := next[c]];
    ChainSplit(next, head, a + [c], b);
    assert (a + [c])[|a|] == c;
    assert all[|a| - 1] == q && all[|a|] == c;
    forall p | p in b ensures p != q {
      var i :| 0 <= i < |b| && b[i] == p;
      assert all[|a| + 1 + i] == p;
    }
    ChainSame(next, next', next[c], b);
    if |a| == 1 {
      assert (a + b)[1..] == b;
    } else {
      var rest := a[1..];
      assert all[1..] == rest + [c] + b;
      assert (a + b)[1..] == rest + b;
      assert all[0] == a[0] != q;
      assert rest[|rest| - 1] == q;
      ChainUnlink(next, next[a[0]], rest, c, b);
    }
  }

  /** The same for the head of the list, and what stays true behind the gap. */
  lemma Unlinked(next: map<nat, Word>, head: Word, a: seq<nat>, c: nat, b: seq<nat>)
    requires NoDuplicates(a + [c] + b) && Chain(next, head, a + [c] + b) && c in next
    ensures NoDuplicates(a + b)
    ensures a == [] ==> Chain(next, next[c], b)
    ensures a != [] ==>
      var q := a[|a| - 1];
      q in next && q != c && q !in b && Chain(next[q := next[c]], head, a + b) && Chain(next[q := next[c]], next[c], b)
  {
    var all := a + [c] + b;
    assert forall i :: 0 <= i < |a + b| ==> (a + b)[i] == all[if i < |a| then i else i + 1];
    ChainSplit(next, head, a + [c], b);
    assert (a + [c])[|a|] == c;
    if a != [] {
      assert all == a + ([c] + b);
      ChainSplit(next, head, a, [c] + b);
      ChainUnlink(next, head, a, c, b);
      assert all[|a| - 1] == a[|a| - 1] && all[|a|] == c;
      forall p | p in b ensures p != a[|a| - 1] {
        var i :| 0 <= i < |b| && b[i] == p;
        assert all[|a| + 1 + i] == p;
      }
      ChainSame(next, next[a[|a| - 1] := next[c]], next[c], b);
    }
  }

  lemma {:induction false} OffDeviceAppend(a: seq<nat>, p: nat, d: nat)
    ensures OffDevice(a + [p], d) == OffDevice(a, d) + if Dev(p) == d then [] else [p]
  {
    if a == [] {
      assert a + [p] == [p];
    } else {
      assert (a + [p])[1..] == a[1..] + [p];
      OffDeviceAppend(a[1..], p, d);
    }
  }

  // ----- the list and the tables

  /** The links lead through the listed fragments, once each. */
  ghost predicate Linked(next: map<nat, Word>, head: Word, count: nat, free: seq<nat>, frags: map<nat, Frag>) {
    && next.Keys == frags.Keys
    && Chain(next, head, free) && NoDuplicates(free) && count == |free|
    && (forall p :: p in free ==> p in frags && frags[p].fragnum == WITHINFREELIST && p < DATASPACE)
  }

  /** A mapped fragment has no link: there is never a secondary fragment. */
  ghost predicate NoSecondary(next: map<nat, Word>, frags: map<nat, Frag>) {
    forall p :: p in frags && p in next && frags[p].fragnum < UNLISTED ==> next[p] == ZERO
  }

  function Listed(frags: map<nat, Frag>, p: nat): map<nat, Frag>
    requires p in frags
  {
    frags[p := frags[p].(fragnum := WITHINFREELIST)]
  }

  function Taken(frags: map<nat, Frag>, p: nat): map<nat, Frag>
    requires p in frags
  {
    frags[p := frags[p].(fragnum := UNLISTED)]
  }

  lemma SizeOfKeys(frags: map<nat, Frag>)
    ensures |frags| == |frags.Keys|
  {
  }

  lemma PutLinked(next: map<nat, Word>, head: Word, count: nat, free: seq<nat>, frags: map<nat, Frag>, pfid: Word)
    requires Linked(next, head, count, free, frags)
    requires pfid.data in frags && frags[pfid.data].fragnum != WITHINFREELIST
    ensures Linked(next[pfid.data := head], pfid.(mapped := true), count + 1, [pfid.data] + free,
        Listed(frags, pfid.data))
    ensures count < |frags| == |Listed(frags, pfid.data)|
    ensures NoSecondary(next, frags) ==> NoSecondary(next[pfid.data := head], Listed(frags, pfid.data))
  {
    assert Listed(frags, pfid.data).Keys == frags.Keys;
    SizeOfKeys(frags);
    SizeOfKeys(Listed(frags, pfid.data));
    var p, free' := pfid.data, [pfid.data] + free;
    assert p !in free;
    Eviction.ListShorter(free, frags.Keys, p);
    ChainSame(next, next[p := head], head, free);
    assert free'[1..] == free;
    forall i, j | 0 <= i < j < |free'| ensures free'[i] != free'[j] {
      assert free'[j] == free[j - 1];
    }
  }

  lemma GetLinked(next: map<nat, Word>, head: Word, count: nat, free: seq<nat>, frags: map<nat, Frag>)
    requires Linked(next, head, count, free, frags)
    ensures head == ZERO <==> free == []
    ensures free != [] ==>
      && var p := head.data;
         && head.mapped && free[0] == p && p in next && p in frags && count > 0
         && frags[p].fragnum == WITHINFREELIST && p !in free[1..]
         && Linked(next[p := ZERO], next[p], count - 1, free[1..], Taken(frags, p))
         && |Taken(frags, p)| == |frags|
         && (NoSecondary(next, frags) ==> NoSecondary(next[p := ZERO], Taken(frags, p)))
  {
    if free != [] {
      assert Taken(frags, free[0]).Keys == frags.Keys;
      SizeOfKeys(frags);
      SizeOfKeys(Taken(frags, free[0]));
      var p, rest := head.data, free[1..];
      assert free[0] in free;
      assert p !in rest;
      ChainSame(next, next[p := ZERO], next[p], rest);
    }
  }

  function Join(a: seq<nat>, b: seq<nat>): seq<nat> { a + b }

  lemma JoinEnds(a: seq<nat>)
    ensures Join(a, []) == a && Join([], a) == a
  {
  }

  lemma JoinNext(a: seq<nat>, b: seq<nat>)
    requires b != []
    ensures Join(a + [b[0]], b[1..]) == Join(a, b)
  {
  }

  /** One turn of _freefraglist_rmcdev: `a` has been kept so far, `rest` is still to come. */
  lemma TurnLinked(next: map<nat, Word>, head: Word, count: nat, a: seq<nat>, rest: seq<nat>, frags: map<nat, Frag>)
    requires Linked(next, head, count, Join(a, rest), frags) && rest != []
    ensures var c, b := rest[0], rest[1..];
            && c in next && count > 0 && Chain(next, next[c], b)
            && (a == [] ==> Linked(next, next[c], count - 1, Join(a, b), frags))
            && (a != [] ==>
                  && var q := a[|a| - 1];
                     && q in next && q != c
                     && Linked(next[q := next[c]], head, count - 1, Join(a, b), frags)
                     && Chain(next[q := next[c]], next[c], b)
                     && (NoSecondary(next, frags) ==> NoSecondary(next[q := next[c]], frags)))
  {
    var c, b := rest[0], rest[1..];
    var all := a + [c] + b;
    assert all == Join(a, rest);
    assert all[|a|] == c;
    assert c in all;
    Unlinked(next, head, a, c, b);
    ChainSplit(next, head, a + [c], b);
    assert (a + [c])[|a|] == c;
    assert forall p :: p in a + b ==> p in all;
    if a == [] {
      assert a + b == b;
    } else {
      assert all[|a| - 1] == a[|a| - 1];
    }
  }

  lemma ChainHead(next: map<nat, Word>, link: Word, rest: seq<nat>)
    requires Chain(next, link, rest)
    ensures link == ZERO <==> rest == []
    ensures rest != [] ==> rest == [link.data] + rest[1..]
  {
  }

  lemma StartChain(next: map<nat, Word>, head: Word, count: nat, free: seq<nat>, frags: map<nat, Frag>, d: nat)
    requires Linked(next, head, count, free, frags)
    ensures Chain(next, head, free) && OffDevice([], d) == []
  {
  }

  /** A fragment taken from the list may be initialised. */
  lemma MapLinked(next: map<nat, Word>, head: Word, count: nat, free: seq<nat>, frags: map<nat, Frag>, p: nat, fr: Frag)
    requires Linked(next, head, count, free, frags) && p in frags && p !in free
    ensures Linked(next[p := ZERO], head, count, free, frags[p := fr])
    ensures NoSecondary(next, frags) ==> NoSecondary(next[p := ZERO], frags[p := fr])
    ensures |frags[p := fr]| == |frags|
  {
    assert frags[p := fr].Keys == frags.Keys;
    SizeOfKeys(frags);
    SizeOfKeys(frags[p := fr]);
    ChainSame(next, next[p := ZERO], head, free);
  }

  lemma AdjustLinked(next: map<nat, Word>, head: Word, count: nat, free: seq<nat>, frags: map<nat, Frag>, p: nat,
      fr: Frag)
    requires Linked(next, head, count, free, frags) && p in frags && fr.fragnum == frags[p].fragnum
    ensures Linked(next, head, count, free, frags[p := fr])
    ensures NoSecondary(next, frags) ==> NoSecondary(next, frags[p := fr])
    ensures |frags[p := fr]| == |frags|
  {
    assert frags[p := fr].Keys == frags.Keys;
    SizeOfKeys(frags);
    SizeOfKeys(frags[p := fr]);
  }
}
