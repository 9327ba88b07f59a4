/** The accounting that ties a breadth-first walk to the recursive sizes of the tree:
    what was visited below a folder plus what is queued below it. */
module SmbFrontier {
  import opened Shared
  import opened SmbNodes
  import opened SmbTree

  ghost function EntrySize(share: Share, maxDepth: nat, e: Entry): Size {
    if e.depth <= maxDepth then TreeSize(share, e.rel, maxDepth - e.depth) else ZERO
  }

  /** What the queued folders at or below `p` will still contribute. */
  ghost function Pending(share: Share, maxDepth: nat, queue: seq<Entry>, p: string): Size {
    if queue == [] then ZERO
    else
      var last := queue[|queue| - 1];
      Pending(share, maxDepth, queue[..|queue| - 1], p).Plus(
        if p in Chain(last.rel) then EntrySize(share, maxDepth, last) else ZERO)
  }

  ghost predicate Holds(entries: seq<Entry>, rel: string) {
    exists i :: 0 <= i < |entries| && entries[i].rel == rel
  }

  /** `seen` lists every folder ever queued, the first `k` of which are dealt with. */
  ghost predicate Frontier(share: Share, maxDepth: nat, seen: seq<Entry>, k: nat, log: seq<Visited>) {
    && k <= |seen| && seen != [] && seen[0] == Entry("", 0)
    && (forall i, j :: 0 <= i < j < |seen| ==> seen[i].rel != seen[j].rel)
    && (forall i :: 0 <= i < |seen| ==> seen[i].depth == Depth(seen[i].rel) <= maxDepth)
    && (forall i :: 1 <= i < |seen| ==>
      && seen[i].rel != "" && Holds(seen[..k], Parent(seen[i].rel))
      && IsChild(share, Parent(seen[i].rel), seen[i].rel, maxDepth))
    && (forall i :: 0 <= i < |log| ==> Holds(seen[..k], log[i].rel))
  }

  /** Without truncation, each folder dealt with was rejected by the path pattern or
      has been visited and all its subfolders queued. */
  ghost predicate Exhaustive(share: Share, maxDepth: nat, seen: seq<Entry>, k: nat)
    requires k <= |seen|
  {
    forall i :: 0 <= i < k ==>
      && (share.Accepts(seen[i].rel) ==> share.Visit(seen[i].rel).Some?)
      && forall rel :: IsChild(share, seen[i].rel, rel, maxDepth) ==> Holds(seen, rel)
  }

  ghost predicate Listed(log: seq<Visited>, rel: string) {
    exists i :: 0 <= i < |log| && log[i].rel == rel
  }

  /** Each folder dealt with whose listing came back is in the log. */
  ghost predicate Logged(share: Share, seen: seq<Entry>, k: nat, log: seq<Visited>)
    requires k <= |seen|
  {
    forall i :: 0 <= i < k && share.Visit(seen[i].rel).Some? ==> Listed(log, seen[i].rel)
  }

  ghost function Balance(share: Share, maxDepth: nat, seen: seq<Entry>, k: nat, log: seq<Visited>, p: string): Size
    requires k <= |seen|
  {
    Rolled(log, p).Plus(Pending(share, maxDepth, seen[k..], p))
  }

  ghost predicate Balanced(share: Share, maxDepth: nat, seen: seq<Entry>, k: nat, log: seq<Visited>, exact: bool)
    requires k <= |seen|
  {
    forall i :: 0 <= i < |seen| ==>
      var b := Balance(share, maxDepth, seen, k, log, seen[i].rel);
      b.AtMost(EntrySize(share, maxDepth, seen[i])) && (exact ==> b == EntrySize(share, maxDepth, seen[i]))
  }

  // ---------------------------------------------------------------------
  // Sums over queues and logs
  // ---------------------------------------------------------------------

  lemma {:induction false} PendingAppend(share: Share, maxDepth: nat, a: seq<Entry>, b: seq<Entry>, p: string)
    ensures Pending(share, maxDepth, a + b, p)
         == Pending(share, maxDepth, a, p).Plus(Pending(share, maxDepth, b, p))
  {
    hide Chain, EntrySize, Size.Plus;
    if b == [] {
      assert a + b == a;
      PlusZero(Pending(share, maxDepth, a, p));
    } else {
      var last, init := b[|b| - 1], b[..|b| - 1];
      assert (a + b)[..|a + b| - 1] == a + init && (a + b)[|a + b| - 1] == last;
      PendingAppend(share, maxDepth, a, init, p);
      var worth := if p in Chain(last.rel) then EntrySize(share, maxDepth, last) else ZERO;
      assert Pending(share, maxDepth, a + b, p) == Pending(share, maxDepth, a + init, p).Plus(worth);
      PlusAssociates(Pending(share, maxDepth, a, p), Pending(share, maxDepth, init, p), worth);
    }
  }

  lemma {:induction false} PendingNone(share: Share, maxDepth: nat, queue: seq<Entry>, p: string)
    requires forall i :: 0 <= i < |queue| ==> p !in Chain(queue[i].rel)
    ensures Pending(share, maxDepth, queue, p) == ZERO
  {
    hide Chain, EntrySize, Size.Plus;
    if queue != [] {
      PendingNone(share, maxDepth, queue[..|queue| - 1], p);
      assert p !in Chain(queue[|queue| - 1].rel);
      PlusZero(ZERO);
    }
  }

  lemma {:induction false} RolledNone(log: seq<Visited>, p: string)
    requires forall i :: 0 <= i < |log| ==> p !in Chain(log[i].rel)
    ensures Rolled(log, p) == ZERO
  {
    hide Chain, Size.Plus;
    if log != [] {
      RolledNone(log[..|log| - 1], p);
      assert p !in Chain(log[|log| - 1].rel);
      PlusZero(ZERO);
    }
  }

  lemma PendingHead(share: Share, maxDepth: nat, queue: seq<Entry>, p: string)
    requires queue != []
    ensures Pending(share, maxDepth, queue, p) ==
      (if p in Chain(queue[0].rel) then EntrySize(share, maxDepth, queue[0]) else ZERO)
      .Plus(Pending(share, maxDepth, queue[1..], p))
  {
    hide Chain, EntrySize, Size.Plus;
    var head := [queue[0]];
    assert queue == head + queue[1..];
    PendingAppend(share, maxDepth, head, queue[1..], p);
    assert head[..|head| - 1] == [];
    assert Pending(share, maxDepth, [], p) == ZERO;
    PlusZero(if p in Chain(queue[0].rel) then EntrySize(share, maxDepth, queue[0]) else ZERO);
  }

  lemma ChainStep(p: string)
    requires p != ""
    ensures Chain(p) == {p} + Chain(Parent(p))
  {
  }

  /** The children of a folder together are worth its forest to every ancestor. */
  lemma {:induction false} PendingKids(share: Share, maxDepth: nat, e: Entry, dirs: seq<string>, p: string)
    requires e.depth < maxDepth
    requires forall i :: 0 <= i < |dirs| ==> GoodName(dirs[i]) && p != Child(e.rel, dirs[i])
    ensures Pending(share, maxDepth, Kids(e, dirs), p) ==
      if p in Chain(e.rel) then ForestSize(share, e.rel, dirs, maxDepth - e.depth - 1) else ZERO
  {
    hide Chain, Size.Plus, Child, GoodName, Depth, LastSeparator;
    if dirs != [] {
      var n, kids := |dirs| - 1, Kids(e, dirs);
      var last := kids[n];
      ChildParent(e.rel, dirs[n]);
      assert kids[..n] == Kids(e, dirs[..n]);
      PendingKids(share, maxDepth, e, dirs[..n], p);
      ChainStep(last.rel);
      assert p in Chain(last.rel) <==> p in Chain(e.rel);
      PlusZero(ZERO);
      assert EntrySize(share, maxDepth, last) == TreeSize(share, last.rel, maxDepth - e.depth - 1);
    }
  }

  lemma {:induction false} ForestPrefix(share: Share, rel: string, dirs: seq<string>, n: nat, levels: nat)
    requires n <= |dirs|
    ensures ForestSize(share, rel, dirs[..n], levels).AtMost(ForestSize(share, rel, dirs, levels))
    decreases |dirs|
  {
    if n < |dirs| {
      ForestPrefix(share, rel, dirs[..|dirs| - 1], n, levels);
      assert dirs[..|dirs| - 1][..n] == dirs[..n];
    } else {
      assert dirs[..n] == dirs;
    }
  }

  // ---------------------------------------------------------------------
  // Ancestors of queued folders
  // ---------------------------------------------------------------------

  /** Every proper ancestor of a folder ever queued has been dealt with. */
  lemma {:induction false} AncestorsDealtWith(share: Share, maxDepth: nat, seen: seq<Entry>, k: nat,
    log: seq<Visited>, i: nat, p: string)
    requires Frontier(share, maxDepth, seen, k, log) && i < |seen|
    requires p in Chain(seen[i].rel) && p != seen[i].rel
    ensures Holds(seen[..k], p)
    decreases |seen[i].rel|
  {
    assert i >= 1;
    var q := Parent(seen[i].rel);
    var j :| 0 <= j < |seen[..k]| && seen[..k][j].rel == q;
    assert seen[j].rel == q;
    if p != q {
      AncestorsDealtWith(share, maxDepth, seen, k, log, j, p);
    }
  }

  /** A folder not queued yet has nothing below it, visited or queued. */
  lemma NothingBelowNew(share: Share, maxDepth: nat, seen: seq<Entry>, k: nat, log: seq<Visited>, p: string)
    requires Frontier(share, maxDepth, seen, k, log) && !Holds(seen, p)
    ensures forall i :: 0 <= i < |seen| ==> p !in Chain(seen[i].rel)
    ensures forall i :: 0 <= i < |log| ==> p !in Chain(log[i].rel)
  {
    forall i | 0 <= i < |seen|
      ensures p !in Chain(seen[i].rel)
    {
      if p in Chain(seen[i].rel) {
        AncestorsDealtWith(share, maxDepth, seen, k, log, i, p);
        HoldsPrefix(seen, k, p);
      }
    }
    forall i | 0 <= i < |log|
      ensures p !in Chain(log[i].rel)
    {
      HoldsPrefix(seen, k, log[i].rel);
    }
  }

  lemma HoldsPrefix(seen: seq<Entry>, k: nat, p: string)
    requires k <= |seen| && Holds(seen[..k], p)
    ensures Holds(seen, p)
  {
    var j :| 0 <= j < |seen[..k]| && seen[..k][j].rel == p;
    assert seen[j].rel == p;
  }

  lemma HoldsAt(seen: seq<Entry>, i: nat)
    requires i < |seen|
    ensures Holds(seen, seen[i].rel)
  {
  }

  lemma HoldsMore(seen: seq<Entry>, more: seq<Entry>, p: string)
    requires Holds(seen, p)
    ensures Holds(seen + more, p)
  {
    var j :| 0 <= j < |seen| && seen[j].rel == p;
    assert (seen + more)[j].rel == p;
  }

  // ---------------------------------------------------------------------
  // One folder is dealt with
  // ---------------------------------------------------------------------

  lemma FrontierStart(share: Share, maxDepth: nat)
    ensures var seen := [Entry("", 0)];
      && Frontier(share, maxDepth, seen, 0, [])
      && Exhaustive(share, maxDepth, seen, 0)
      && Balanced(share, maxDepth, seen, 0, [], true)
  {
    hide EntrySize, TreeSize;
    var seen := [Entry("", 0)];
    assert seen[0..] == seen;
    PendingHead(share, maxDepth, seen, "");
    assert seen[1..] == [];
    assert Pending(share, maxDepth, [], "") == ZERO;
    assert Rolled([], "") == ZERO;
    assert "" in Chain("");
  }

  /** The folder at the head of the queue cannot be visited. */
  lemma SkipStep(share: Share, maxDepth: nat, seen: seq<Entry>, k: nat, log: seq<Visited>, exact: bool)
    requires Frontier(share, maxDepth, seen, k, log) && k < |seen|
    requires Balanced(share, maxDepth, seen, k, log, exact)
    requires share.Visit(seen[k].rel).None?
    ensures Frontier(share, maxDepth, seen, k + 1, log)
    ensures Balanced(share, maxDepth, seen, k + 1, log, exact)
    ensures Exhaustive(share, maxDepth, seen, k) && !share.Accepts(seen[k].rel) ==>
      Exhaustive(share, maxDepth, seen, k + 1)
  {
    hide Chain, TreeSize, EntrySize, Frontier, IsChild, Depth, Size.Plus;
    FrontierAdvance(share, maxDepth, seen, k, log);
    SkippedWorthless(share, maxDepth, seen[k]);
    forall i | 0 <= i < |seen|
      ensures Balance(share, maxDepth, seen, k + 1, log, seen[i].rel)
           == Balance(share, maxDepth, seen, k, log, seen[i].rel)
    {
      PendingHead(share, maxDepth, seen[k..], seen[i].rel);
      assert seen[k..][1..] == seen[k + 1..] && seen[k..][0] == seen[k];
      PlusZero(Pending(share, maxDepth, seen[k + 1..], seen[i].rel));
    }
  }

  lemma SkippedWorthless(share: Share, maxDepth: nat, e: Entry)
    requires share.Visit(e.rel).None?
    ensures EntrySize(share, maxDepth, e) == ZERO
    ensures forall rel :: !IsChild(share, e.rel, rel, maxDepth)
  {
  }

  lemma FrontierAdvance(share: Share, maxDepth: nat, seen: seq<Entry>, k: nat, log: seq<Visited>)
    requires Frontier(share, maxDepth, seen, k, log) && k < |seen|
    ensures Frontier(share, maxDepth, seen, k + 1, log)
    ensures Holds(seen[..k + 1], seen[k].rel)
  {
    hide Chain, IsChild, Depth, Holds;
    assert seen[..k + 1] == seen[..k] + [seen[k]];
    HoldsAt(seen[..k + 1], k);
    forall p | Holds(seen[..k], p)
      ensures Holds(seen[..k + 1], p)
    {
      HoldsMore(seen[..k], [seen[k]], p);
    }
  }

  /** The folder at the head of the queue is visited and its subfolders queued. */
  ghost predicate Visits(share: Share, maxDepth: nat, seen: seq<Entry>, k: nat, l: Listing) {
    && share.WellFormed()
    && k < |seen| && share.Visit(seen[k].rel) == Some(l)
  }

  predicate Truncates(e: Entry, l: Listing, maxDepth: nat) {
    e.depth < maxDepth && |l.dirs| > MAX_SUBDIRS_PER_DIR
  }

  /** A subfolder of the folder at the head of the queue has never been queued. */
  lemma KidIsNew(share: Share, maxDepth: nat, seen: seq<Entry>, k: nat, log: seq<Visited>, name: string)
    requires Frontier(share, maxDepth, seen, k, log) && k < |seen| && GoodName(name)
    ensures !Holds(seen, Child(seen[k].rel, name))
  {
    hide Child, Depth, IsChild, LastSeparator;
    var p := Child(seen[k].rel, name);
    ChildParent(seen[k].rel, name);
    assert forall j :: 0 <= j < k ==> seen[..k][j].rel != seen[k].rel;
    assert !Holds(seen[..k], Parent(p));
    assert forall i :: 0 <= i < |seen| ==> seen[i].rel != p;
  }

  lemma KidFacts(share: Share, maxDepth: nat, seen: seq<Entry>, k: nat, log: seq<Visited>, l: Listing, i: nat)
    requires Frontier(share, maxDepth, seen, k, log) && Visits(share, maxDepth, seen, k, l)
    requires i < |Pushed(seen[k], l, maxDepth)|
    ensures var kid := Pushed(seen[k], l, maxDepth)[i];
      && kid == Entry(Child(seen[k].rel, l.dirs[i]), seen[k].depth + 1)
      && GoodName(l.dirs[i]) && l.dirs[i] in l.dirs
      && kid.rel != "" && Parent(kid.rel) == seen[k].rel
      && kid.depth == Depth(kid.rel) <= maxDepth
      && IsChild(share, seen[k].rel, kid.rel, maxDepth)
      && !Holds(seen, kid.rel)
  {
    ChildParent(seen[k].rel, l.dirs[i]);
    KidIsNew(share, maxDepth, seen, k, log, l.dirs[i]);
  }

  lemma VisitFrontier(share: Share, maxDepth: nat, seen: seq<Entry>, k: nat, log: seq<Visited>, l: Listing)
    requires k < |seen|
    requires Frontier(share, maxDepth, seen, k, log) && Visits(share, maxDepth, seen, k, l)
    ensures Frontier(share, maxDepth, seen + Pushed(seen[k], l, maxDepth), k + 1,
      log + [Visited(seen[k].rel, seen[k].depth, l)])
  {
    hide Child, Depth, Parent, IsChild, LastSeparator, GoodName, Pushed, Visits, Holds, Share.WellFormed, Share.Visit;
    var kids := Pushed(seen[k], l, maxDepth);
    var more, logged := seen + kids, log + [Visited(seen[k].rel, seen[k].depth, l)];
    FrontierAdvance(share, maxDepth, seen, k, log);
    assert more[..k + 1] == seen[..k + 1];
    assert forall i :: 0 <= i < |seen| ==> more[i] == seen[i];
    forall i | |seen| <= i < |more|
      ensures more[i].depth == Depth(more[i].rel) <= maxDepth && more[i].rel != ""
      ensures Parent(more[i].rel) == seen[k].rel && IsChild(share, seen[k].rel, more[i].rel, maxDepth)
      ensures !Holds(seen, more[i].rel)
    {
      KidFacts(share, maxDepth, seen, k, log, l, i - |seen|);
    }
    forall i, j | 0 <= i < j < |more|
      ensures more[i].rel != more[j].rel
    {
      if i >= |seen| {
        KidsDistinct(share, maxDepth, seen, k, l, i - |seen|, j - |seen|);
      } else if j >= |seen| {
        HoldsAt(seen, i);
      }
    }
  }

  lemma KidsDistinct(share: Share, maxDepth: nat, seen: seq<Entry>, k: nat, l: Listing, i: nat, j: nat)
    requires Visits(share, maxDepth, seen, k, l)
    requires i < j < |Pushed(seen[k], l, maxDepth)|
    ensures Pushed(seen[k], l, maxDepth)[i].rel != Pushed(seen[k], l, maxDepth)[j].rel
  {
    var rel := seen[k].rel;
    if Child(rel, l.dirs[i]) == Child(rel, l.dirs[j]) {
      ChildInjective(rel, l.dirs[i], l.dirs[j]);
    }
  }

  lemma KidQueued(share: Share, maxDepth: nat, seen: seq<Entry>, k: nat, log: seq<Visited>, l: Listing, rel: string)
    requires Frontier(share, maxDepth, seen, k, log) && Visits(share, maxDepth, seen, k, l)
    requires !Truncates(seen[k], l, maxDepth) && IsChild(share, seen[k].rel, rel, maxDepth)
    ensures Holds(seen + Pushed(seen[k], l, maxDepth), rel)
  {
    hide Child, Depth, Frontier, Share.WellFormed, Share.Visit, Holds;
    var e, kids := seen[k], Pushed(seen[k], l, maxDepth);
    FrontierDepth(share, maxDepth, seen, k, log, l);
    var name :| name in l.dirs && rel == Child(e.rel, name);
    var n :| 0 <= n < |l.dirs| && l.dirs[n] == name;
    assert kids[n].rel == rel;
    HoldsAt(seen + kids, |seen| + n);
  }

  lemma VisitExhaustive(share: Share, maxDepth: nat, seen: seq<Entry>, k: nat, log: seq<Visited>, l: Listing)
    requires Frontier(share, maxDepth, seen, k, log) && Visits(share, maxDepth, seen, k, l)
    requires Exhaustive(share, maxDepth, seen, k) && !Truncates(seen[k], l, maxDepth)
    ensures Exhaustive(share, maxDepth, seen + Pushed(seen[k], l, maxDepth), k + 1)
  {
    hide Child, Depth, Frontier;
    var kids := Pushed(seen[k], l, maxDepth);
    forall i, rel | 0 <= i <= k && IsChild(share, seen[i].rel, rel, maxDepth)
      ensures Holds(seen + kids, rel)
    {
      if i < k {
        HoldsMore(seen, kids, rel);
      } else {
        KidQueued(share, maxDepth, seen, k, log, l, rel);
      }
    }
  }

  /** What visiting a folder is worth: its own listing and its subfolders. */
  lemma VisitWorth(share: Share, maxDepth: nat, e: Entry, l: Listing)
    requires share.Visit(e.rel) == Some(l) && e.depth <= maxDepth
    ensures var forest :=
      if e.depth < maxDepth then ForestSize(share, e.rel, Fanout(l), maxDepth - e.depth - 1) else ZERO;
      && Own(l).Plus(forest).AtMost(EntrySize(share, maxDepth, e))
      && (!Truncates(e, l, maxDepth) ==> Own(l).Plus(forest) == EntrySize(share, maxDepth, e))
  {
    hide Size.Plus, Own, ForestSize;
    PlusZero(Own(l));
    if e.depth < maxDepth {
      var levels := maxDepth - e.depth - 1;
      ForestPrefix(share, e.rel, l.dirs, |Fanout(l)|, levels);
      assert l.dirs[..|l.dirs|] == l.dirs;
      assert Fanout(l) == l.dirs[..|Fanout(l)|];
      assert EntrySize(share, maxDepth, e) == Own(l).Plus(ForestSize(share, e.rel, l.dirs, levels));
      PlusMonotone(Own(l), ForestSize(share, e.rel, Fanout(l), levels), ForestSize(share, e.rel, l.dirs, levels));
    }
  }

  /** The balance of a folder queued before the visit. */
  lemma VisitBalanceOld(share: Share, maxDepth: nat, seen: seq<Entry>, k: nat, log: seq<Visited>, l: Listing, i: nat)
    requires k < |seen|
    requires Frontier(share, maxDepth, seen, k, log) && Visits(share, maxDepth, seen, k, l)
    requires i < |seen|
    ensures var p, kids := seen[i].rel, Pushed(seen[k], l, maxDepth);
      var before := Balance(share, maxDepth, seen, k, log, p);
      var after := Balance(share, maxDepth, seen + kids, k + 1, log + [Visited(seen[k].rel, seen[k].depth, l)], p);
      after.AtMost(before) && (!Truncates(seen[k], l, maxDepth) ==> after == before)
  {
    hide Chain, ForestSize, TreeSize, Child, Depth, IsChild, EntrySize, Own, Frontier, Visits, Pushed;
    hide Size.Plus, Size.AtMost;
    var p, e, kids := seen[i].rel, seen[k], Pushed(seen[k], l, maxDepth);
    var logged, rest := log + [Visited(e.rel, e.depth, l)], seen[k + 1..];
    var under := p in Chain(e.rel);
    assert logged[..|logged| - 1] == log && logged[|logged| - 1] == Visited(e.rel, e.depth, l);
    assert seen[k..][1..] == rest && seen[k..][0] == e;
    assert (seen + kids)[k + 1..] == rest + kids;
    PendingHead(share, maxDepth, seen[k..], p);
    PendingAppend(share, maxDepth, rest, kids, p);
    KidsWorth(share, maxDepth, seen, k, log, l, i);
    FrontierDepth(share, maxDepth, seen, k, log, l);
    VisitWorth(share, maxDepth, e, l);
    PlusZero(ZERO);
    ZeroAtMost(ZERO);
    Rebalance(Rolled(log, p), Pending(share, maxDepth, rest, p), if under then Own(l) else ZERO,
      Pending(share, maxDepth, kids, p), if under then EntrySize(share, maxDepth, e) else ZERO);
  }

  lemma FrontierDepth(share: Share, maxDepth: nat, seen: seq<Entry>, k: nat, log: seq<Visited>, l: Listing)
    requires Frontier(share, maxDepth, seen, k, log) && Visits(share, maxDepth, seen, k, l)
    ensures seen[k].depth == Depth(seen[k].rel) <= maxDepth && share.Visit(seen[k].rel) == Some(l)
  {
  }

  lemma ZeroAtMost(a: Size)
    ensures ZERO.AtMost(a)
  {
  }

  lemma KidsWorth(share: Share, maxDepth: nat, seen: seq<Entry>, k: nat, log: seq<Visited>, l: Listing, i: nat)
    requires Frontier(share, maxDepth, seen, k, log) && Visits(share, maxDepth, seen, k, l)
    requires i < |seen|
    ensures var e := seen[k];
      Pending(share, maxDepth, Pushed(e, l, maxDepth), seen[i].rel) ==
      if e.depth < maxDepth && seen[i].rel in Chain(e.rel)
      then ForestSize(share, e.rel, Fanout(l), maxDepth - e.depth - 1) else ZERO
  {
    hide Chain, ForestSize, TreeSize, Child, Depth, IsChild, EntrySize, GoodName;
    var e, dirs := seen[k], Fanout(l);
    if e.depth < maxDepth {
      forall n | 0 <= n < |dirs|
        ensures GoodName(dirs[n]) && seen[i].rel != Child(e.rel, dirs[n])
      {
        KidFacts(share, maxDepth, seen, k, log, l, n);
        HoldsAt(seen, i);
      }
      PendingKids(share, maxDepth, e, dirs, seen[i].rel);
    }
  }

  lemma {:induction false} PendingOnly(share: Share, maxDepth: nat, queue: seq<Entry>, i: nat, p: string)
    requires i < |queue| && p in Chain(queue[i].rel)
    requires forall j :: 0 <= j < |queue| && j != i ==> p !in Chain(queue[j].rel)
    ensures Pending(share, maxDepth, queue, p) == EntrySize(share, maxDepth, queue[i])
  {
    hide Chain, EntrySize, Size.Plus;
    var n := |queue| - 1;
    PlusZero(EntrySize(share, maxDepth, queue[i]));
    if i == n {
      PendingNone(share, maxDepth, queue[..n], p);
    } else {
      assert p !in Chain(queue[n].rel);
      PendingOnly(share, maxDepth, queue[..n], i, p);
    }
  }

  /** A subfolder queued by the visit starts out worth its own recursive size. */
  lemma VisitBalanceNew(share: Share, maxDepth: nat, seen: seq<Entry>, k: nat, log: seq<Visited>, l: Listing, n: nat)
    requires k < |seen|
    requires Frontier(share, maxDepth, seen, k, log) && Visits(share, maxDepth, seen, k, l)
    requires n < |Pushed(seen[k], l, maxDepth)|
    ensures var kids := Pushed(seen[k], l, maxDepth);
      Balance(share, maxDepth, seen + kids, k + 1, log + [Visited(seen[k].rel, seen[k].depth, l)], kids[n].rel)
      == EntrySize(share, maxDepth, kids[n])
  {
    hide Chain, Child, Depth, IsChild, EntrySize, GoodName, Frontier, Visits, Pushed, Size.Plus, Rolled;
    var e, kids := seen[k], Pushed(seen[k], l, maxDepth);
    var p, logged, rest := kids[n].rel, log + [Visited(e.rel, e.depth, l)], seen[k + 1..];
    KidFacts(share, maxDepth, seen, k, log, l, n);
    NothingBelowNew(share, maxDepth, seen, k, log, p);
    assert p !in Chain(seen[k].rel);
    forall j | 0 <= j < |logged|
      ensures p !in Chain(logged[j].rel)
    {
    }
    RolledNone(logged, p);
    assert (seen + kids)[k + 1..] == rest + kids;
    PendingAppend(share, maxDepth, rest, kids, p);
    forall j | 0 <= j < |rest|
      ensures p !in Chain(rest[j].rel)
    {
      assert rest[j] == seen[k + 1 + j];
    }
    PendingNone(share, maxDepth, rest, p);
    forall j | 0 <= j < |kids|
      ensures p in Chain(kids[j].rel) <==> j == n
    {
      KidFacts(share, maxDepth, seen, k, log, l, j);
      ChainStep(kids[j].rel);
      if j < n {
        KidsDistinct(share, maxDepth, seen, k, l, j, n);
      } else if n < j {
        KidsDistinct(share, maxDepth, seen, k, l, n, j);
      }
    }
    PendingOnly(share, maxDepth, kids, n, p);
    PlusZero(EntrySize(share, maxDepth, kids[n]));
  }

  lemma VisitBalanced(share: Share, maxDepth: nat, seen: seq<Entry>, k: nat, log: seq<Visited>, l: Listing,
    exact: bool)
    requires k < |seen| && Frontier(share, maxDepth, seen, k, log) && Visits(share, maxDepth, seen, k, l)
    requires Balanced(share, maxDepth, seen, k, log, exact)
    ensures Balanced(share, maxDepth, seen + Pushed(seen[k], l, maxDepth), k + 1,
      log + [Visited(seen[k].rel, seen[k].depth, l)], exact && !Truncates(seen[k], l, maxDepth))
  {
    hide Chain, EntrySize, Pushed, Balance, Frontier, Visits;
    var kids := Pushed(seen[k], l, maxDepth);
    var more := seen + kids;
    forall i | 0 <= i < |more|
      ensures var logged := log + [Visited(seen[k].rel, seen[k].depth, l)];
        var b := Balance(share, maxDepth, more, k + 1, logged, more[i].rel);
        && b.AtMost(EntrySize(share, maxDepth, more[i]))
        && (exact && !Truncates(seen[k], l, maxDepth) ==> b == EntrySize(share, maxDepth, more[i]))
    {
      if i < |seen| {
        VisitBalanceOld(share, maxDepth, seen, k, log, l, i);
      } else {
        VisitBalanceNew(share, maxDepth, seen, k, log, l, i - |seen|);
      }
    }
  }

  // ---------------------------------------------------------------------
  // The walk is over
  // ---------------------------------------------------------------------

  lemma {:induction false} QueuedIsInTree(share: Share, maxDepth: nat, seen: seq<Entry>, k: nat, log: seq<Visited>,
    i: nat)
    requires Frontier(share, maxDepth, seen, k, log) && i < |seen|
    ensures InTree(share, seen[i].rel, maxDepth)
    decreases |seen[i].rel|
  {
    hide IsChild, Depth, LastSeparator;
    if i > 0 {
      var j :| 0 <= j < |seen[..k]| && seen[..k][j].rel == Parent(seen[i].rel);
      QueuedIsInTree(share, maxDepth, seen, k, log, j);
    }
  }

  lemma {:induction false} TreeIsQueued(share: Share, maxDepth: nat, seen: seq<Entry>, log: seq<Visited>, rel: string)
    requires Frontier(share, maxDepth, seen, |seen|, log) && Exhaustive(share, maxDepth, seen, |seen|)
    requires InTree(share, rel, maxDepth)
    ensures Holds(seen, rel)
    decreases |rel|
  {
    hide IsChild, Depth, LastSeparator;
    if rel == "" {
      HoldsAt(seen, 0);
    } else {
      TreeIsQueued(share, maxDepth, seen, log, Parent(rel));
      var j :| 0 <= j < |seen| && seen[j].rel == Parent(rel);
      assert IsChild(share, seen[j].rel, rel, maxDepth);
    }
  }

  /** The node map covers what was queued, once something was visited. */
  ghost predicate Covers(nodes: Nodes, seen: seq<Entry>, log: seq<Visited>) {
    && (forall p :: p in nodes ==> Holds(seen, p) && nodes[p].depth == Depth(p))
    && (forall i :: 0 <= i < |seen| && log != [] ==> seen[i].rel in nodes)
    && (log == [] ==> nodes == map[] && |seen| == 1)
  }

  lemma OnlyRoot(share: Share, maxDepth: nat, seen: seq<Entry>, k: nat, log: seq<Visited>)
    requires Frontier(share, maxDepth, seen, k, log)
    ensures seen[0].rel == ""
  {
    hide IsChild, Depth, LastSeparator, Holds;
  }

  lemma CreditedCovers(nodes: Nodes, seen: seq<Entry>, paths: set<string>, l: Listing)
    requires forall p :: p in nodes ==> Holds(seen, p) && nodes[p].depth == Depth(p)
    requires forall p :: p in paths ==> Holds(seen, p)
    ensures var r := CreditAll(nodes, paths, l);
      forall p :: p in r ==> Holds(seen, p) && r[p].depth == Depth(p)
  {
    hide Depth, Holds;
  }

  lemma VisitCovers(share: Share, maxDepth: nat, seen: seq<Entry>, k: nat, log: seq<Visited>, l: Listing, nodes: Nodes)
    requires k < |seen|
    requires Frontier(share, maxDepth, seen, k, log) && Visits(share, maxDepth, seen, k, l)
    requires Covers(nodes, seen, log) && RolledUp(nodes, log)
    ensures var e := seen[k];
      var kids := Pushed(e, l, maxDepth);
      Covers(Created(CreditAll(nodes, Chain(e.rel), l), kids), seen + kids, log + [Visited(e.rel, e.depth, l)])
  {
    hide IsChild, Depth, LastSeparator, Chain, Child, Visits, Holds, Frontier, RolledUp, Created, Credited, Pushed;
    var e, kids := seen[k], Pushed(seen[k], l, maxDepth);
    var credited := CreditAll(nodes, Chain(e.rel), l);
    forall p | p in Chain(e.rel)
      ensures Holds(seen, p)
    {
      HoldsAt(seen, k);
      if p != e.rel {
        AncestorsDealtWith(share, maxDepth, seen, k, log, k, p);
        HoldsPrefix(seen, k, p);
      }
    }
    ChainRoot(e.rel);
    CreditedCovers(nodes, seen, Chain(e.rel), l);
    if log == [] {
      OnlyRoot(share, maxDepth, seen, k, log);
    }
    assert forall i :: 0 <= i < |seen| ==> seen[i].rel in credited;
    forall i | 0 <= i < |kids|
      ensures kids[i].depth == Depth(kids[i].rel)
    {
      KidFacts(share, maxDepth, seen, k, log, l, i);
    }
    CreatedCovers(credited, seen, kids);
  }

  lemma {:induction false} CreatedCovers(nodes: Nodes, seen: seq<Entry>, kids: seq<Entry>)
    requires forall p :: p in nodes ==> Holds(seen, p) && nodes[p].depth == Depth(p)
    requires forall i :: 0 <= i < |seen| ==> seen[i].rel in nodes
    requires forall i :: 0 <= i < |kids| ==> kids[i].depth == Depth(kids[i].rel)
    ensures var r := Created(nodes, kids);
      && (forall p :: p in r ==> Holds(seen + kids, p) && r[p].depth == Depth(p))
      && (forall i :: 0 <= i < |seen + kids| ==> (seen + kids)[i].rel in r)
  {
    hide Depth, Holds;
    if kids == [] {
      assert seen + kids == seen;
    } else {
      var n := |kids| - 1;
      CreatedCovers(nodes, seen, kids[..n]);
      assert seen + kids == seen + kids[..n] + [kids[n]];
      HoldsAt(seen + kids, |seen| + n);
      forall p | Holds(seen + kids[..n], p)
        ensures Holds(seen + kids, p)
      {
        HoldsMore(seen + kids[..n], [kids[n]], p);
      }
    }
  }

  /** Best effort: no node ever counts more than the folder's recursive size. */
  ghost predicate NeverOver(share: Share, maxDepth: nat, nodes: Nodes) {
    forall p :: p in nodes ==>
      && InTree(share, p, maxDepth) && nodes[p].depth == Depth(p) <= maxDepth
      && nodes[p].Total().AtMost(TreeSize(share, p, maxDepth - Depth(p)))
  }

  /** Complete: the nodes are the folders of the tree, each with its recursive size. */
  ghost predicate Complete(share: Share, maxDepth: nat, nodes: Nodes) {
    && (forall p :: p in nodes <==> share.Visit("").Some? && InTree(share, p, maxDepth))
    && (forall p :: p in nodes ==>
      Depth(p) <= maxDepth && nodes[p].Total() == TreeSize(share, p, maxDepth - Depth(p)))
  }

  lemma NodeNeverOver(share: Share, maxDepth: nat, seen: seq<Entry>, k: nat, log: seq<Visited>, exact: bool, p: string)
    requires Frontier(share, maxDepth, seen, k, log) && Balanced(share, maxDepth, seen, k, log, exact)
    requires Holds(seen, p)
    ensures InTree(share, p, maxDepth) && Depth(p) <= maxDepth
    ensures Rolled(log, p).AtMost(TreeSize(share, p, maxDepth - Depth(p)))
    ensures exact && k == |seen| ==> Rolled(log, p) == TreeSize(share, p, maxDepth - Depth(p))
  {
    hide IsChild, Depth, LastSeparator, Chain, TreeSize, InTree, Size.Plus, Size.AtMost;
    var i :| 0 <= i < |seen| && seen[i].rel == p;
    QueuedIsInTree(share, maxDepth, seen, k, log, i);
    assert EntrySize(share, maxDepth, seen[i]) == TreeSize(share, p, maxDepth - Depth(p));
    assert Balance(share, maxDepth, seen, k, log, p).AtMost(EntrySize(share, maxDepth, seen[i]));
    PartAtMost(Rolled(log, p), Pending(share, maxDepth, seen[k..], p), EntrySize(share, maxDepth, seen[i]));
    if k == |seen| {
      assert seen[k..] == [];
      PlusZero(Rolled(log, p));
    }
  }

  lemma WalkNeverOver(share: Share, maxDepth: nat, seen: seq<Entry>, k: nat, log: seq<Visited>, nodes: Nodes,
    exact: bool)
    requires Frontier(share, maxDepth, seen, k, log) && Balanced(share, maxDepth, seen, k, log, exact)
    requires Covers(nodes, seen, log) && RolledUp(nodes, log)
    ensures NeverOver(share, maxDepth, nodes)
    ensures exact && k == |seen| ==> forall p :: p in nodes ==>
      Depth(p) <= maxDepth && nodes[p].Total() == TreeSize(share, p, maxDepth - Depth(p))
  {
    hide Depth, TreeSize, InTree, Frontier, Balanced, Size.AtMost;
    forall p | p in nodes
      ensures InTree(share, p, maxDepth) && Depth(p) <= maxDepth
      ensures nodes[p].Total().AtMost(TreeSize(share, p, maxDepth - Depth(p)))
      ensures exact && k == |seen| ==> nodes[p].Total() == TreeSize(share, p, maxDepth - Depth(p))
    {
      NodeNeverOver(share, maxDepth, seen, k, log, exact, p);
    }
  }

  /** Every folder of the tree that may be visited was listed. */
  ghost predicate AllListed(share: Share, maxDepth: nat, log: seq<Visited>) {
    forall rel :: InTree(share, rel, maxDepth) && share.Accepts(rel) ==> Listed(log, rel)
  }

  lemma LoggedSkip(share: Share, seen: seq<Entry>, k: nat, log: seq<Visited>)
    requires k < |seen| && Logged(share, seen, k, log) && share.Visit(seen[k].rel).None?
    ensures Logged(share, seen, k + 1, log)
  {
    hide Share.Visit, Listed;
  }

  lemma LoggedAppend(share: Share, seen: seq<Entry>, k: nat, log: seq<Visited>, kids: seq<Entry>, v: Visited)
    requires k < |seen| && Logged(share, seen, k, log) && v.rel == seen[k].rel
    ensures Logged(share, seen + kids, k + 1, log + [v])
  {
    hide Share.Visit;
    var more := log + [v];
    assert more[|log|] == v;
    forall i | 0 <= i <= k && share.Visit(seen[i].rel).Some?
      ensures Listed(more, seen[i].rel)
    {
      if i < k {
        var j :| 0 <= j < |log| && log[j].rel == seen[i].rel;
        assert more[j] == log[j];
      }
    }
  }

  lemma WalkComplete(share: Share, maxDepth: nat, seen: seq<Entry>, log: seq<Visited>, nodes: Nodes)
    requires Frontier(share, maxDepth, seen, |seen|, log) && Balanced(share, maxDepth, seen, |seen|, log, true)
    requires Exhaustive(share, maxDepth, seen, |seen|)
    requires Covers(nodes, seen, log) && RolledUp(nodes, log) && Logged(share, seen, |seen|, log)
    requires log != [] <==> share.Visit("").Some?
    ensures Complete(share, maxDepth, nodes) && AllListed(share, maxDepth, log)
  {
    hide Frontier, Balanced, Exhaustive, RolledUp, Logged, InTree, Depth, TreeSize, AllListed, Share.Visit;
    WalkNeverOver(share, maxDepth, seen, |seen|, log, nodes, true);
    WalkAllListed(share, maxDepth, seen, log);
    forall p | share.Visit("").Some? && InTree(share, p, maxDepth)
      ensures p in nodes
    {
      TreeIsQueued(share, maxDepth, seen, log, p);
    }
  }

  lemma WalkAllListed(share: Share, maxDepth: nat, seen: seq<Entry>, log: seq<Visited>)
    requires Frontier(share, maxDepth, seen, |seen|, log) && Exhaustive(share, maxDepth, seen, |seen|)
    requires Logged(share, seen, |seen|, log)
    ensures AllListed(share, maxDepth, log)
  {
    hide Frontier, InTree, IsChild, Depth, Share.Visit, Share.Accepts, Listed;
    forall p | InTree(share, p, maxDepth) && share.Accepts(p)
      ensures Listed(log, p)
    {
      TreeIsQueued(share, maxDepth, seen, log, p);
      var i :| 0 <= i < |seen| && seen[i].rel == p;
    }
  }
}
