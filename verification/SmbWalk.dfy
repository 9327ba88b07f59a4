/** The bounded breadth-first walk of a watched folder, under a call budget shared
    between folders and a deadline. */
module SmbWalk {
  import opened Shared
  import opened SmbFrontier
  import opened SmbNodes
  import opened SmbTree

  class Budget {
    var calls: int

    constructor (calls: int)
      ensures this.calls == calls
    {
      this.calls := calls;
    }
  }

  class Totals {
    var folders: nat
    var files: nat
    var bytes: nat

    constructor ()
      ensures folders == files == bytes == 0
    {
      folders, files, bytes := 0, 0, 0;
    }

    method Add(l: Listing)
      modifies this
      ensures folders == old(folders) + 1
      ensures files == old(files) + l.fileCount && bytes == old(bytes) + l.fileBytes
    {
      folders, files, bytes := folders + 1, files + l.fileCount, bytes + l.fileBytes;
    }
  }

  /** The clock and the operator, asked at the start of every round. */
  datatype Control = Control(expired: nat -> bool, cancelled: nat -> bool)

  datatype WalkResult = Cancelled | Walked(nodes: Nodes, partial: bool)

  ghost predicate Truthful(share: Share, log: seq<Visited>) {
    forall i :: 0 <= i < |log| ==> share.Visit(log[i].rel) == Some(log[i].listing)
  }

  /** What the loop keeps about the share's tree, given well-formed listings. */
  ghost predicate Accounted(share: Share, maxDepth: nat, seen: seq<Entry>, k: nat, log: seq<Visited>, nodes: Nodes,
    partial: bool)
  {
    && Frontier(share, maxDepth, seen, k, log)
    && Balanced(share, maxDepth, seen, k, log, !partial)
    && Covers(nodes, seen, log) && Logged(share, seen, k, log)
    && (!partial ==> Exhaustive(share, maxDepth, seen, k))
    && (k > 0 ==> (log != [] <==> share.Visit("").Some?))
  }

  /** The loop invariant: the books balance at every moment of the walk. */
  ghost predicate Books(share: Share, maxDepth: nat, seen: seq<Entry>, k: nat, log: seq<Visited>, nodes: Nodes,
    partial: bool)
  {
    && Truthful(share, log) && RolledUp(nodes, log)
    && (share.WellFormed() ==> Accounted(share, maxDepth, seen, k, log, nodes, partial))
  }

  /** A listing failed, or a folder above the depth limit had more subfolders than are
      followed. */
  ghost predicate Lossy(maxDepth: nat, log: seq<Visited>, calls: nat) {
    calls > |log| ||
      exists i :: 0 <= i < |log| && Truncates(Entry(log[i].rel, log[i].depth), log[i].listing, maxDepth)
  }

  /** The first `rounds` rounds met neither the deadline nor a cancellation. */
  ghost predicate Undisturbed(control: Control, rounds: nat) {
    forall i :: 0 <= i < rounds ==> !control.expired(i) && !control.cancelled(i)
  }

  /** What the log and the counts of a walk tell: each entry is what an accepted path
      listed; the walk was lossy if a call failed, or a folder above the depth limit had
      more than 4000 subfolders; it never went on past the deadline or a cancellation. */
  lemma LogMeans(share: Share, maxDepth: nat, log: seq<Visited>, calls: nat, control: Control, rounds: nat)
    ensures Truthful(share, log) <==> forall v :: v in log ==>
      share.Accepts(v.rel) && share.ls(share.Full(v.rel)).Some? &&
      v.listing == ListingOf(share.ls(share.Full(v.rel)).value)
    ensures Lossy(maxDepth, log, calls) <==>
      |log| < calls || exists v :: v in log && v.depth < maxDepth && |v.listing.dirs| > 4000
    ensures Undisturbed(control, rounds) <==>
      forall i: nat :: control.expired(i) || control.cancelled(i) ==> rounds <= i
  {
    hide ListingOf, SubPattern, Share.Full;
    assert forall v :: v in log <==> exists i :: 0 <= i < |log| && log[i] == v;
  }

  /** Credits a listing and queues its subfolders. */
  method TakeListing(nodes: Nodes, queue: seq<Entry>, e: Entry, l: Listing, maxDepth: nat, partial: bool)
    returns (r: Nodes, q: seq<Entry>, p: bool)
    ensures r == Created(CreditAll(nodes, Chain(e.rel), l), Pushed(e, l, maxDepth))
    ensures q == queue + Pushed(e, l, maxDepth)
    ensures p == (partial || Truncates(e, l, maxDepth))
    ensures p <==> partial || (e.depth < maxDepth && |l.dirs| > 4000)
    ensures |q| - |queue| == if e.depth >= maxDepth then 0 else if |l.dirs| > 4000 then 4000 else |l.dirs|
    ensures forall i :: |queue| <= i < |q| ==>
      var name := l.dirs[i - |queue|];
      q[i] == Entry(if e.rel == "" then name else e.rel + "\\" + name, e.depth + 1)
  {
    hide Created, CreditAll, Kids, Fanout, Chain, Pushed, Truncates;
    r := CreditAncestors(nodes, e.rel, l);
    q, p := queue, partial;
    PushedIs(r, e, l, maxDepth);
    if e.depth < maxDepth {
      r, q := EnqueueKids(r, q, e, l);
      p := p || |l.dirs| > MAX_SUBDIRS_PER_DIR;
    }
    PushedAre(e, l, maxDepth);
  }

  lemma PushedAre(e: Entry, l: Listing, maxDepth: nat)
    ensures Truncates(e, l, maxDepth) <==> e.depth < maxDepth && |l.dirs| > 4000
    ensures var kids := Pushed(e, l, maxDepth);
      && |kids| == (if e.depth >= maxDepth then 0 else if |l.dirs| > 4000 then 4000 else |l.dirs|)
      && forall i :: 0 <= i < |kids| ==>
        kids[i] == Entry(if e.rel == "" then l.dirs[i] else e.rel + "\\" + l.dirs[i], e.depth + 1)
  {
  }

  /** `calls` counts the listings asked for, `log` records those that came back,
      `rounds` counts the completed rounds, and `left` is still queued at the end. */
  method WalkRoot(share: Share, maxDepth: nat, budget: Budget, control: Control, totals: Totals)
    returns (r: WalkResult, ghost log: seq<Visited>, ghost calls: nat, ghost rounds: nat, ghost left: seq<Entry>)
    modifies budget, totals
    ensures budget.calls == old(budget.calls) - calls
    ensures calls > 0 ==> budget.calls >= 0
    ensures Truthful(share, log) && |log| <= calls <= rounds
    ensures totals.folders == old(totals.folders) + |log|
    ensures totals.files == old(totals.files) + Rolled(log, "").files
    ensures totals.bytes == old(totals.bytes) + Rolled(log, "").bytes
    ensures r.Walked? ==> RolledUp(r.nodes, log)
    ensures r.Walked? && share.WellFormed() ==> NeverOver(share, maxDepth, r.nodes)
    ensures r.Walked? && share.WellFormed() && !r.partial ==>
      Complete(share, maxDepth, r.nodes) && AllListed(share, maxDepth, log)
    ensures r.Walked? ==> (r.partial <==> left != [] || Lossy(maxDepth, log, calls))
    ensures r.Walked? && left != [] ==> budget.calls <= 0 || control.expired(rounds)
    ensures r.Cancelled? ==> control.cancelled(rounds)
    ensures Undisturbed(control, rounds)
  {
    hide Lossy, AllListed, Undisturbed;
    hide Books, RolledUp, Rolled, CreditAll, Created, Pushed, Kids, Fanout, Chain, Truncates, NeverOver, Complete;
    hide Share.WellFormed, Share.Visit, Share.Full, Share.Accepts, SubPattern, ListingOf, Truthful, Size.Plus, Own;
    var nodes: Nodes, partial := map[], false;
    var queue := [Entry("", 0)];
    var step: nat := 0;
    left := [];
    ghost var seen, k := queue, 0;
    log, calls := [], 0;
    BooksOpen(share, maxDepth);
    NothingLost(maxDepth, control);
    while |queue| > 0
      invariant k <= |seen| && queue == seen[k..]
      invariant budget.calls == old(budget.calls) - calls && (calls > 0 ==> budget.calls >= 0)
      invariant |log| <= calls <= step
      invariant Undisturbed(control, step)
      invariant left == [] && (partial <==> Lossy(maxDepth, log, calls))
      invariant totals.folders == old(totals.folders) + |log|
      invariant totals.files == old(totals.files) + Rolled(log, "").files
      invariant totals.bytes == old(totals.bytes) + Rolled(log, "").bytes
      invariant Books(share, maxDepth, seen, k, log, nodes, partial)
      decreases if budget.calls > 0 then budget.calls else 0, |queue|
    {
      if budget.calls <= 0 || control.expired(step) {
        BooksPartial(share, maxDepth, seen, k, log, nodes, partial);
        partial, left := true, queue;
        break;
      }
      if control.cancelled(step) {
        BooksClose(share, maxDepth, seen, k, log, nodes, true);
        return Cancelled, log, calls, step, queue;
      }
      StillUndisturbed(control, step);
      step := step + 1;
      var e := queue[0];
      assert e == seen[k];
      queue := queue[1..];
      k := k + 1;
      var f := share.Full(e.rel);
      VisitIs(share, e.rel);
      if !SubPattern(f) {
        BooksSkip(share, maxDepth, seen, k - 1, log, nodes, partial, true);
        continue;
      }
      budget.calls, calls := budget.calls - 1, calls + 1;
      var lines := share.ls(f);
      if lines.None? {
        BooksSkip(share, maxDepth, seen, k - 1, log, nodes, partial, false);
        partial := true;
        MoreCalls(maxDepth, log, calls);
        continue;
      }
      var l := ParseDir(lines.value);
      BooksVisit(share, maxDepth, seen, k - 1, log, nodes, partial, l);
      totals.Add(l);
      LossyGrows(maxDepth, log, calls - 1, Visited(e.rel, e.depth, l));
      log := log + [Visited(e.rel, e.depth, l)];
      nodes, queue, partial := TakeListing(nodes, queue, e, l, maxDepth, partial);
      seen := seen + Pushed(e, l, maxDepth);
    }
    BooksClose(share, maxDepth, seen, k, log, nodes, partial);
    r, rounds := Walked(nodes, partial), step;
  }

  lemma NothingLost(maxDepth: nat, control: Control)
    ensures !Lossy(maxDepth, [], 0) && Undisturbed(control, 0)
  {
  }

  lemma StillUndisturbed(control: Control, rounds: nat)
    requires Undisturbed(control, rounds) && !control.expired(rounds) && !control.cancelled(rounds)
    ensures Undisturbed(control, rounds + 1)
  {
  }

  lemma MoreCalls(maxDepth: nat, log: seq<Visited>, calls: nat)
    requires |log| < calls
    ensures Lossy(maxDepth, log, calls)
  {
  }

  lemma LossyGrows(maxDepth: nat, log: seq<Visited>, calls: nat, v: Visited)
    ensures Lossy(maxDepth, log + [v], calls + 1) <==>
      Lossy(maxDepth, log, calls) || Truncates(Entry(v.rel, v.depth), v.listing, maxDepth)
  {
    hide Truncates;
    var more := log + [v];
    assert more[|log|] == v && forall i :: 0 <= i < |log| ==> more[i] == log[i];
  }

  lemma BooksOpen(share: Share, maxDepth: nat)
    ensures Books(share, maxDepth, [Entry("", 0)], 0, [], map[], false)
    ensures Rolled([], "") == ZERO
  {
    AccountedStart(share, maxDepth);
  }

  lemma BooksPartial(share: Share, maxDepth: nat, seen: seq<Entry>, k: nat, log: seq<Visited>, nodes: Nodes,
    partial: bool)
    requires Books(share, maxDepth, seen, k, log, nodes, partial)
    ensures Books(share, maxDepth, seen, k, log, nodes, true)
  {
    AccountedPartial(share, maxDepth, seen, k, log, nodes, partial);
  }

  lemma BooksSkip(share: Share, maxDepth: nat, seen: seq<Entry>, k: nat, log: seq<Visited>, nodes: Nodes,
    partial: bool, rejected: bool)
    requires Books(share, maxDepth, seen, k, log, nodes, partial)
    requires k < |seen| && share.Visit(seen[k].rel).None?
    requires rejected ==> !share.Accepts(seen[k].rel)
    ensures Books(share, maxDepth, seen, k + 1, log, nodes, partial || !rejected)
  {
    AccountedSkip(share, maxDepth, seen, k, log, nodes, partial, rejected);
  }

  lemma BooksVisit(share: Share, maxDepth: nat, seen: seq<Entry>, k: nat, log: seq<Visited>, nodes: Nodes,
    partial: bool, l: Listing)
    requires Books(share, maxDepth, seen, k, log, nodes, partial)
    requires k < |seen| && share.Visit(seen[k].rel) == Some(l)
    ensures var e, kids := seen[k], Pushed(seen[k], l, maxDepth);
      var more := log + [Visited(e.rel, e.depth, l)];
      && Books(share, maxDepth, seen + kids, k + 1, more, Created(CreditAll(nodes, Chain(e.rel), l), kids),
        partial || Truncates(e, l, maxDepth))
      && Rolled(more, "").bytes == Rolled(log, "").bytes + l.fileBytes
      && Rolled(more, "").files == Rolled(log, "").files + l.fileCount
  {
    hide Accounted, RolledUp, Pushed, Truncates, Rolled, Created, CreditAll, Share.Visit, Share.WellFormed;
    var e, kids := seen[k], Pushed(seen[k], l, maxDepth);
    LogGrows(share, log, e.rel, e.depth, l);
    RolledUpCredit(nodes, log, e.rel, e.depth, l);
    RolledUpCreate(CreditAll(nodes, Chain(e.rel), l), log + [Visited(e.rel, e.depth, l)], kids);
    AccountedVisit(share, maxDepth, seen, k, log, nodes, partial, l);
  }

  lemma BooksClose(share: Share, maxDepth: nat, seen: seq<Entry>, k: nat, log: seq<Visited>, nodes: Nodes,
    partial: bool)
    requires exists was :: Books(share, maxDepth, seen, k, log, nodes, was) && (was ==> partial)
    requires !partial ==> k == |seen|
    ensures Truthful(share, log) && RolledUp(nodes, log)
    ensures share.WellFormed() ==> NeverOver(share, maxDepth, nodes)
    ensures share.WellFormed() && !partial ==> Complete(share, maxDepth, nodes) && AllListed(share, maxDepth, log)
  {
    hide Accounted, RolledUp, Truthful, Share.WellFormed, NeverOver, Complete, AllListed;
    var was :| Books(share, maxDepth, seen, k, log, nodes, was) && (was ==> partial);
    BooksPartial(share, maxDepth, seen, k, log, nodes, was);
    if share.WellFormed() {
      AccountedEnd(share, maxDepth, seen, k, log, nodes, partial);
    }
  }

  lemma AccountedStart(share: Share, maxDepth: nat)
    ensures Accounted(share, maxDepth, [Entry("", 0)], 0, [], map[], false)
  {
    FrontierStart(share, maxDepth);
  }

  lemma VisitIs(share: Share, rel: string)
    ensures !SubPattern(share.Full(rel)) ==> !share.Accepts(rel) && share.Visit(rel).None?
    ensures SubPattern(share.Full(rel)) ==>
      share.Visit(rel) == match share.ls(share.Full(rel)) case None => None case Some(lines) => Some(ListingOf(lines))
  {
    hide SubPattern, ListingOf, Share.Full;
  }

  lemma LogGrows(share: Share, log: seq<Visited>, rel: string, depth: nat, l: Listing)
    requires Truthful(share, log) && share.Visit(rel) == Some(l)
    ensures var more := log + [Visited(rel, depth, l)];
      && Truthful(share, more)
      && Rolled(more, "").bytes == Rolled(log, "").bytes + l.fileBytes
      && Rolled(more, "").files == Rolled(log, "").files + l.fileCount
  {
    hide Share.Visit, Chain;
    var more := log + [Visited(rel, depth, l)];
    assert more[..|more| - 1] == log;
    ChainRoot(rel);
  }

  lemma PushedIs(nodes: Nodes, e: Entry, l: Listing, maxDepth: nat)
    ensures Pushed(e, l, maxDepth) == if e.depth < maxDepth then Kids(e, Fanout(l)) else []
    ensures Truncates(e, l, maxDepth) <==> e.depth < maxDepth && |l.dirs| > MAX_SUBDIRS_PER_DIR
    ensures Created(nodes, []) == nodes
  {
  }

  lemma AccountedPartial(share: Share, maxDepth: nat, seen: seq<Entry>, k: nat, log: seq<Visited>, nodes: Nodes,
    partial: bool)
    ensures Accounted(share, maxDepth, seen, k, log, nodes, partial) ==>
      Accounted(share, maxDepth, seen, k, log, nodes, true)
  {
    hide Frontier, Exhaustive, Covers, Balance;
  }

  lemma AccountedSkip(share: Share, maxDepth: nat, seen: seq<Entry>, k: nat, log: seq<Visited>, nodes: Nodes,
    partial: bool, rejected: bool)
    requires k < |seen| && share.Visit(seen[k].rel).None?
    requires rejected ==> !share.Accepts(seen[k].rel)
    ensures Accounted(share, maxDepth, seen, k, log, nodes, partial) ==>
      Accounted(share, maxDepth, seen, k + 1, log, nodes, partial || !rejected)
  {
    hide Exhaustive, Covers, Balanced, Logged, Frontier, Share.Visit, SubPattern;
    if Accounted(share, maxDepth, seen, k, log, nodes, partial) {
      SkipStep(share, maxDepth, seen, k, log, !partial);
      LoggedSkip(share, seen, k, log);
      if partial || !rejected {
        AccountedRelax(share, maxDepth, seen, k + 1, log, !partial);
      }
      if k == 0 {
        NothingLogged(share, maxDepth, seen, log);
        HeadIsRoot(share, maxDepth, seen, k, log);
      }
    }
  }

  lemma AccountedRelax(share: Share, maxDepth: nat, seen: seq<Entry>, k: nat, log: seq<Visited>, exact: bool)
    requires k <= |seen| && Balanced(share, maxDepth, seen, k, log, exact)
    ensures Balanced(share, maxDepth, seen, k, log, false)
  {
    hide Balance, EntrySize;
  }

  lemma HeadIsRoot(share: Share, maxDepth: nat, seen: seq<Entry>, k: nat, log: seq<Visited>)
    requires Frontier(share, maxDepth, seen, k, log)
    ensures seen[0].rel == ""
  {
    hide IsChild, Depth, Parent, Holds;
  }

  lemma NothingLogged(share: Share, maxDepth: nat, seen: seq<Entry>, log: seq<Visited>)
    requires Frontier(share, maxDepth, seen, 0, log)
    ensures log == []
  {
    hide IsChild, Depth, Parent;
    var first := if log != [] then log[0].rel else "";
    assert !Holds(seen[..0], first);
  }

  lemma AccountedVisit(share: Share, maxDepth: nat, seen: seq<Entry>, k: nat, log: seq<Visited>, nodes: Nodes,
    partial: bool, l: Listing)
    requires k < |seen| && share.Visit(seen[k].rel) == Some(l) && RolledUp(nodes, log)
    ensures share.WellFormed() && Accounted(share, maxDepth, seen, k, log, nodes, partial) ==>
      var kids := Pushed(seen[k], l, maxDepth);
      Accounted(share, maxDepth, seen + kids, k + 1, log + [Visited(seen[k].rel, seen[k].depth, l)],
        Created(CreditAll(nodes, Chain(seen[k].rel), l), kids), partial || Truncates(seen[k], l, maxDepth))
  {
    if share.WellFormed() && Accounted(share, maxDepth, seen, k, log, nodes, partial) {
      VisitFrontier(share, maxDepth, seen, k, log, l);
      VisitBalanced(share, maxDepth, seen, k, log, l, !partial);
      VisitCovers(share, maxDepth, seen, k, log, l, nodes);
      LoggedAppend(share, seen, k, log, Pushed(seen[k], l, maxDepth), Visited(seen[k].rel, seen[k].depth, l));
      if !partial && !Truncates(seen[k], l, maxDepth) {
        VisitExhaustive(share, maxDepth, seen, k, log, l);
      }
    }
  }

  lemma AccountedEnd(share: Share, maxDepth: nat, seen: seq<Entry>, k: nat, log: seq<Visited>, nodes: Nodes,
    partial: bool)
    requires Accounted(share, maxDepth, seen, k, log, nodes, partial) && RolledUp(nodes, log)
    requires !partial ==> k == |seen|
    ensures NeverOver(share, maxDepth, nodes)
    ensures !partial ==> Complete(share, maxDepth, nodes) && AllListed(share, maxDepth, log)
  {
    hide AllListed, Complete, NeverOver, Balanced, Covers, Exhaustive, Logged, RolledUp, IsChild, Holds;
    WalkNeverOver(share, maxDepth, seen, k, log, nodes, !partial);
    if !partial {
      WalkComplete(share, maxDepth, seen, log, nodes);
    }
  }
}
