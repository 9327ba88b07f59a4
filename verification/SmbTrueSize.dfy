/** What a complete walk leaves out: folders whose path the walk refuses count as empty,
    whatever they hold. */
module SmbTrueSize {
  import opened Shared
  import opened SmbFrontier
  import opened SmbNodes
  import opened SmbTree

  /** The listing of any directory, refused or not. */
  function Seen(share: Share, rel: string): Option<Listing> {
    match share.ls(share.Full(rel))
    case None => None
    case Some(lines) => Some(ListingOf(lines))
  }

  /** The recursive size that the share's listings describe, refused paths included. */
  ghost function TrueSize(share: Share, rel: string, levels: nat): Size
    decreases levels, 1, 0
  {
    match Seen(share, rel)
    case None => ZERO
    case Some(l) => if levels == 0 then Own(l) else Own(l).Plus(TrueForest(share, rel, l.dirs, levels - 1))
  }

  ghost function TrueForest(share: Share, rel: string, dirs: seq<string>, levels: nat): Size
    decreases levels, 2, |dirs|
  {
    if dirs == [] then ZERO
    else TrueForest(share, rel, dirs[..|dirs| - 1], levels).Plus(TrueSize(share, Child(rel, dirs[|dirs| - 1]), levels))
  }

  /** Every refused folder first met at or below `rel` is truly empty. */
  ghost predicate RefusedEmpty(share: Share, rel: string, levels: nat)
    decreases levels
  {
    if !share.Accepts(rel) then TrueSize(share, rel, levels) == ZERO
    else levels > 0 && share.Visit(rel).Some? ==>
      forall name :: name in share.Visit(rel).value.dirs ==> RefusedEmpty(share, Child(rel, name), levels - 1)
  }

  lemma PlusEqual(a: Size, b: Size, c: Size, d: Size)
    requires a.AtMost(b) && c.AtMost(d)
    ensures a.Plus(c).AtMost(b.Plus(d)) && (a.Plus(c) == b.Plus(d) <==> a == b && c == d)
  {
  }

  /** The walk's size never exceeds the true one, and equals it exactly when every
      refused folder is empty. */
  lemma {:induction false} SizeIsTrueExactly(share: Share, rel: string, levels: nat)
    ensures TreeSize(share, rel, levels).AtMost(TrueSize(share, rel, levels))
    ensures TreeSize(share, rel, levels) == TrueSize(share, rel, levels) <==> RefusedEmpty(share, rel, levels)
    decreases levels, 1, 0
  {
    hide Size.Plus, Size.AtMost, Share.Full, Share.Accepts, ListingOf, Own, Child;
    SizeBounds(TrueSize(share, rel, levels));
    if share.Visit(rel).Some? && levels > 0 {
      var l := share.Visit(rel).value;
      ForestIsTrueExactly(share, rel, l.dirs, levels - 1);
      SizeBounds(Own(l));
      PlusEqual(Own(l), Own(l), ForestSize(share, rel, l.dirs, levels - 1), TrueForest(share, rel, l.dirs, levels - 1));
    } else if share.Visit(rel).Some? {
      SizeBounds(Own(share.Visit(rel).value));
    }
  }

  lemma SizeBounds(s: Size)
    ensures ZERO.AtMost(s) && s.AtMost(s)
  {
  }

  lemma {:induction false} ForestIsTrueExactly(share: Share, rel: string, dirs: seq<string>, levels: nat)
    ensures ForestSize(share, rel, dirs, levels).AtMost(TrueForest(share, rel, dirs, levels))
    ensures ForestSize(share, rel, dirs, levels) == TrueForest(share, rel, dirs, levels) <==>
            forall name :: name in dirs ==> RefusedEmpty(share, Child(rel, name), levels)
    decreases levels, 2, |dirs|
  {
    hide Size.Plus, Size.AtMost, TreeSize, TrueSize, RefusedEmpty, Child;
    if dirs == [] {
      SizeBounds(ZERO);
    } else {
      var init, last := dirs[..|dirs| - 1], Child(rel, dirs[|dirs| - 1]);
      ForestIsTrueExactly(share, rel, init, levels);
      SizeIsTrueExactly(share, last, levels);
      PlusEqual(ForestSize(share, rel, init, levels), TrueForest(share, rel, init, levels),
                TreeSize(share, last, levels), TrueSize(share, last, levels));
      assert dirs == init + [dirs[|dirs| - 1]];
    }
  }

  /** After a complete walk a node holds its folder's true size exactly when the refused
      folders below it are empty. */
  lemma NodeIsTrueExactly(share: Share, maxDepth: nat, nodes: Nodes, p: string)
    requires Complete(share, maxDepth, nodes) && p in nodes
    ensures Depth(p) <= maxDepth
    ensures nodes[p].Total() == TrueSize(share, p, maxDepth - Depth(p)) <==>
            RefusedEmpty(share, p, maxDepth - Depth(p))
  {
    hide TreeSize, TrueSize, RefusedEmpty, InTree, Depth, Share.Visit, Share.Accepts;
    SizeIsTrueExactly(share, p, maxDepth - Depth(p));
  }

  /** In particular, when no path among the nodes is refused, every node is right. */
  lemma AcceptedIsTrue(share: Share, maxDepth: nat, nodes: Nodes, p: string)
    requires share.WellFormed() && Complete(share, maxDepth, nodes) && p in nodes
    requires forall q :: q in nodes ==> share.Accepts(q)
    ensures Depth(p) <= maxDepth && nodes[p].Total() == TrueSize(share, p, maxDepth - Depth(p))
  {
    hide TreeSize, TrueSize, RefusedEmpty, InTree, Depth, Complete, Share.WellFormed, Share.Visit, Share.Accepts;
    NodeIsTrueExactly(share, maxDepth, nodes, p);
    AcceptedBelow(share, maxDepth, nodes, p);
  }

  lemma {:induction false} AcceptedBelow(share: Share, maxDepth: nat, nodes: Nodes, p: string)
    requires share.WellFormed() && Complete(share, maxDepth, nodes) && p in nodes
    requires forall q :: q in nodes ==> share.Accepts(q)
    ensures Depth(p) <= maxDepth && RefusedEmpty(share, p, maxDepth - Depth(p))
    decreases maxDepth - Depth(p)
  {
    hide TreeSize, TrueSize, Depth, LastSeparator, Child, Share.Accepts;
    if Depth(p) < maxDepth && share.Visit(p).Some? {
      var dirs := share.Visit(p).value.dirs;
      forall name | name in dirs
        ensures RefusedEmpty(share, Child(p, name), maxDepth - Depth(p) - 1)
      {
        ChildParent(p, name);
        assert IsChild(share, p, Child(p, name), maxDepth);
        AcceptedBelow(share, maxDepth, nodes, Child(p, name));
      }
    }
  }

  // ---------------------------------------------------------------------
  // A share where it matters
  // ---------------------------------------------------------------------

  /** A folder named "(x)" with one file of 5 bytes. */
  const REFUSING := Share("", path =>
    if path == "" then Some([Line("(x)", true, 0)])
    else if path == "(x)" then Some([Line("f", false, 5)])
    else None)

  lemma RefusingListings()
    ensures Seen(REFUSING, "") == Some(Listing(["(x)"], 0, 0)) && Seen(REFUSING, "(x)") == Some(Listing([], 5, 1))
    ensures forall rel :: REFUSING.Visit(rel).Some? ==> rel == ""
    ensures REFUSING.Visit("") == Seen(REFUSING, "") && !REFUSING.Accepts("(x)")
  {
    assert ListingOf([]) == Listing([], 0, 0);
    OneLine(Line("(x)", true, 0));
    OneLine(Line("f", false, 5));
    assert "(x)"[0] == '(';
    assert SubPattern("");
  }

  lemma OneFolder(share: Share, rel: string, name: string, levels: nat)
    ensures ForestSize(share, rel, [name], levels) == TreeSize(share, Child(rel, name), levels)
    ensures TrueForest(share, rel, [name], levels) == TrueSize(share, Child(rel, name), levels)
  {
    hide TreeSize, TrueSize, Child, Size.Plus;
    assert [name][..0] == [];
    PlusZero(TreeSize(share, Child(rel, name), levels));
    PlusZero(TrueSize(share, Child(rel, name), levels));
  }

  lemma SizeStep(share: Share, rel: string, levels: nat)
    ensures TreeSize(share, rel, levels) ==
      match share.Visit(rel)
      case None => ZERO
      case Some(l) => if levels == 0 then Own(l) else Own(l).Plus(ForestSize(share, rel, l.dirs, levels - 1))
    ensures TrueSize(share, rel, levels) ==
      match Seen(share, rel)
      case None => ZERO
      case Some(l) => if levels == 0 then Own(l) else Own(l).Plus(TrueForest(share, rel, l.dirs, levels - 1))
  {
    hide ForestSize, TrueForest, Seen, Share.Visit;
  }

  lemma RefusingSizes(share: Share, name: string, levels: nat)
    requires share.Visit("") == Some(Listing([name], 0, 0)) == Seen(share, "")
    requires share.Visit(name).None? && Seen(share, name) == Some(Listing([], 5, 1)) && levels == 1
    ensures TreeSize(share, "", levels) == Size(0, 0, 1) && TrueSize(share, "", levels) == Size(5, 1, 1)
  {
    hide Seen, Share.Visit, ForestSize, TrueForest, TreeSize, TrueSize, Child, Own, Size.Plus;
    SizeStep(share, "", levels);
    OneFolder(share, "", name, levels - 1);
    TopName(name);
    SizeStep(share, name, levels - 1);
    OwnIs(Listing([name], 0, 0));
    OwnIs(Listing([], 5, 1));
    PlusIs(Size(0, 0, 1), ZERO);
    PlusIs(Size(0, 0, 1), Size(5, 1, 0));
  }

  lemma TopName(name: string)
    ensures Child("", name) == name
  {
  }

  lemma OwnIs(l: Listing)
    ensures Own(l) == Size(l.fileBytes, l.fileCount, |l.dirs|)
  {
  }

  lemma PlusIs(a: Size, b: Size)
    ensures a.Plus(b) == Size(a.bytes + b.bytes, a.files + b.files, a.subdirs + b.subdirs)
  {
  }

  /** The nodes of its complete walk. */
  const MISSED: Nodes := map["" := Node("", 0, 0, 1, 0), "(x)" := Node("(x)", 0, 0, 0, 1)]

  /** The only folder in the tree besides the root is its one subfolder. */
  lemma TreeOfOne(share: Share, name: string, p: string)
    requires GoodName(name) && share.Visit("") == Some(Listing([name], 0, 0))
    requires forall rel :: share.Visit(rel).Some? ==> rel == ""
    ensures InTree(share, p, 1) <==> p == "" || p == name
    ensures Depth("") == 0 && Depth(name) == 1
  {
    hide Share.Visit, LastSeparator, Separators;
    ChildParent("", name);
    TopName(name);
    assert name in share.Visit("").value.dirs;
    assert InTree(share, "", 1) && IsChild(share, "", name, 1);
    if p != "" && IsChild(share, Parent(p), p, 1) {
      TopName(p);
    }
  }

  lemma MissedIsComplete()
    ensures Complete(REFUSING, 1, MISSED)
  {
    hide Share.Visit, Share.Accepts, Seen, TreeSize, TrueSize, InTree, Depth, REFUSING;
    RefusingListings();
    RefusingSizes(REFUSING, "(x)", 1);
    SizeStep(REFUSING, "(x)", 0);
    forall p
      ensures InTree(REFUSING, p, 1) <==> p in MISSED
      ensures Depth("") == 0 && Depth("(x)") == 1
    {
      TreeOfOne(REFUSING, "(x)", p);
    }
  }

  /** Its walk can be complete, and a complete one reports nothing below the root, while
      5 bytes are there. */
  lemma RefusedFolderIsMissed()
    ensures REFUSING.WellFormed() && !REFUSING.Accepts("(x)") && TrueSize(REFUSING, "", 1) == Size(5, 1, 1)
    ensures exists nodes: Nodes :: Complete(REFUSING, 1, nodes)
    ensures forall nodes: Nodes :: Complete(REFUSING, 1, nodes) ==> "" in nodes && nodes[""].Total() == Size(0, 0, 1)
  {
    hide Seen, ListingOf, Share.Visit, Share.Accepts, TreeSize, TrueSize, IsChild, REFUSING, MISSED;
    RefusingListings();
    RefusingSizes(REFUSING, "(x)", 1);
    MissedIsComplete();
    assert InTree(REFUSING, "", 1) && Depth("") == 0;
  }
}
