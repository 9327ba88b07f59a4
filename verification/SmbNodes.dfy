/** The per-folder nodes of a walk: every listing is credited to its folder and to
    all its ancestors. */
module SmbNodes {
  import opened SmbTree

  const MAX_SUBDIRS_PER_DIR := 4000

  datatype Node = Node(rel: string, bytes: nat, files: nat, subdirs: nat, depth: nat) {
    function Total(): Size {
      Size(bytes, files, subdirs)
    }
  }

  datatype Entry = Entry(rel: string, depth: nat)

  // ---------------------------------------------------------------------
  // The node map
  // ---------------------------------------------------------------------

  type Nodes = map<string, Node>

  /** Get-or-create. */
  function NodeAt(nodes: Nodes, rel: string, depth: nat): Node {
    if rel in nodes then nodes[rel] else Node(rel, 0, 0, 0, depth)
  }

  function Credited(node: Node, l: Listing): Node {
    node.(bytes := node.bytes + l.fileBytes, files := node.files + l.fileCount, subdirs := node.subdirs + |l.dirs|)
  }

  ghost function CreditAll(nodes: Nodes, paths: set<string>, l: Listing): Nodes {
    map p | p in nodes.Keys + paths ::
      if p in paths then Credited(NodeAt(nodes, p, Depth(p)), l) else nodes[p]
  }

  /** Credits one listing to its folder and every ancestor. */
  method CreditAncestors(nodes: Nodes, rel: string, l: Listing) returns (r: Nodes)
    ensures r == CreditAll(nodes, Chain(rel), l)
  {
    hide CreditAll, Credited, Depth, NodeAt;
    r := nodes;
    CreditNothing(nodes, l);
    var p := rel;
    ghost var done: set<string> := {};
    while true
      invariant Chain(rel) == done + Chain(p) && done !! Chain(p)
      invariant r == CreditAll(nodes, done, l)
      decreases |p|
    {
      CreditOne(nodes, done, p, l);
      r := r[p := Credited(NodeAt(r, p, Depth(p)), l)];
      done := done + {p};
      if p == "" {
        break;
      }
      ChainSplit(p);
      p := Parent(p);
    }
    assert done == Chain(rel);
  }

  lemma CreditNothing(nodes: Nodes, l: Listing)
    ensures CreditAll(nodes, {}, l) == nodes
  {
  }

  lemma CreditOne(nodes: Nodes, done: set<string>, p: string, l: Listing)
    requires p !in done
    ensures var r := CreditAll(nodes, done, l);
      CreditAll(nodes, done + {p}, l) == r[p := Credited(NodeAt(r, p, Depth(p)), l)]
  {
    hide Credited, Depth;
    var r := CreditAll(nodes, done, l);
    assert NodeAt(r, p, Depth(p)) == NodeAt(nodes, p, Depth(p));
  }

  lemma ChainSplit(p: string)
    requires p != ""
    ensures Chain(p) == {p} + Chain(Parent(p)) && p !in Chain(Parent(p))
  {
    if p in Chain(Parent(p)) {
      ChainShorter(Parent(p), p);
    }
  }

  ghost function Created(nodes: Nodes, entries: seq<Entry>): Nodes {
    if entries == [] then nodes
    else
      var before, e := Created(nodes, entries[..|entries| - 1]), entries[|entries| - 1];
      before[e.rel := NodeAt(before, e.rel, e.depth)]
  }

  function Kids(e: Entry, dirs: seq<string>): (kids: seq<Entry>)
    ensures |kids| == |dirs|
    ensures forall i :: 0 <= i < |dirs| ==> kids[i] == Entry(Child(e.rel, dirs[i]), e.depth + 1)
  {
    seq(|dirs|, i requires 0 <= i < |dirs| => Entry(Child(e.rel, dirs[i]), e.depth + 1))
  }

  function Fanout(l: Listing): seq<string> {
    if |l.dirs| <= MAX_SUBDIRS_PER_DIR then l.dirs else l.dirs[..MAX_SUBDIRS_PER_DIR]
  }

  /** The subfolders a visited folder adds to the queue. */
  function Pushed(e: Entry, l: Listing, maxDepth: nat): seq<Entry> {
    if e.depth < maxDepth then Kids(e, Fanout(l)) else []
  }

  lemma NothingCreated(nodes: Nodes)
    ensures Created(nodes, []) == nodes
  {
  }

  lemma CreatedStep(nodes: Nodes, entries: seq<Entry>, i: nat)
    requires i < |entries|
    ensures entries[..i + 1] == entries[..i] + [entries[i]]
    ensures var before, e := Created(nodes, entries[..i]), entries[i];
      Created(nodes, entries[..i + 1]) == before[e.rel := NodeAt(before, e.rel, e.depth)]
  {
    assert entries[..i + 1][..i] == entries[..i];
  }

  method EnqueueKids(nodes: Nodes, queue: seq<Entry>, e: Entry, l: Listing) returns (r: Nodes, q: seq<Entry>)
    ensures r == Created(nodes, Kids(e, Fanout(l)))
    ensures q == queue + Kids(e, Fanout(l))
  {
    hide Created, NodeAt;
    r, q := nodes, queue;
    NothingCreated(nodes);
    var dirs := Fanout(l);
    ghost var kids := Kids(e, dirs);
    for i := 0 to |dirs|
      invariant r == Created(nodes, kids[..i])
      invariant q == queue + kids[..i]
    {
      var kid := Entry(Child(e.rel, dirs[i]), e.depth + 1);
      CreatedStep(nodes, kids, i);
      r := r[kid.rel := NodeAt(r, kid.rel, kid.depth)];
      q := q + [kid];
    }
    assert kids[..|dirs|] == kids;
  }

  // ---------------------------------------------------------------------
  // What has been visited so far
  // ---------------------------------------------------------------------

  datatype Visited = Visited(rel: string, depth: nat, listing: Listing)

  /** The sum over the visited folders at or below `p`. */
  ghost function Rolled(log: seq<Visited>, p: string): Size {
    if log == [] then ZERO
    else
      var last := log[|log| - 1];
      Rolled(log[..|log| - 1], p).Plus(if p in Chain(last.rel) then Own(last.listing) else ZERO)
  }

  /** Every node holds exactly the sum over the visited folders at or below it. */
  ghost predicate RolledUp(nodes: Nodes, log: seq<Visited>) {
    && (forall p :: p in nodes ==> nodes[p].rel == p && nodes[p].Total() == Rolled(log, p))
    && (forall p :: p !in nodes ==> Rolled(log, p) == ZERO)
  }

  lemma CreditedTotal(node: Node, l: Listing)
    ensures Credited(node, l).Total() == node.Total().Plus(Own(l))
  {
  }

  lemma RolledUpCredit(nodes: Nodes, log: seq<Visited>, rel: string, depth: nat, l: Listing)
    requires RolledUp(nodes, log)
    ensures RolledUp(CreditAll(nodes, Chain(rel), l), log + [Visited(rel, depth, l)])
  {
    hide Chain, Depth, Size.Plus;
    var more, after := log + [Visited(rel, depth, l)], CreditAll(nodes, Chain(rel), l);
    assert more[..|more| - 1] == log && more[|more| - 1] == Visited(rel, depth, l);
    forall p
      ensures p in after ==> after[p].rel == p && after[p].Total() == Rolled(more, p)
      ensures p !in after ==> Rolled(more, p) == ZERO
    {
      var node := NodeAt(nodes, p, Depth(p));
      CreditedTotal(node, l);
      PlusZero(Rolled(log, p));
      assert node.rel == p && node.Total() == Rolled(log, p);
      assert Rolled(more, p) == Rolled(log, p).Plus(if p in Chain(rel) then Own(l) else ZERO);
    }
  }

  ghost function Rels(entries: seq<Entry>): set<string> {
    set i | 0 <= i < |entries| :: entries[i].rel
  }

  lemma RolledUpCreateOne(nodes: Nodes, log: seq<Visited>, e: Entry)
    requires RolledUp(nodes, log)
    ensures RolledUp(nodes[e.rel := NodeAt(nodes, e.rel, e.depth)], log)
  {
  }

  lemma {:induction false} RolledUpCreate(nodes: Nodes, log: seq<Visited>, entries: seq<Entry>)
    requires RolledUp(nodes, log)
    ensures RolledUp(Created(nodes, entries), log)
    ensures Created(nodes, entries).Keys == nodes.Keys + Rels(entries)
  {
    hide RolledUp;
    if entries != [] {
      var n := |entries| - 1;
      RolledUpCreate(nodes, log, entries[..n]);
      RolledUpCreateOne(Created(nodes, entries[..n]), log, entries[n]);
      assert Rels(entries) == Rels(entries[..n]) + {entries[n].rel};
    }
  }
}
