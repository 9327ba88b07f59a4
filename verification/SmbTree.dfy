/** Paths below a watched folder, directory listings, and the recursive sizes of the
    tree they describe. */
module SmbTree {
  import opened Shared

  // ---------------------------------------------------------------------
  // Relative paths: names joined by backslashes, "" being the watched folder
  // ---------------------------------------------------------------------

  /** `p.lastIndexOf("\\")`. */
  function LastSeparator(p: string): (i: int)
    ensures -1 <= i < |p|
    ensures i >= 0 ==> p[i] == '\\'
    ensures forall j :: i < j < |p| ==> p[j] != '\\'
  {
    if p == "" then -1
    else if p[|p| - 1] == '\\' then |p| - 1
    else LastSeparator(p[..|p| - 1])
  }

  function Parent(p: string): (q: string)
    requires p != ""
    ensures |q| < |p|
  {
    var i := LastSeparator(p);
    if i < 0 then "" else p[..i]
  }

  function Separators(p: string): nat {
    if p == "" then 0 else Separators(p[..|p| - 1]) + (if p[|p| - 1] == '\\' then 1 else 0)
  }

  /** `p === "" ? 0 : p.split("\\").length`. */
  function Depth(p: string): nat {
    if p == "" then 0 else 1 + Separators(p)
  }

  function Child(rel: string, name: string): string {
    if rel == "" then name else rel + "\\" + name
  }

  /** A path and all its ancestors. */
  function Chain(p: string): set<string>
    decreases |p|
  {
    if p == "" then {""} else {p} + Chain(Parent(p))
  }

  lemma {:induction false} ChainShorter(p: string, q: string)
    requires q in Chain(p)
    ensures |q| <= |p|
    ensures |q| == |p| ==> q == p
    decreases |p|
  {
    if p != "" && q != p {
      ChainShorter(Parent(p), q);
    }
  }

  lemma {:induction false} ChainRoot(p: string)
    ensures "" in Chain(p) && p in Chain(p)
    decreases |p|
  {
    if p != "" {
      ChainRoot(Parent(p));
    }
  }

  predicate GoodName(name: string) {
    name != "" && '\\' !in name
  }

  lemma ChildParent(rel: string, name: string)
    requires GoodName(name)
    ensures Child(rel, name) != "" && Parent(Child(rel, name)) == rel
    ensures Depth(Child(rel, name)) == Depth(rel) + 1
    ensures Child(rel, name)[|Child(rel, name)| - |name|..] == name
  {
    var p := Child(rel, name);
    var i := LastSeparator(p);
    if rel == "" {
      SeparatorsAppend("", name);
      assert "" + name == name;
    } else {
      assert p[|rel|] == '\\';
      assert forall j :: |rel| < j < |p| ==> p[j] == name[j - |rel| - 1];
      assert i == |rel|;
      assert p[..|rel|] == rel;
      SeparatorsAppend(rel + "\\", name);
      assert (rel + "\\")[..|rel|] == rel;
    }
  }

  lemma {:induction false} SeparatorsAppend(p: string, name: string)
    requires '\\' !in name
    ensures Separators(p + name) == Separators(p)
  {
    if name == "" {
      assert p + name == p;
    } else {
      assert (p + name)[..|p + name| - 1] == p + name[..|name| - 1];
      SeparatorsAppend(p, name[..|name| - 1]);
    }
  }

  lemma ChildInjective(rel: string, a: string, b: string)
    requires Child(rel, a) == Child(rel, b)
    ensures a == b
  {
    if rel != "" {
      assert Child(rel, a)[|rel| + 1..] == a;
      assert Child(rel, b)[|rel| + 1..] == b;
    }
  }

  // ---------------------------------------------------------------------
  // Listings
  // ---------------------------------------------------------------------

  /** One line of a directory listing. */
  datatype Line = Line(name: string, directory: bool, size: nat)

  datatype Listing = Listing(dirs: seq<string>, fileBytes: nat, fileCount: nat)

  predicate IsSystemFolder(name: string) {
    && name != ""
    && (name[0] == '@' || name[0] == '.' || name == "#recycle" || name == "$RECYCLE.BIN"
        || name == "System Volume Information" || name == "lost+found")
  }

  predicate Counted(line: Line) {
    line.name != "." && line.name != ".."
  }

  function ListingOf(lines: seq<Line>): Listing {
    if lines == [] then Listing([], 0, 0)
    else
      var before, last := ListingOf(lines[..|lines| - 1]), lines[|lines| - 1];
      if !Counted(last) then before
      else if last.directory then
        (if IsSystemFolder(last.name) then before else before.(dirs := before.dirs + [last.name]))
      else before.(fileBytes := before.fileBytes + last.size, fileCount := before.fileCount + 1)
  }

  method ParseDir(lines: seq<Line>) returns (listing: Listing)
    ensures listing == ListingOf(lines)
  {
    var dirs: seq<string>, fileBytes: nat, fileCount: nat := [], 0, 0;
    for i := 0 to |lines|
      invariant Listing(dirs, fileBytes, fileCount) == ListingOf(lines[..i])
    {
      assert lines[..i + 1][..i] == lines[..i];
      if lines[i].name != "." && lines[i].name != ".." {
        if lines[i].directory {
          if !IsSystemFolder(lines[i].name) {
            dirs := dirs + [lines[i].name];
          }
        } else {
          fileBytes, fileCount := fileBytes + lines[i].size, fileCount + 1;
        }
      }
    }
    assert lines[..|lines|] == lines;
    listing := Listing(dirs, fileBytes, fileCount);
  }

  /** Exactly the directories that are neither system nor hidden are walked into. */
  lemma {:induction false} ListedDirs(lines: seq<Line>, name: string)
    ensures name in ListingOf(lines).dirs <==>
      && (name == "" || (name[0] != '@' && name[0] != '.'))
      && name !in {"#recycle", "$RECYCLE.BIN", "System Volume Information", "lost+found"}
      && exists l :: l in lines && l.directory && l.name == name
  {
    if lines != [] {
      var init, last := lines[..|lines| - 1], lines[|lines| - 1];
      assert lines == init + [last];
      ListedDirs(init, name);
    }
  }

  /** The sizes of the lines at some positions, added up in no particular order. */
  ghost function SizesAt(lines: seq<Line>, at: set<nat>): nat
    requires forall i :: i in at ==> i < |lines|
    decreases at
  {
    if at == {} then 0
    else
      var i :| i in at;
      lines[i].size + SizesAt(lines, at - {i})
  }

  lemma {:induction false} SizesWithout(lines: seq<Line>, at: set<nat>, k: nat)
    requires (forall i :: i in at ==> i < |lines|) && k in at
    ensures SizesAt(lines, at) == lines[k].size + SizesAt(lines, at - {k})
    decreases at
  {
    var i :| i in at && SizesAt(lines, at) == lines[i].size + SizesAt(lines, at - {i});
    if i != k {
      SizesWithout(lines, at - {i}, k);
      SizesWithout(lines, at - {k}, i);
      assert at - {i} - {k} == at - {k} - {i};
    }
  }

  lemma {:induction false} SizesPrefix(lines: seq<Line>, at: set<nat>, n: nat)
    requires n <= |lines| && forall i :: i in at ==> i < n
    ensures SizesAt(lines[..n], at) == SizesAt(lines, at)
    decreases at
  {
    if at != {} {
      var i :| i in at;
      SizesWithout(lines, at, i);
      SizesWithout(lines[..n], at, i);
      SizesPrefix(lines, at - {i}, n);
    }
  }

  /** The positions of the lines that are files. */
  ghost function Files(lines: seq<Line>): set<nat> {
    set i: nat | i < |lines| && !lines[i].directory && lines[i].name != "." && lines[i].name != ".."
  }

  /** A listing has the number of its files and the sum of their sizes. */
  lemma {:induction false} ListingExactly(lines: seq<Line>)
    ensures ListingOf(lines).fileCount == |Files(lines)|
    ensures ListingOf(lines).fileBytes == SizesAt(lines, Files(lines))
  {
    if lines == [] {
      assert Files(lines) == {};
    } else {
      var n := |lines| - 1;
      var init := lines[..n];
      ListingExactly(init);
      SizesPrefix(lines, Files(init), n);
      if n in Files(lines) {
        assert Files(lines) - {n} == Files(init);
        SizesWithout(lines, Files(lines), n);
      } else {
        assert Files(lines) == Files(init);
      }
    }
  }

  /** The lines of a listing count independently of each other: the directories walked
      into keep their order and their number, files add up. */
  lemma {:induction false} ListingJoins(a: seq<Line>, b: seq<Line>)
    ensures var x, y, z := ListingOf(a), ListingOf(b), ListingOf(a + b);
      z == Listing(x.dirs + y.dirs, x.fileBytes + y.fileBytes, x.fileCount + y.fileCount)
  {
    if b == [] {
      assert a + b == a;
    } else {
      assert (a + b)[..|a + b| - 1] == a + b[..|b| - 1];
      ListingJoins(a, b[..|b| - 1]);
    }
  }

  lemma OneLine(line: Line)
    ensures ListingOf([line]) ==
      if line.name == "." || line.name == ".." then Listing([], 0, 0)
      else if line.directory then Listing(if IsSystemFolder(line.name) then [] else [line.name], 0, 0)
      else Listing([], line.size, 1)
  {
    assert [line][..0] == [];
  }

  // ---------------------------------------------------------------------
  // The share as seen through its listings
  // ---------------------------------------------------------------------

  /** The watched folder and what listing each path below the share comes to; a
      failed listing is `None`. */
  datatype Share = Share(root: string, ls: string -> Option<seq<Line>>) {
    function Full(rel: string): string {
      if root == "" then rel else if rel == "" then root else root + "\\" + rel
    }

    predicate Accepts(rel: string) {
      SubPattern(Full(rel))
    }

    /** The listing of a directory the walk may visit. */
    function Visit(rel: string): Option<Listing> {
      if !Accepts(rel) then None
      else match ls(Full(rel))
        case None => None
        case Some(lines) => Some(ListingOf(lines))
    }

    /** Siblings have distinct, non-empty names without a separator. */
    ghost predicate WellFormed() {
      forall rel :: Visit(rel).Some? ==>
        var dirs := Visit(rel).value.dirs;
        && (forall i :: 0 <= i < |dirs| ==> GoodName(dirs[i]))
        && (forall i, j :: 0 <= i < j < |dirs| ==> dirs[i] != dirs[j])
    }
  }

  /** `/^[A-Za-z0-9 ._\-\/\\]{0,255}$/`. */
  predicate SubPattern(s: string) {
    && |s| <= 255
    && forall i :: 0 <= i < |s| ==>
      var c := s[i];
      'A' <= c <= 'Z' || 'a' <= c <= 'z' || '0' <= c <= '9'
      || c == ' ' || c == '.' || c == '_' || c == '-' || c == '/' || c == '\\'
  }

  /** The path that is listed: below the share's root, and below the watched folder when
      there is one. */
  lemma ListedPath(share: Share, rel: string)
    ensures share.root == "" ==> share.Full(rel) == rel
    ensures rel == "" ==> share.Full(rel) == share.root
    ensures share.root != "" && rel != "" ==> share.Full(rel) == share.root + "\\" + rel
  {
  }

  /** The walk accepts a path of at most 255 characters: letters, digits, and six others. */
  lemma AcceptedExactly(share: Share, rel: string)
    ensures share.Accepts(rel) <==>
      && |share.Full(rel)| <= 255
      && forall c :: c in share.Full(rel) ==>
        'A' <= c <= 'Z' || 'a' <= c <= 'z' || '0' <= c <= '9' || c in {' ', '.', '_', '-', '/', '\\'}
  {
    var s := share.Full(rel);
    assert forall i :: 0 <= i < |s| ==> s[i] in s;
  }

  datatype Size = Size(bytes: nat, files: nat, subdirs: nat) {
    function Plus(s: Size): Size {
      Size(bytes + s.bytes, files + s.files, subdirs + s.subdirs)
    }

    predicate AtMost(s: Size) {
      bytes <= s.bytes && files <= s.files && subdirs <= s.subdirs
    }
  }

  const ZERO := Size(0, 0, 0)

  lemma PlusZero(a: Size)
    ensures a.Plus(ZERO) == a == ZERO.Plus(a)
  {
  }

  lemma PlusAssociates(a: Size, b: Size, c: Size)
    ensures a.Plus(b).Plus(c) == a.Plus(b.Plus(c))
  {
  }

  lemma PlusMonotone(a: Size, b: Size, c: Size)
    requires b.AtMost(c)
    ensures a.Plus(b).AtMost(a.Plus(c))
  {
  }

  lemma PartAtMost(a: Size, b: Size, c: Size)
    requires a.Plus(b).AtMost(c)
    ensures a.AtMost(c)
  {
  }

  /** Moving worth `w` out of a queue into a log that gains `own` and a queue that gains `f`. */
  lemma Rebalance(r: Size, rest: Size, own: Size, f: Size, w: Size)
    requires own.Plus(f).AtMost(w)
    ensures r.Plus(own).Plus(rest.Plus(f)).AtMost(r.Plus(w.Plus(rest)))
    ensures own.Plus(f) == w ==> r.Plus(own).Plus(rest.Plus(f)) == r.Plus(w.Plus(rest))
  {
  }

  function Own(listing: Listing): Size {
    Size(listing.fileBytes, listing.fileCount, |listing.dirs|)
  }

  /** The recursive size of a folder, descending `levels` levels below it. A folder
      that cannot be visited counts nothing. */
  ghost function TreeSize(share: Share, rel: string, levels: nat): Size
    decreases levels, 1, 0
  {
    match share.Visit(rel)
    case None => ZERO
    case Some(l) => if levels == 0 then Own(l) else Own(l).Plus(ForestSize(share, rel, l.dirs, levels - 1))
  }

  ghost function ForestSize(share: Share, rel: string, dirs: seq<string>, levels: nat): Size
    decreases levels, 2, |dirs|
  {
    if dirs == [] then ZERO
    else ForestSize(share, rel, dirs[..|dirs| - 1], levels).Plus(TreeSize(share, Child(rel, dirs[|dirs| - 1]), levels))
  }

  /** `rel` is in the tree of visited folders and their immediate subfolders. */
  ghost predicate InTree(share: Share, rel: string, maxDepth: nat)
    decreases |rel|
  {
    rel == "" || (InTree(share, Parent(rel), maxDepth) && IsChild(share, Parent(rel), rel, maxDepth))
  }

  ghost predicate IsChild(share: Share, parent: string, rel: string, maxDepth: nat) {
    && Depth(parent) < maxDepth && share.Visit(parent).Some?
    && exists name :: name in share.Visit(parent).value.dirs && rel == Child(parent, name)
  }
}
