/** Archiving a tree and extracting it again. */
module RoundTrip {
  import opened Wrappers
  import opened Strings
  import opened Paths
  import opened Files
  import opened LinkFree
  import opened Archive
  import opened Extraction

  // ---------------------------------------------------------------------------------- trees

  function Names(f: Forest): set<string> {
    if f.Nil? then {} else {f.name} + Names(f.rest)
  }

  /** Ordinary, distinct names in every directory; and no link to nothing. */
  predicate WellNamed(t: Tree) {
    match t
    case File(_) => true
    case Link(target) => target != ""
    case Dir(children) => WellNamedForest(children)
  }

  predicate WellNamedForest(f: Forest) {
    f.Cons? ==> IsName(f.name) && f.name !in Names(f.rest) && WellNamed(f.tree) && WellNamedForest(f.rest)
  }

  /** A directory as a node; the root of the file system is none. */
  function DirAt(loc: Location): Nodes {
    if loc == [] then map[] else map[loc := DirNode]
  }

  /** The way from a directory to a node: names, perhaps after steps up. */
  ghost predicate Steps(rel: seq<string>) {
    Canonical(Path(false, rel))
  }

  ghost predicate EndsNamed(rel: seq<string>) {
    rel != [] && rel[|rel| - 1] != ".."
  }

  /** The way to a node that destination `d` does not shorten: names, or, from a destination that
      ends in "..", any. */
  ghost predicate Below(d: Path, rel: seq<string>) {
    Steps(rel) && (NamesOnly(rel) || EndsInUp(d))
  }

  lemma ChildSteps(d: Path, rel: seq<string>, name: string)
    requires IsName(name)
    ensures Steps(rel) ==> Steps(rel + [name])
    ensures Below(d, rel) ==> Below(d, rel + [name])
    ensures EndsNamed(rel + [name])
  {
    if Steps(rel) {
      var all := rel + [name];
      forall i | 0 <= i < |all|
        ensures IsName(all[i]) || (all[i] == ".." && forall j | 0 <= j < i :: all[j] == "..")
      {
        if i < |rel| {
          assert forall j | 0 <= j <= i :: all[j] == rel[j];
        }
      }
    }
  }

  /** Where such a way leads from a destination. */
  function Loc(cwd: Location, d: Path, rel: seq<string>): Location {
    At(cwd, Path(d.rooted, d.comps + rel))
  }

  lemma LocChild(cwd: Location, d: Path, rel: seq<string>, name: string)
    requires IsName(name)
    ensures Loc(cwd, d, rel + [name]) == Loc(cwd, d, rel) + [name]
    ensures Parent(Loc(cwd, d, rel + [name])) == Loc(cwd, d, rel)
  {
    hide At;
    var p := Path(d.rooted, d.comps + rel);
    AtBelow(cwd, p, [name]);
    assert d.comps + (rel + [name]) == p.comps + [name];
  }

  /** The nodes of a tree whose root is at `loc`. */
  function TreeNodes(loc: Location, t: Tree): Nodes
    decreases t, 1
  {
    match t
    case File(content) => map[loc := FileNode(content, loc)]
    case Link(target) => map[loc := LinkNode(target)]
    case Dir(children) => DirAt(loc) + ForestNodes(loc, children)
  }

  function ForestNodes(loc: Location, f: Forest): Nodes
    decreases f, 0
  {
    if f.Nil? then map[] else TreeNodes(loc + [f.name], f.tree) + ForestNodes(loc, f.rest)
  }

  /** What a zip archive of the tree creates: its files, links as empty files, and the
      directories above them. */
  function ZipNodes(loc: Location, t: Tree): Nodes
    decreases t, 1
  {
    match t
    case File(content) => Dirs(Parent(loc))[loc := FileNode(content, loc)]
    case Link(_) => Dirs(Parent(loc))[loc := FileNode([], loc)]
    case Dir(children) => ZipForestNodes(loc, children)
  }

  function ZipForestNodes(loc: Location, f: Forest): Nodes
    decreases f, 0
  {
    if f.Nil? then map[] else ZipNodes(loc + [f.name], f.tree) + ZipForestNodes(loc, f.rest)
  }

  /** The destination accepts what every symbolic link of the tree resolves to. */
  ghost predicate LinksAccepted(d: Path, rel: seq<string>, t: Tree)
    decreases t, 1
  {
    match t
    case File(_) => true
    case Link(target) => EndsNamed(rel) && LinkAccepted(d, Path(d.rooted, d.comps + rel), target)
    case Dir(children) => ForestLinksAccepted(d, rel, children)
  }

  ghost predicate ForestLinksAccepted(d: Path, rel: seq<string>, f: Forest)
    decreases f, 0
  {
    f.Cons? ==> LinksAccepted(d, rel + [f.name], f.tree) && ForestLinksAccepted(d, rel, f.rest)
  }

  /** Every symbolic link of the tree resolves inside the destination. */
  ghost predicate LinksInside(d: Path, rel: seq<string>, t: Tree)
    decreases t, 1
  {
    match t
    case File(_) => true
    case Link(target) => EndsNamed(rel) && LinkInside(d, Path(d.rooted, d.comps + rel), target)
    case Dir(children) => ForestLinksInside(d, rel, children)
  }

  ghost predicate ForestLinksInside(d: Path, rel: seq<string>, f: Forest)
    decreases f, 0
  {
    f.Cons? ==> LinksInside(d, rel + [f.name], f.tree) && ForestLinksInside(d, rel, f.rest)
  }

  lemma BelowCanonical(d: Path, rel: seq<string>)
    requires Canonical(d) && Below(d, rel)
    ensures Canonical(Path(d.rooted, d.comps + rel))
  {
    var all := d.comps + rel;
    assert EndsInUp(d) ==> !d.rooted && forall i | 0 <= i < |d.comps| :: d.comps[i] == "..";
    forall i | 0 <= i < |all|
      ensures IsName(all[i]) || (all[i] == ".." && !d.rooted && forall j | 0 <= j < i :: all[j] == "..")
    {
      if i < |d.comps| {
        assert forall j | 0 <= j <= i :: all[j] == d.comps[j];
      } else {
        assert all[i] == rel[i - |d.comps|] && rel[i - |d.comps|] in rel;
        assert forall j | |d.comps| <= j <= i :: all[j] == rel[j - |d.comps|];
      }
    }
  }

  /** For a destination that ends in a name, accepted links are those that stay inside. */
  lemma {:induction false} AcceptedLinksInside(d: Path, rel: seq<string>, t: Tree)
    requires Canonical(d) && EndsInName(d) && Below(d, rel) && WellNamed(t)
    ensures LinksAccepted(d, rel, t) <==> LinksInside(d, rel, t)
    decreases t, 1
  {
    hide LinkAccepted, LinkInside, ValidSymlink;
    if t.Dir? {
      AcceptedForestInside(d, rel, t.children);
    } else if t.Link? {
      var at := Path(d.rooted, d.comps + rel);
      BelowCanonical(d, rel);
      ValidSymlinkExactly(d, at, t.target);
      ValidSymlinkIsInside(d, at, t.target);
    }
  }

  lemma {:induction false} AcceptedForestInside(d: Path, rel: seq<string>, f: Forest)
    requires Canonical(d) && EndsInName(d) && Below(d, rel) && WellNamedForest(f)
    ensures ForestLinksAccepted(d, rel, f) <==> ForestLinksInside(d, rel, f)
    decreases f, 0
  {
    hide LinkAccepted, LinkInside, Below;
    if f.Cons? {
      ChildSteps(d, rel, f.name);
      AcceptedLinksInside(d, rel + [f.name], f.tree);
      AcceptedForestInside(d, rel, f.rest);
    }
  }

  // ---------------------------------------------------------------- the walk, by components

  function NameOf(rel: seq<string>): string {
    Render(Path(false, rel))
  }

  function Entries(format: Format, rel: seq<string>, t: Tree): seq<Header>
    decreases t, 1
  {
    EntriesFor(format, NameOf(rel), t) + (if t.Dir? then ForestEntries(format, rel, t.children) else [])
  }

  function ForestEntries(format: Format, rel: seq<string>, f: Forest): seq<Header>
    decreases f, 0
  {
    if f.Nil? then [] else Entries(format, rel + [f.name], f.tree) + ForestEntries(format, rel, f.rest)
  }

  /** A zip archive names files only, and tells no link targets. */
  lemma {:induction false} ZipTellsFiles(rel: seq<string>, t: Tree)
    ensures forall h | h in Entries(Zip, rel, t) :: !h.kind.Directory? && h.linkname == ""
    decreases t, 1
  {
    hide NameOf;
    if t.Dir? {
      ZipForestTellsFiles(rel, t.children);
    }
  }

  lemma {:induction false} ZipForestTellsFiles(rel: seq<string>, f: Forest)
    ensures forall h | h in ForestEntries(Zip, rel, f) :: !h.kind.Directory? && h.linkname == ""
    decreases f, 0
  {
    if f.Cons? {
      ZipTellsFiles(rel + [f.name], f.tree);
      ZipForestTellsFiles(rel, f.rest);
    }
  }

  ghost predicate LeadsTo(path: string, baseDir: string, rel: seq<string>) {
    path != "" && Parse(path) == Path(Parse(baseDir).rooted, Parse(baseDir).comps + rel)
  }

  /** The walk names every entry by its components below the base directory. */
  lemma {:induction false} WalkEntries(format: Format, path: string, baseDir: string, rel: seq<string>, t: Tree)
    requires LeadsTo(path, baseDir, rel) && WellNamed(t)
    ensures Walk(format, path, baseDir, t) == Some(Entries(format, rel, t))
    decreases t, 1
  {
    hide Parse, RelPath, Render, JoinPath, HeaderOf;
    RelBelow(baseDir, path, rel);
    assert EntriesFor(format, NameOf(rel), t) + [] == EntriesFor(format, NameOf(rel), t);
    if t.Dir? {
      WalkForestEntries(format, path, baseDir, rel, t.children);
    }
  }

  lemma {:induction false} WalkForestEntries(format: Format, path: string, baseDir: string, rel: seq<string>, f: Forest)
    requires LeadsTo(path, baseDir, rel) && WellNamedForest(f)
    ensures WalkForest(format, path, baseDir, f) == Some(ForestEntries(format, rel, f))
    decreases f, 0
  {
    hide Parse, RelPath, Render, JoinPath, EntriesFor;
    if f.Cons? {
      ParseChild(path, f.name);
      assert Parse(baseDir).comps + rel + [f.name] == Parse(baseDir).comps + (rel + [f.name]);
      WalkEntries(format, JoinPath(path, f.name), baseDir, rel + [f.name], f.tree);
      WalkForestEntries(format, path, baseDir, rel, f.rest);
    }
  }

  // ----------------------------------------------------------------- parents before children

  /** `p` is the directory entry that the entry `h` lies directly in. */
  predicate ChildOf(h: Header, p: Header) {
    p.kind.Directory? && DirPath(h.name) == p.name
  }

  predicate HasParent(hs: seq<Header>, i: nat)
    requires i < |hs|
  {
    exists j | 0 <= j < i :: ChildOf(hs[i], hs[j])
  }

  /** Every entry but the first comes after the entry of its directory. */
  predicate InOrder(hs: seq<Header>) {
    forall i: nat | 0 < i < |hs| :: HasParent(hs, i)
  }

  lemma ChildName(rel: seq<string>, t: Tree, h: Header, name: string)
    requires t.Dir? && Steps(rel) && IsName(name) && h.name == NameOf(rel + [name])
    ensures ChildOf(h, HeaderOf(NameOf(rel), t))
  {
    ChildSteps(Path(false, []), rel, name);
    DirRender(Path(false, rel + [name]));
    assert Up(Path(false, rel + [name])).comps == rel;
    assert (rel + [name])[..|rel|] == rel;
  }

  lemma HasParentLater(before: seq<Header>, hs: seq<Header>, i: nat)
    requires i < |hs| && HasParent(hs, i)
    ensures HasParent(before + hs, |before| + i)
  {
    var j :| 0 <= j < i && ChildOf(hs[i], hs[j]);
    assert (before + hs)[|before| + j] == hs[j] && (before + hs)[|before| + i] == hs[i];
  }

  lemma HasParentSame(hs: seq<Header>, after: seq<Header>, i: nat)
    requires i < |hs| && HasParent(hs, i)
    ensures HasParent(hs + after, i)
  {
    var j :| 0 <= j < i && ChildOf(hs[i], hs[j]);
    assert (hs + after)[j] == hs[j] && (hs + after)[i] == hs[i];
  }

  lemma {:induction false} TreeInOrder(rel: seq<string>, t: Tree)
    requires Steps(rel) && WellNamed(t)
    ensures var hs := Entries(Tar, rel, t);
            hs != [] && hs[0] == HeaderOf(NameOf(rel), t) && InOrder(hs)
    decreases t, 1
  {
    hide NameOf, HeaderOf, HasParent;
    if t.Dir? {
      ForestInOrder(rel, t, t.children);
    }
  }

  lemma {:induction false} ForestInOrder(rel: seq<string>, top: Tree, f: Forest)
    requires top.Dir? && Steps(rel) && WellNamedForest(f)
    ensures InOrder([HeaderOf(NameOf(rel), top)] + ForestEntries(Tar, rel, f))
    decreases f, 0
  {
    hide NameOf, HeaderOf, ChildOf, HasParent;
    if f.Cons? {
      var dir, child := HeaderOf(NameOf(rel), top), Entries(Tar, rel + [f.name], f.tree);
      var others := ForestEntries(Tar, rel, f.rest);
      ChildSteps(Path(false, []), rel, f.name);
      TreeInOrder(rel + [f.name], f.tree);
      ForestInOrder(rel, top, f.rest);
      HeaderName(NameOf(rel + [f.name]), f.tree);
      ChildName(rel, top, child[0], f.name);
      var hs := [dir] + (child + others);
      forall i: nat | 0 < i < |hs| ensures HasParent(hs, i) {
        EntryHasParent(dir, child, others, i);
      }
      assert ForestEntries(Tar, rel, f) == child + others;
    }
  }

  lemma HeaderName(name: string, t: Tree)
    ensures HeaderOf(name, t).name == name
  {
  }

  lemma EntryHasParent(dir: Header, child: seq<Header>, others: seq<Header>, i: nat)
    requires child != [] && ChildOf(child[0], dir)
    requires InOrder(child) && InOrder([dir] + others)
    requires 0 < i < 1 + |child| + |others|
    ensures HasParent([dir] + (child + others), i)
  {
    hide ChildOf;
    var hs := [dir] + (child + others);
    if i == 1 {
      assert hs[1] == child[0] && hs[0] == dir;
    } else if i < 1 + |child| {
      HasParentLater([dir], child, i - 1);
      HasParentSame([dir] + child, others, i);
      assert hs == [dir] + child + others;
    } else {
      var k := i - |child|;
      assert HasParent([dir] + others, k);
      var j :| 0 <= j < k && ChildOf(([dir] + others)[k], ([dir] + others)[j]);
      assert hs[i] == ([dir] + others)[k];
      if j == 0 {
        assert hs[0] == ([dir] + others)[j];
      } else {
        assert hs[|child| + j] == ([dir] + others)[j];
      }
    }
  }

  /** In a tar archive every entry but the first comes after the entry of its directory. */
  lemma ParentsFirst(sourcePath: string, t: Tree)
    requires SourceOk(sourcePath, t)
    ensures var packed := Walk(Tar, sourcePath, DirPath(sourcePath), t);
            packed.Some? && InOrder(packed.value)
  {
    hide NameOf, DirPath, BaseOf, Walk, Entries, InOrder;
    SourceLeads(sourcePath);
    WalkEntries(Tar, sourcePath, DirPath(sourcePath), BaseOf(sourcePath), t);
    TreeInOrder(BaseOf(sourcePath), t);
  }

  // --------------------------------------------------------------------- placing one entry

  /** A cleaned destination other than "." and "/". */
  ghost predicate GoodDest(d: Path) {
    Canonical(d) && d.comps != []
  }

  lemma NameIsParsed(rel: seq<string>)
    requires Steps(rel)
    ensures Parse(NameOf(rel)) == Path(false, rel)
  {
    ParseRender(Path(false, rel));
  }

  /** Where an entry that is named by its way is put. */
  lemma TargetOfName(cwd: Location, d: Path, rel: seq<string>)
    requires Canonical(d) && Below(d, rel)
    ensures var t := Target(d, NameOf(rel));
            && t == Path(d.rooted, d.comps + rel) && At(cwd, t) == Loc(cwd, d, rel)
            && (EndsNamed(rel) ==> At(cwd, Up(t)) == Parent(Loc(cwd, d, rel)) && Loc(cwd, d, rel) != [])
            && (Accepts(d, t) <==> d.comps != [] || rel == [])
  {
    hide Parse, At, NameOf, Up, Resolve;
    NameIsParsed(rel);
    BelowCanonical(d, rel);
    ResolveOn(d, rel);
    if EndsNamed(rel) {
      var t := Path(d.rooted, d.comps + rel);
      assert t.comps[|t.comps| - 1] == rel[|rel| - 1];
      AtParent(cwd, t);
    }
  }

  lemma ResolveOn(d: Path, rel: seq<string>)
    requires Canonical(Path(d.rooted, d.comps + rel))
    ensures Resolve(d.rooted, d.comps, rel) == d.comps + rel
  {
    ResolveClean(d.rooted, d.comps, rel);
  }

  /** Nothing is at `loc` or below it, but for a directory where a directory will be. */
  ghost predicate Vacant(m: Nodes, loc: Location, t: Tree) {
    forall l | l in m :: Covers(loc, l) ==> l == loc && t.Dir? && m[l] == DirNode
  }

  ghost predicate NothingBelow(m: Nodes, loc: Location, names: set<string>) {
    forall l, n | l in m && n in names :: !Covers(loc + [n], l)
  }

  lemma DirsGrow(loc: Location)
    requires loc != []
    ensures Dirs(loc) == Dirs(Parent(loc))[loc := DirNode]
  {
  }

  lemma OpenableExtends(m: Nodes, loc: Location)
    requires Openable(m, Parent(loc)) && (loc in m ==> m[loc] == DirNode)
    ensures Openable(m, loc)
  {
    forall k | 1 <= k <= |loc| && loc[..k] in m ensures m[loc[..k]] == DirNode {
      if k < |loc| {
        assert Parent(loc)[..k] == loc[..k];
      } else {
        assert loc[..k] == loc;
      }
    }
  }

  /** Making the directories above a vacant location and putting a node there. */
  lemma LeafSpot(m: Nodes, loc: Location, node: Node)
    requires loc != [] && Openable(m, Parent(loc)) && loc !in m
    ensures var made := m + Dirs(Parent(loc));
            && MkdirAllAt(m, Parent(loc)) == Outcome(made, None)
            && loc !in made && IsDir(made, Parent(loc))
            && made[loc := node] == made + map[loc := node]
            && made[loc := node] == m + Dirs(Parent(loc))[loc := node]
  {
    assert !Covers(loc, Parent(loc));
  }

  /** A file or link lands on a vacant location, after the directories above it. */
  lemma PlaceLeaf(format: Format, cwd: Location, m: Nodes, d: Path, rel: seq<string>, t: Tree)
    requires GoodDest(d) && Below(d, rel) && !t.Dir? && EndsNamed(rel) && WellNamed(t)
    requires var loc := Loc(cwd, d, rel); Openable(m, Parent(loc)) && Vacant(m, loc, t)
    ensures var loc := Loc(cwd, d, rel);
            var o := Place(format, cwd, m, EntriesFor(format, NameOf(rel), t)[0], d);
            if format.Zip? then o == Outcome(m + ZipNodes(loc, t), None)
            else if LinksAccepted(d, rel, t) then o == Outcome(m + Dirs(Parent(loc)) + TreeNodes(loc, t), None)
            else o.error == Some(InvalidSymlink)
  {
    hide At, Loc, NameOf, LinkAccepted, Dirs, MkdirAllAt, Openable, Place, WriteAt, SymlinkAt, Below;
    TargetOfName(cwd, d, rel);
    var loc := Loc(cwd, d, rel);
    assert Covers(loc, loc);
    LeafSpot(m, loc, LeafNode(format, loc, t));
    PlaceNamed(format, cwd, m, EntriesFor(format, NameOf(rel), t)[0], d, rel);
    WriteNew(m + Dirs(Parent(loc)), loc, if t.File? then t.content else []);
    LinkNew(m + Dirs(Parent(loc)), loc, if t.Link? then t.target else "");
  }

  lemma WriteNew(m: Nodes, loc: Location, content: Bytes)
    ensures loc != [] && IsDir(m, Parent(loc)) && loc !in m ==>
      WriteAt(m, loc, content) == Outcome(m[loc := FileNode(content, loc)], None)
  {
  }

  lemma LinkNew(m: Nodes, loc: Location, target: string)
    ensures loc != [] && IsDir(m, Parent(loc)) && loc !in m && target != "" ==>
      SymlinkAt(m, loc, target) == Outcome(m[loc := LinkNode(target)], None)
  {
  }

  /** Placing a file or link entry that is named by its components. */
  lemma PlaceNamed(format: Format, cwd: Location, m: Nodes, h: Header, d: Path, rel: seq<string>)
    requires GoodDest(d) && Below(d, rel) && EndsNamed(rel)
    requires h.name == NameOf(rel) && (h.kind.Regular? || h.kind.Symlink?)
    ensures var loc := Loc(cwd, d, rel);
            var made := MkdirAllAt(m, Parent(loc));
            Place(format, cwd, m, h, d) ==
            if format.Tar? && h.kind.Symlink? && !LinkAccepted(d, Path(d.rooted, d.comps + rel), h.linkname)
            then Outcome(m, Some(InvalidSymlink))
            else if made.error.Some? then made
            else if format.Zip? || h.kind.Regular? then WriteAt(made.nodes, loc, h.content)
            else SymlinkAt(made.nodes, loc, h.linkname)
  {
    hide At, Loc, Target, NameOf, LinkAccepted, MkdirAllAt, WriteAt, SymlinkAt, HardLinkAt, Accepts, Up, Below;
    TargetOfName(cwd, d, rel);
  }

  function LeafNode(format: Format, loc: Location, t: Tree): Node
    requires !t.Dir?
  {
    if t.File? then FileNode(t.content, loc) else if format.Zip? then FileNode([], loc) else LinkNode(t.target)
  }

  lemma PlaceDirectory(cwd: Location, m: Nodes, d: Path, rel: seq<string>, t: Tree)
    requires GoodDest(d) && Below(d, rel) && t.Dir?
    requires var loc := Loc(cwd, d, rel); Openable(m, Parent(loc)) && Vacant(m, loc, t)
    ensures Place(Tar, cwd, m, HeaderOf(NameOf(rel), t), d) == Outcome(m + Dirs(Loc(cwd, d, rel)), None)
  {
    hide At, Loc, Target, NameOf, Dirs, Up, Accepts, Below;
    TargetOfName(cwd, d, rel);
    var loc := Loc(cwd, d, rel);
    assert Covers(loc, loc);
    OpenableExtends(m, loc);
  }

  // --------------------------------------------------------------------------- key ranges

  lemma {:induction false} TreeKeys(loc: Location, t: Tree)
    ensures forall l | l in TreeNodes(loc, t) :: Covers(loc, l)
    decreases t, 1
  {
    if t.Dir? {
      ForestKeys(loc, t.children);
    }
  }

  lemma {:induction false} ForestKeys(loc: Location, f: Forest)
    ensures forall l | l in ForestNodes(loc, f) :: Covers(loc, l) && |l| > |loc| && l[|loc|] in Names(f)
    decreases f, 0
  {
    if f.Cons? {
      TreeKeys(loc + [f.name], f.tree);
      ForestKeys(loc, f.rest);
      forall l | l in TreeNodes(loc + [f.name], f.tree) ensures Covers(loc, l) && |l| > |loc| && l[|loc|] == f.name {
        ChildCovers(loc, f.name, l);
      }
    }
  }

  lemma ChildCovers(loc: Location, name: string, l: Location)
    ensures Covers(loc + [name], l) <==> Covers(loc, l) && |l| > |loc| && l[|loc|] == name
  {
    var child := loc + [name];
    if Covers(child, l) {
      assert l[..|loc|] == child[..|loc|] == loc;
      assert l[|loc|] == l[..|child|][|loc|] == name;
    }
    if Covers(loc, l) && |l| > |loc| && l[|loc|] == name {
      assert l[..|child|] == l[..|loc|] + [l[|loc|]];
    }
  }

  // ------------------------------------------------------------------------ tar round trip

  ghost predicate HasDirs(m: Nodes, loc: Location) {
    forall l | l in Dirs(loc) :: l in m && m[l] == DirNode
  }

  lemma HasDirsFacts(m: Nodes, loc: Location)
    requires HasDirs(m, loc)
    ensures Openable(m, loc) && m + Dirs(loc) == m
  {
    forall k | 1 <= k <= |loc| ensures loc[..k] in Dirs(loc) {
      assert Covers(loc[..k], loc);
    }
  }

  lemma PlaceFirst(format: Format, cwd: Location, m: Nodes, h: Header, rest: seq<Header>, d: Path)
    ensures var o := Place(format, cwd, m, h, d);
            PlaceAll(format, cwd, m, [h] + rest, d) ==
            if o.error.Some? then o else PlaceAll(format, cwd, o.nodes, rest, d)
  {
    assert ([h] + rest)[1..] == rest;
  }

  lemma DirNodesJoin(m: Nodes, loc: Location, below: Nodes)
    ensures m + Dirs(loc) + below == m + Dirs(Parent(loc)) + (DirAt(loc) + below)
  {
    hide Dirs;
    if loc == [] {
      assert DirAt(loc) + below == below;
      assert Parent(loc) == loc;
    } else {
      DirAdded(loc);
      MergeThree(m, Dirs(Parent(loc)), DirAt(loc), below);
    }
  }

  lemma DirAdded(loc: Location)
    requires loc != []
    ensures Dirs(loc) == Dirs(Parent(loc)) + DirAt(loc)
  {
    DirsGrow(loc);
    hide Dirs;
  }

  lemma MergeThree(a: Nodes, b: Nodes, c: Nodes, d: Nodes)
    ensures a + (b + c) + d == a + b + (c + d)
  {
  }

  lemma {:induction false} PlaceTree(cwd: Location, m: Nodes, d: Path, rel: seq<string>, t: Tree, rest: seq<Header>)
    requires GoodDest(d) && Below(d, rel) && WellNamed(t) && (!EndsNamed(rel) ==> t.Dir?)
    requires var loc := Loc(cwd, d, rel); Openable(m, Parent(loc)) && Vacant(m, loc, t)
    ensures var loc := Loc(cwd, d, rel);
            var o := PlaceAll(Tar, cwd, m, Entries(Tar, rel, t) + rest, d);
            if LinksAccepted(d, rel, t) then o == PlaceAll(Tar, cwd, m + Dirs(Parent(loc)) + TreeNodes(loc, t), rest, d)
            else o.error == Some(InvalidSymlink)
    decreases t, 1
  {
    hide At, Loc, NameOf, LinkAccepted, Place, PlaceAll, Dirs, Openable, HeaderOf, Below;
    var loc := Loc(cwd, d, rel);
    if t.Dir? {
      var m', below := m + Dirs(loc), ForestEntries(Tar, rel, t.children);
      PlaceDirectory(cwd, m, d, rel, t);
      PlaceFirst(Tar, cwd, m, HeaderOf(NameOf(rel), t), below + rest, d);
      assert Entries(Tar, rel, t) + rest == [HeaderOf(NameOf(rel), t)] + (below + rest);
      VacantBelow(m, loc, t);
      PlaceForest(cwd, m', d, rel, t.children, rest);
      DirNodesJoin(m, loc, ForestNodes(loc, t.children));
    } else {
      PlaceLeaf(Tar, cwd, m, d, rel, t);
      PlaceFirst(Tar, cwd, m, EntriesFor(Tar, NameOf(rel), t)[0], rest, d);
      assert Entries(Tar, rel, t) + rest == [EntriesFor(Tar, NameOf(rel), t)[0]] + rest;
    }
  }

  lemma VacantBelow(m: Nodes, loc: Location, t: Tree)
    requires Vacant(m, loc, t) && t.Dir?
    ensures NothingBelow(m + Dirs(loc), loc, Names(t.children)) && HasDirs(m + Dirs(loc), loc)
  {
    forall l, n | l in m + Dirs(loc) && n in Names(t.children) ensures !Covers(loc + [n], l) {
      ChildCovers(loc, n, l);
    }
  }

  lemma {:induction false} PlaceForest(cwd: Location, m: Nodes, d: Path, rel: seq<string>, f: Forest, rest: seq<Header>)
    requires GoodDest(d) && Below(d, rel) && WellNamedForest(f)
    requires HasDirs(m, Loc(cwd, d, rel)) && NothingBelow(m, Loc(cwd, d, rel), Names(f))
    ensures var o := PlaceAll(Tar, cwd, m, ForestEntries(Tar, rel, f) + rest, d);
            if ForestLinksAccepted(d, rel, f)
            then o == PlaceAll(Tar, cwd, m + ForestNodes(Loc(cwd, d, rel), f), rest, d)
            else o.error == Some(InvalidSymlink)
    decreases f, 0
  {
    hide At, Loc, NameOf, LinkAccepted, Place, PlaceAll, Dirs, Openable, Covers, Below, EndsNamed;
    var loc := Loc(cwd, d, rel);
    if f.Nil? {
      assert ForestEntries(Tar, rel, f) + rest == rest;
      assert m + ForestNodes(loc, f) == m;
    } else {
      var child, others := rel + [f.name], ForestEntries(Tar, rel, f.rest);
      var at := Loc(cwd, d, child);
      LocChild(cwd, d, rel, f.name);
      ChildSteps(d, rel, f.name);
      HasDirsFacts(m, loc);
      FirstIsVacant(m, loc, f);
      PlaceTree(cwd, m, d, child, f.tree, others + rest);
      var m' := m + TreeNodes(at, f.tree);
      assert ForestEntries(Tar, rel, f) + rest == Entries(Tar, child, f.tree) + (others + rest);
      SiblingsStayFree(m, loc, f);
      PlaceForest(cwd, m', d, rel, f.rest, rest);
      MapAssociative(m, TreeNodes(at, f.tree), ForestNodes(loc, f.rest));
    }
  }

  lemma MapAssociative(a: Nodes, b: Nodes, c: Nodes)
    ensures a + b + c == a + (b + c)
  {
  }

  lemma FirstIsVacant(m: Nodes, loc: Location, f: Forest)
    requires f.Cons? && NothingBelow(m, loc, Names(f))
    ensures Vacant(m, loc + [f.name], f.tree)
  {
    assert f.name in Names(f);
  }

  lemma SiblingsStayFree(m: Nodes, loc: Location, f: Forest)
    requires f.Cons? && WellNamedForest(f) && HasDirs(m, loc) && NothingBelow(m, loc, Names(f))
    ensures HasDirs(m + TreeNodes(loc + [f.name], f.tree), loc)
    ensures NothingBelow(m + TreeNodes(loc + [f.name], f.tree), loc, Names(f.rest))
  {
    TreeKeys(loc + [f.name], f.tree);
    forall l, n | l in TreeNodes(loc + [f.name], f.tree) && n in Names(f.rest) ensures !Covers(loc + [n], l) {
      ChildCovers(loc, f.name, l);
      ChildCovers(loc, n, l);
    }
  }

  /** Where the root of the archived tree ends up. */
  function RootAt(cwd: Location, destDir: string, sourcePath: string): Location {
    Loc(cwd, Parse(destDir), BaseOf(sourcePath))
  }

  /** A source that does not drop a name of its directory, and a tree that can be there. */
  ghost predicate SourceOk(sourcePath: string, t: Tree) {
    sourcePath != "" && Extends(sourcePath) && WellNamed(t) && (!EndsNamed(BaseOf(sourcePath)) ==> t.Dir?)
  }

  lemma SourceLeads(sourcePath: string)
    requires sourcePath != "" && Extends(sourcePath)
    ensures LeadsTo(sourcePath, DirPath(sourcePath), BaseOf(sourcePath)) && Steps(BaseOf(sourcePath))
    ensures BaseOf(sourcePath) == [".."] || NamesOnly(BaseOf(sourcePath))
  {
    hide Parse, DirPath;
    ExtendsExactly(sourcePath);
  }

  /** A destination that keeps what the names of the entries say: not "." and "/", and one that ends
      in ".." for a source such as "..". */
  ghost predicate Keeps(destDir: string, sourcePath: string) {
    Parse(destDir).comps != [] && (BaseOf(sourcePath) == [".."] ==> EndsInUp(Parse(destDir)))
  }

  /** Extracting the tar archive of a tree onto a vacant place succeeds exactly when the destination
      accepts what every symbolic link of the tree resolves to, and then adds exactly the nodes of
      the tree and the directories above it. */
  lemma TarRoundTrip(cwd: Location, m: Nodes, sourcePath: string, t: Tree, destDir: string)
    requires SourceOk(sourcePath, t) && Keeps(destDir, sourcePath) && Sound(m, cwd)
    requires var root := RootAt(cwd, destDir, sourcePath); Openable(m, Parent(root)) && Vacant(m, root, t)
    ensures var packed := Walk(Tar, sourcePath, DirPath(sourcePath), t);
            var root := RootAt(cwd, destDir, sourcePath);
            packed.Some? &&
            var o := ExtractAll(Tar, cwd, m, packed.value, Clean(destDir));
            if LinksAccepted(Parse(destDir), BaseOf(sourcePath), t)
            then o == Outcome(m + Dirs(Parent(root)) + TreeNodes(root, t), None)
            else o.error == Some(InvalidSymlink)
  {
    hide At, NameOf, LinkAccepted, Place, Dirs, Openable, Parse, Clean, DirPath, BaseOf, Render, Walk, Entries,
      Extends, Loc, Sound;
    var d, rel := Parse(destDir), BaseOf(sourcePath);
    SourceLeads(sourcePath);
    ParseCanonical(destDir);
    WalkEntries(Tar, sourcePath, DirPath(sourcePath), rel, t);
    var hs := Entries(Tar, rel, t);
    PlaceTree(cwd, m, d, rel, t, []);
    assert hs + [] == hs;
    PlacingIsExtracting(Tar, cwd, m, hs, destDir);
  }

  // ------------------------------------------------------------------------ zip round trip

  lemma {:induction false} ZipKeys(loc: Location, t: Tree)
    requires loc != []
    ensures forall l | l in ZipNodes(loc, t) ::
      Covers(loc, l) || (l in Dirs(Parent(loc)) && ZipNodes(loc, t)[l] == DirNode)
    decreases t, 1
  {
    if t.Dir? {
      ZipForestKeys(loc, t.children);
      DirsGrow(loc);
      assert Covers(loc, loc);
    }
  }

  lemma {:induction false} ZipForestKeys(loc: Location, f: Forest)
    ensures forall l | l in ZipForestNodes(loc, f) ::
      (l in Dirs(loc) && ZipForestNodes(loc, f)[l] == DirNode) ||
      (Covers(loc, l) && |l| > |loc| && l[|loc|] in Names(f))
    decreases f, 0
  {
    if f.Cons? {
      var at := loc + [f.name];
      assert Parent(at) == loc;
      ZipKeys(at, f.tree);
      ZipForestKeys(loc, f.rest);
      forall l | l in ZipNodes(at, f.tree)
        ensures (l in Dirs(loc) && ZipNodes(at, f.tree)[l] == DirNode) ||
          (Covers(loc, l) && |l| > |loc| && l[|loc|] == f.name)
      {
        ChildCovers(loc, f.name, l);
      }
    }
  }

  lemma {:induction false} ZipTree(cwd: Location, m: Nodes, d: Path, rel: seq<string>, t: Tree, rest: seq<Header>)
    requires GoodDest(d) && Below(d, rel) && WellNamed(t) && (!EndsNamed(rel) ==> t.Dir?)
    requires var loc := Loc(cwd, d, rel); Openable(m, Parent(loc)) && Vacant(m, loc, t)
    ensures PlaceAll(Zip, cwd, m, Entries(Zip, rel, t) + rest, d)
         == PlaceAll(Zip, cwd, m + ZipNodes(Loc(cwd, d, rel), t), rest, d)
    decreases t, 1
  {
    hide At, Loc, NameOf, Place, PlaceAll, Dirs, Openable, HeaderOf, Below;
    var loc := Loc(cwd, d, rel);
    if t.Dir? {
      assert Covers(loc, loc);
      OpenableExtends(m, loc);
      assert Entries(Zip, rel, t) == ForestEntries(Zip, rel, t.children);
      forall l, n | l in m && n in Names(t.children) ensures !Covers(loc + [n], l) {
        ChildCovers(loc, n, l);
      }
      ZipForest(cwd, m, d, rel, t.children, rest);
    } else {
      PlaceLeaf(Zip, cwd, m, d, rel, t);
      PlaceFirst(Zip, cwd, m, EntriesFor(Zip, NameOf(rel), t)[0], rest, d);
      assert Entries(Zip, rel, t) + rest == [EntriesFor(Zip, NameOf(rel), t)[0]] + rest;
    }
  }

  lemma {:induction false} ZipForest(cwd: Location, m: Nodes, d: Path, rel: seq<string>, f: Forest, rest: seq<Header>)
    requires GoodDest(d) && Below(d, rel) && WellNamedForest(f)
    requires Openable(m, Loc(cwd, d, rel)) && NothingBelow(m, Loc(cwd, d, rel), Names(f))
    ensures PlaceAll(Zip, cwd, m, ForestEntries(Zip, rel, f) + rest, d)
         == PlaceAll(Zip, cwd, m + ZipForestNodes(Loc(cwd, d, rel), f), rest, d)
    decreases f, 0
  {
    hide At, Loc, NameOf, Place, PlaceAll, Dirs, Openable, Covers, Below, EndsNamed;
    var loc := Loc(cwd, d, rel);
    if f.Nil? {
      assert ForestEntries(Zip, rel, f) + rest == rest;
      assert m + ZipForestNodes(loc, f) == m;
    } else {
      var child, others := rel + [f.name], ForestEntries(Zip, rel, f.rest);
      var at := Loc(cwd, d, child);
      LocChild(cwd, d, rel, f.name);
      ChildSteps(d, rel, f.name);
      FirstIsVacant(m, loc, f);
      ZipTree(cwd, m, d, child, f.tree, others + rest);
      var m' := m + ZipNodes(at, f.tree);
      assert ForestEntries(Zip, rel, f) + rest == Entries(Zip, child, f.tree) + (others + rest);
      ZipSiblings(m, loc, f);
      ZipForest(cwd, m', d, rel, f.rest, rest);
      MapAssociative(m, ZipNodes(at, f.tree), ZipForestNodes(loc, f.rest));
    }
  }

  lemma ZipSiblings(m: Nodes, loc: Location, f: Forest)
    requires f.Cons? && WellNamedForest(f) && Openable(m, loc) && NothingBelow(m, loc, Names(f))
    ensures Openable(m + ZipNodes(loc + [f.name], f.tree), loc)
    ensures NothingBelow(m + ZipNodes(loc + [f.name], f.tree), loc, Names(f.rest))
  {
    var at := loc + [f.name];
    assert Parent(at) == loc;
    ZipKeys(at, f.tree);
    forall l, n | l in ZipNodes(at, f.tree) && n in Names(f.rest) ensures !Covers(loc + [n], l) {
      ChildCovers(loc, f.name, l);
      ChildCovers(loc, n, l);
    }
    forall k | 1 <= k <= |loc| && loc[..k] in ZipNodes(at, f.tree) ensures ZipNodes(at, f.tree)[loc[..k]] == DirNode {
      assert !Covers(at, loc[..k]);
    }
  }

  /** Extracting the zip archive of a tree onto a vacant place always succeeds and adds exactly what
      `ZipNodes` says. */
  lemma ZipRoundTrip(cwd: Location, m: Nodes, sourcePath: string, t: Tree, destDir: string)
    requires SourceOk(sourcePath, t) && Keeps(destDir, sourcePath) && Sound(m, cwd)
    requires var root := RootAt(cwd, destDir, sourcePath); Openable(m, Parent(root)) && Vacant(m, root, t)
    ensures var packed := Walk(Zip, sourcePath, DirPath(sourcePath), t);
            packed.Some? &&
            ExtractAll(Zip, cwd, m, packed.value, Clean(destDir))
            == Outcome(m + ZipNodes(RootAt(cwd, destDir, sourcePath), t), None)
  {
    hide At, NameOf, Place, Dirs, Openable, Parse, Clean, DirPath, BaseOf, Render, Walk, Entries, Extends, Loc,
      Sound;
    var d, rel := Parse(destDir), BaseOf(sourcePath);
    SourceLeads(sourcePath);
    ParseCanonical(destDir);
    WalkEntries(Zip, sourcePath, DirPath(sourcePath), rel, t);
    var hs := Entries(Zip, rel, t);
    ZipTree(cwd, m, d, rel, t, []);
    assert hs + [] == hs;
    PlacingIsExtracting(Zip, cwd, m, hs, destDir);
  }

  // ------------------------------------------------------------------- what a zip loses

  /** A file or link is at `l` or below it. */
  ghost predicate LeafBelow(all: Nodes, l: Location) {
    exists leaf :: leaf in all && all[leaf] != DirNode && Covers(l, leaf)
  }

  function Survivor(all: Nodes, l: Location): Node {
    if l !in all then DirNode else if all[l].LinkNode? then FileNode([], l) else all[l]
  }

  ghost predicate ZipImageAt(z: Nodes, all: Nodes, l: Location) {
    (l in z <==> l != [] && LeafBelow(all, l)) && (l in z ==> z[l] == Survivor(all, l))
  }

  /** What is left of a tree when only its files and the directories above them survive. */
  ghost predicate IsZipImage(z: Nodes, all: Nodes) {
    forall l :: ZipImageAt(z, all, l)
  }

  /** A zip archive keeps every file with its contents and exactly the directories that are
      proper ancestors of some file or link; a link becomes an empty file. */
  lemma {:induction false} ZipKeeps(loc: Location, t: Tree)
    requires loc != [] && WellNamed(t)
    ensures IsZipImage(ZipNodes(loc, t), TreeNodes(loc, t))
    decreases t, 1
  {
    hide ZipImageAt;
    if t.Dir? {
      ZipForestKeeps(loc, t.children);
      ForestKeys(loc, t.children);
      forall l ensures ZipImageAt(ZipNodes(loc, t), TreeNodes(loc, t), l) {
        RootDirIrrelevant(ZipNodes(loc, t), loc, ForestNodes(loc, t.children), l);
      }
    } else {
      forall l ensures ZipImageAt(ZipNodes(loc, t), TreeNodes(loc, t), l) {
        LeafImage(loc, t, l);
      }
    }
  }

  lemma RootDirIrrelevant(z: Nodes, loc: Location, below: Nodes, l: Location)
    requires ZipImageAt(z, below, l) && loc !in below
    ensures ZipImageAt(z, map[loc := DirNode] + below, l)
  {
    var all := map[loc := DirNode] + below;
    assert forall leaf :: leaf in all && all[leaf] != DirNode <==> leaf in below && below[leaf] != DirNode;
    assert LeafBelow(all, l) <==> LeafBelow(below, l);
  }

  lemma LeafImage(loc: Location, t: Tree, l: Location)
    requires loc != [] && !t.Dir?
    ensures ZipImageAt(ZipNodes(loc, t), TreeNodes(loc, t), l)
  {
    var z, all := ZipNodes(loc, t), TreeNodes(loc, t);
    DirsGrow(loc);
    assert l in z <==> l in Dirs(loc);
    assert LeafBelow(all, l) <==> Covers(l, loc) by {
      if Covers(l, loc) {
        assert loc in all && all[loc] != DirNode;
      }
    }
  }

  lemma {:induction false} ZipForestKeeps(loc: Location, f: Forest)
    requires WellNamedForest(f)
    ensures IsZipImage(ZipForestNodes(loc, f), ForestNodes(loc, f))
    decreases f, 0
  {
    if f.Cons? {
      var at := loc + [f.name];
      ZipKeeps(at, f.tree);
      ZipForestKeeps(loc, f.rest);
      ZipImagesJoin(loc, f);
    }
  }

  /** Children with different names do not get into each other's way. */
  lemma ZipImagesJoin(loc: Location, f: Forest)
    requires f.Cons? && WellNamedForest(f)
    requires IsZipImage(ZipNodes(loc + [f.name], f.tree), TreeNodes(loc + [f.name], f.tree))
    requires IsZipImage(ZipForestNodes(loc, f.rest), ForestNodes(loc, f.rest))
    ensures IsZipImage(ZipForestNodes(loc, f), ForestNodes(loc, f))
  {
    hide ZipImageAt;
    var at := loc + [f.name];
    var z1, z2 := ZipNodes(at, f.tree), ZipForestNodes(loc, f.rest);
    var a1, a2 := TreeNodes(at, f.tree), ForestNodes(loc, f.rest);
    forall l ensures ZipImageAt(z1 + z2, a1 + a2, l) {
      SiblingsApart(loc, f);
      ZipUnion(z1, a1, z2, a2, l);
    }
  }

  lemma SiblingsApart(loc: Location, f: Forest)
    requires f.Cons? && WellNamedForest(f)
    ensures forall l | l in TreeNodes(loc + [f.name], f.tree) ::
      l !in ForestNodes(loc, f.rest) && l !in ZipForestNodes(loc, f.rest)
    ensures forall l | l in ForestNodes(loc, f.rest) && l in ZipNodes(loc + [f.name], f.tree) :: false
  {
    var at := loc + [f.name];
    assert Parent(at) == loc;
    TreeKeys(at, f.tree);
    ForestKeys(loc, f.rest);
    ZipForestKeys(loc, f.rest);
    ZipKeys(at, f.tree);
    forall l | Covers(at, l) ensures l !in ForestNodes(loc, f.rest) && l !in ZipForestNodes(loc, f.rest) {
      ChildCovers(loc, f.name, l);
    }
  }

  lemma ZipUnion(z1: Nodes, a1: Nodes, z2: Nodes, a2: Nodes, l: Location)
    requires ZipImageAt(z1, a1, l) && ZipImageAt(z2, a2, l)
    requires forall k | k in a1 :: k !in a2 && k !in z2
    requires l in a2 ==> l !in z1
    ensures ZipImageAt(z1 + z2, a1 + a2, l)
  {
    assert LeafBelow(a1 + a2, l) <==> LeafBelow(a1, l) || LeafBelow(a2, l) by {
      if LeafBelow(a1, l) {
        var leaf :| leaf in a1 && a1[leaf] != DirNode && Covers(l, leaf);
        assert leaf in a1 + a2 && (a1 + a2)[leaf] == a1[leaf];
      }
      if LeafBelow(a2, l) {
        var leaf :| leaf in a2 && a2[leaf] != DirNode && Covers(l, leaf);
        assert leaf in a1 + a2 && (a1 + a2)[leaf] == a2[leaf];
      }
    }
  }

  /** No link, and no directory without a file somewhere below it. */
  predicate Lossless(t: Tree) {
    match t
    case File(_) => true
    case Link(_) => false
    case Dir(children) => children.Cons? && LosslessForest(children)
  }

  predicate LosslessForest(f: Forest) {
    f.Cons? ==> Lossless(f.tree) && LosslessForest(f.rest)
  }

  ghost predicate Kept(all: Nodes, l: Location) {
    l in all ==> !all[l].LinkNode? && LeafBelow(all, l)
  }

  lemma KeptByMember(part: Nodes, all: Nodes, l: Location)
    requires forall k | k in part :: k in all && all[k] == part[k]
    requires l in part && Kept(part, l)
    ensures Kept(all, l)
  {
    var leaf :| leaf in part && part[leaf] != DirNode && Covers(l, leaf);
    assert leaf in all && all[leaf] == part[leaf];
  }

  lemma {:induction false} LosslessKept(loc: Location, t: Tree, l: Location)
    requires WellNamed(t) && Lossless(t)
    ensures Kept(TreeNodes(loc, t), l) && LeafBelow(TreeNodes(loc, t), loc)
    decreases t, 1
  {
    var all := TreeNodes(loc, t);
    if t.Dir? {
      var f := t.children;
      var first := TreeNodes(loc + [f.name], f.tree);
      ForestKeys(loc, f);
      LosslessForestKept(loc, f, l);
      LosslessKept(loc + [f.name], f.tree, loc + [f.name]);
      SiblingsApart(loc, f);
      var leaf :| leaf in first && first[leaf] != DirNode && Covers(loc + [f.name], leaf);
      ChildCovers(loc, f.name, leaf);
      assert leaf in all && all[leaf] == first[leaf];
      if l in ForestNodes(loc, f) {
        KeptByMember(ForestNodes(loc, f), all, l);
      }
    } else {
      assert loc in all && Covers(loc, loc);
    }
  }

  lemma {:induction false} LosslessForestKept(loc: Location, f: Forest, l: Location)
    requires WellNamedForest(f) && LosslessForest(f)
    ensures Kept(ForestNodes(loc, f), l)
    decreases f, 0
  {
    if f.Cons? {
      var first, others := TreeNodes(loc + [f.name], f.tree), ForestNodes(loc, f.rest);
      LosslessKept(loc + [f.name], f.tree, l);
      LosslessForestKept(loc, f.rest, l);
      SiblingsApart(loc, f);
      if l in first {
        KeptByMember(first, first + others, l);
      } else if l in others {
        KeptByMember(others, first + others, l);
      }
    }
  }

  lemma OtherChild(loc: Location, name: string, l: Location, leaf: Location)
    requires |l| > |loc| && l[|loc|] != name && Covers(loc + [name], leaf)
    ensures !Covers(l, leaf) && leaf != l
  {
    ChildCovers(loc, name, leaf);
    assert |l| <= |leaf| ==> leaf[..|l|][|loc|] == leaf[|loc|];
  }

  /** A tree that is not lossless has a link, or a directory with no leaf below it. */
  lemma {:induction false} SomethingLost(loc: Location, t: Tree) returns (l: Location)
    requires loc != [] && WellNamed(t) && !Lossless(t)
    ensures l in TreeNodes(loc, t) && !Kept(TreeNodes(loc, t), l)
    decreases t, 1
  {
    if t.Dir? && t.children.Cons? {
      ForestKeys(loc, t.children);
      l := SomethingLostForest(loc, t.children);
      RootAddsNoLeaf(loc, ForestNodes(loc, t.children), l);
    } else {
      l := loc;
    }
  }

  lemma RootAddsNoLeaf(loc: Location, below: Nodes, l: Location)
    requires loc !in below
    ensures LeafBelow(map[loc := DirNode] + below, l) <==> LeafBelow(below, l)
  {
    var all := map[loc := DirNode] + below;
    assert forall leaf :: leaf in all && all[leaf] != DirNode <==> leaf in below && below[leaf] != DirNode;
  }

  lemma {:induction false} SomethingLostForest(loc: Location, f: Forest) returns (l: Location)
    requires WellNamedForest(f) && !LosslessForest(f)
    ensures l in ForestNodes(loc, f) && !Kept(ForestNodes(loc, f), l)
    decreases f, 0
  {
    var at := loc + [f.name];
    var first, others := TreeNodes(at, f.tree), ForestNodes(loc, f.rest);
    TreeKeys(at, f.tree);
    ForestKeys(loc, f.rest);
    if !Lossless(f.tree) {
      l := SomethingLost(at, f.tree);
      forall leaf | leaf in others ensures !Covers(l, leaf) {
        if Covers(l, leaf) {
          CoversTransitive(at, l, leaf);
          ChildCovers(loc, f.name, leaf);
        }
      }
    } else {
      l := SomethingLostForest(loc, f.rest);
      forall leaf | leaf in first ensures !Covers(l, leaf) && l !in first {
        OtherChild(loc, f.name, l, leaf);
      }
      SiblingsApart(loc, f);
    }
  }

  /** A zip archive restores the very tree for exactly the trees without links in which every
      directory has something in it. */
  lemma ZipLosesNothingExactly(loc: Location, t: Tree)
    requires loc != [] && WellNamed(t)
    ensures ZipNodes(loc, t) == Dirs(Parent(loc)) + TreeNodes(loc, t) <==> Lossless(t)
  {
    hide Dirs, Kept;
    var z, all, up := ZipNodes(loc, t), TreeNodes(loc, t), Dirs(Parent(loc));
    ZipKeeps(loc, t);
    TreeKeys(loc, t);
    if Lossless(t) {
      forall l ensures Same(z, up + all, l) {
        assert ZipImageAt(z, all, l);
        LosslessKept(loc, t, l);
        KeptIsSame(loc, t, l);
      }
      SameEverywhere(z, up + all);
    } else {
      var l := SomethingLost(loc, t);
      assert ZipImageAt(z, all, l);
      assert (up + all)[l] == all[l];
      NotKept(z, all, l);
    }
  }

  lemma SameEverywhere(a: Nodes, b: Nodes)
    requires forall l :: Same(a, b, l)
    ensures a == b
  {
    assert forall l :: l in a ==> Same(a, b, l);
    assert forall l :: l in b ==> Same(a, b, l);
  }

  lemma NotKept(z: Nodes, all: Nodes, l: Location)
    requires l in all && !Kept(all, l) && ZipImageAt(z, all, l)
    ensures l in z ==> z[l] != all[l]
  {
  }

  /** A tree has every location between its root and its nodes. */
  lemma {:induction false} TreeClosed(loc: Location, t: Tree, l: Location, k: Location)
    requires loc != [] && k in TreeNodes(loc, t) && Covers(loc, l) && Covers(l, k)
    ensures l in TreeNodes(loc, t)
    decreases t, 1
  {
    assert |l| == |loc| ==> l == l[..|loc|] == loc;
    if t.Dir? && l != loc {
      assert k in ForestNodes(loc, t.children);
      ForestClosed(loc, t.children, l, k);
    }
  }

  lemma {:induction false} ForestClosed(loc: Location, f: Forest, l: Location, k: Location)
    requires k in ForestNodes(loc, f) && Covers(loc, l) && |l| > |loc| && Covers(l, k)
    ensures l in ForestNodes(loc, f)
    decreases f, 0
  {
    if k in ForestNodes(loc, f.rest) {
      ForestClosed(loc, f.rest, l, k);
    } else {
      TreeKeys(loc + [f.name], f.tree);
      ChildCovers(loc, f.name, k);
      assert l[|loc|] == k[..|l|][|loc|] == f.name;
      ChildCovers(loc, f.name, l);
      TreeClosed(loc + [f.name], f.tree, l, k);
    }
  }

  lemma KeptIsSame(loc: Location, t: Tree, l: Location)
    requires loc != [] && ZipImageAt(ZipNodes(loc, t), TreeNodes(loc, t), l)
    requires Kept(TreeNodes(loc, t), l) && LeafBelow(TreeNodes(loc, t), loc)
    ensures Same(ZipNodes(loc, t), Dirs(Parent(loc)) + TreeNodes(loc, t), l)
  {
    var all := TreeNodes(loc, t);
    TreeKeys(loc, t);
    DirsGrow(loc);
    if l !in all && Covers(l, loc) {
      var leaf :| leaf in all && all[leaf] != DirNode && Covers(loc, leaf);
      CoversTransitive(l, loc, leaf);
    }
    if l !in all && l != [] && LeafBelow(all, l) {
      var leaf :| leaf in all && all[leaf] != DirNode && Covers(l, leaf);
      CoversParent(loc, leaf, l);
      assert !Covers(loc, l) by {
        if Covers(loc, l) {
          TreeClosed(loc, t, l, leaf);
        }
      }
    }
  }

  // ------------------------------------------------------------------ onto an empty destination

  /** A directory with nothing in it. */
  ghost predicate IsEmptyDir(m: Nodes, dest: Location) {
    IsDir(m, dest) && forall l | l in m :: Covers(dest, l) ==> l == dest
  }

  lemma EmptyIsVacant(cwd: Location, m: Nodes, d: Path, rel: seq<string>, t: Tree)
    requires Sound(m, cwd) && IsEmptyDir(m, At(cwd, d)) && (rel == [] || (|rel| == 1 && IsName(rel[0])))
    requires rel == [] ==> t.Dir?
    ensures var root := Loc(cwd, d, rel); Openable(m, Parent(root)) && Vacant(m, root, t)
  {
    var dest, root := At(cwd, d), Loc(cwd, d, rel);
    hide At, Loc, Dirs, Sound;
    EmptyIsOpenable(m, cwd, dest);
    if rel == [] {
      LocSelf(cwd, d);
      forall l | l in m ensures Covers(root, l) ==> l == root && m[l] == DirNode {
        if Covers(root, l) {
          SoundHere(m, cwd, l);
        }
      }
    } else {
      assert [] + rel == rel && rel == [rel[0]];
      LocSelf(cwd, d);
      LocChild(cwd, d, [], rel[0]);
      forall l | l in m ensures !Covers(root, l) {
        OnlyBelow(dest, rel[0], l);
      }
    }
  }

  lemma SoundHere(m: Nodes, cwd: Location, l: Location)
    requires Sound(m, cwd) && l in m
    ensures l != []
  {
    assert SoundAt(m, l);
  }

  lemma LocSelf(cwd: Location, d: Path)
    ensures Loc(cwd, d, []) == At(cwd, d)
  {
    assert d.comps + [] == d.comps;
  }

  lemma OnlyBelow(dest: Location, name: string, l: Location)
    ensures Covers(dest + [name], l) ==> Covers(dest, l) && l != dest
  {
    ChildCovers(dest, name, l);
  }

  lemma EmptyIsOpenable(m: Nodes, cwd: Location, dest: Location)
    requires Sound(m, cwd) && IsDir(m, dest)
    ensures Openable(m, dest) && Openable(m, Parent(dest))
  {
    hide Dirs;
    DirIsMade(m, cwd, dest);
    if dest != [] {
      assert SoundAt(m, dest);
    }
    DirIsMade(m, cwd, Parent(dest));
  }

  /** Packing a tree and unpacking it onto an empty directory, other than as "." or "/", restores it
      under its base name when all its links are accepted. */
  lemma TarOntoEmpty(cwd: Location, m: Nodes, sourcePath: string, t: Tree, destDir: string)
    requires SourceOk(sourcePath, t) && BaseOf(sourcePath) != [".."] && Parse(destDir).comps != []
    requires Sound(m, cwd) && IsEmptyDir(m, At(cwd, Parse(destDir)))
    requires LinksAccepted(Parse(destDir), BaseOf(sourcePath), t)
    ensures var packed := Walk(Tar, sourcePath, DirPath(sourcePath), t);
            var dest := At(cwd, Parse(destDir));
            packed.Some? &&
            ExtractAll(Tar, cwd, m, packed.value, Clean(destDir))
            == Outcome(m + TreeNodes(dest + BaseOf(sourcePath), t), None)
  {
    var d, rel := Parse(destDir), BaseOf(sourcePath);
    assert rel == [] || (|rel| == 1 && IsName(rel[0])) by {
      NameOrUp(sourcePath);
    }
    hide Parse, DirPath, BaseOf, Extends, Walk, ExtractAll, Clean, At, Loc, Sound, LinksAccepted, TreeNodes, Dirs;
    EmptyIsVacant(cwd, m, d, rel, t);
    RootOnEmpty(cwd, m, d, rel);
    TarRoundTrip(cwd, m, sourcePath, t, destDir);
  }

  lemma RootOnEmpty(cwd: Location, m: Nodes, d: Path, rel: seq<string>)
    requires Sound(m, cwd) && IsDir(m, At(cwd, d)) && (rel == [] || (|rel| == 1 && IsName(rel[0])))
    ensures Loc(cwd, d, rel) == At(cwd, d) + rel && m + Dirs(Parent(Loc(cwd, d, rel))) == m
  {
    hide At, Loc, Sound, Dirs;
    var dest := At(cwd, d);
    LocSelf(cwd, d);
    if rel != [] {
      assert rel == [rel[0]] && [] + rel == rel;
      LocChild(cwd, d, [], rel[0]);
      DirIsMade(m, cwd, dest);
      assert Parent(dest + rel) == dest;
    } else {
      assert dest + rel == dest;
      EmptyParent(m, cwd, dest);
    }
  }

  lemma NameOrUp(s: string)
    ensures BaseOf(s) == [] || BaseOf(s) == [".."] || (|BaseOf(s)| == 1 && IsName(BaseOf(s)[0]))
  {
    hide Parse, DirPath;
  }

  lemma EmptyParent(m: Nodes, cwd: Location, dest: Location)
    requires Sound(m, cwd) && IsDir(m, dest)
    ensures m + Dirs(Parent(dest)) == m
  {
    if dest != [] {
      assert SoundAt(m, dest);
    }
    DirIsMade(m, cwd, Parent(dest));
  }
}
