/** A file system as a map from locations to nodes, with the operations the extractors use.

    A location is the list of names from the root; the path of a file leads to one, following
    symbolic links as the operating system does. */
module Files {
  import opened Wrappers
  import opened Strings
  import opened Paths

  type Bytes = seq<Byte>

  type Location = seq<string>

  /** A file has an identity, shared by all its names: the location of one of them. */
  datatype Node = DirNode | FileNode(content: Bytes, id: Location) | LinkNode(target: string)

  type Nodes = map<Location, Node>

  datatype Error = Slip | InvalidSymlink | FileError

  /** The nodes after an operation, and its error if it failed. */
  datatype Outcome = Outcome(nodes: Nodes, error: Option<Error>)

  /** The location of a path: seen from the root, or from the working directory. */
  function At(cwd: Location, p: Path): Location {
    Resolve(true, if p.rooted then [] else cwd, p.comps)
  }

  function Parent(loc: Location): Location {
    if loc == [] then [] else loc[..|loc| - 1]
  }

  predicate IsDir(m: Nodes, loc: Location) {
    loc == [] || (loc in m && m[loc] == DirNode)
  }

  /** `b` is `a` or lies below it. */
  predicate Covers(a: Location, b: Location) {
    |a| <= |b| && b[..|a|] == a
  }

  lemma CoversTransitive(a: Location, b: Location, c: Location)
    requires Covers(a, b) && Covers(b, c)
    ensures Covers(a, c)
  {
    assert c[..|a|] == b[..|a|];
  }

  lemma CoversParent(dest: Location, loc: Location, a: Location)
    requires Covers(dest, loc) && Covers(a, loc)
    ensures Covers(dest, a) || Covers(a, dest)
  {
    if |dest| <= |a| {
      assert a[..|dest|] == loc[..|dest|];
    } else {
      assert dest[..|a|] == loc[..|a|];
    }
  }

  predicate Same(m: Nodes, m': Nodes, loc: Location) {
    (loc in m <==> loc in m') && (loc in m && loc in m' ==> m[loc] == m'[loc])
  }

  /** No node on the way to `loc`, or at it, is anything but a directory. */
  predicate Openable(m: Nodes, loc: Location) {
    forall k | 1 <= k <= |loc| :: loc[..k] in m ==> m[loc[..k]] == DirNode
  }

  /** `loc` and everything above it, as directories. */
  function Dirs(loc: Location): (m: Nodes)
    ensures forall l :: l in m <==> l != [] && Covers(l, loc)
    ensures forall l | l in m :: m[l] == DirNode
  {
    if loc == [] then map[]
    else
      assert forall l :: Covers(l, loc) && l != loc ==> Covers(l, Parent(loc)) by {
        forall l | Covers(l, loc) && l != loc ensures Covers(l, Parent(loc)) {
          assert Parent(loc)[..|l|] == loc[..|l|];
        }
      }
      assert forall l :: Covers(l, Parent(loc)) ==> Covers(l, loc) by {
        forall l | Covers(l, Parent(loc)) ensures Covers(l, loc) {
          assert Parent(loc)[..|l|] == loc[..|l|];
        }
      }
      Dirs(Parent(loc))[loc := DirNode]
  }

  // -------------------------------------------------------------------------- following links

  /** How many links are followed on one path: MAXSYMLINKS of Linux. */
  const LINK_LIMIT := 40

  /** Where a path leads: to a node, to a free place in a directory, or nowhere. */
  datatype Spot = Present(loc: Location) | Absent(loc: Location) | Nowhere

  /** From the directory `dir`, element by element. */
  function Follow(m: Nodes, dir: Location, rest: seq<string>, links: nat): Spot
    decreases links, |rest|
  {
    if rest == [] then Present(dir)
    else if rest[0] == "" || rest[0] == "." then Follow(m, dir, rest[1..], links)
    else if rest[0] == ".." then Follow(m, Parent(dir), rest[1..], links)
    else
      var next := dir + [rest[0]];
      if next !in m then (if |rest| == 1 then Absent(next) else Nowhere)
      else
        match m[next]
        case DirNode => Follow(m, next, rest[1..], links)
        case FileNode(_, _) => if |rest| == 1 then Present(next) else Nowhere
        case LinkNode(target) =>
          if links == 0 || target == "" then Nowhere
          else Follow(m, if IsAbs(target) then [] else dir, Split(target, '/') + rest[1..], links - 1)
  }

  function Start(cwd: Location, p: Path): Location {
    if p.rooted then [] else cwd
  }

  function SpotOf(m: Nodes, cwd: Location, p: Path): Spot {
    Follow(m, Start(cwd, p), p.comps, LINK_LIMIT)
  }

  /** Where an operation that does not follow a last link finds or makes its node. */
  function EntryOf(m: Nodes, cwd: Location, p: Path): Option<Location> {
    if p.comps == [] || p.comps[|p.comps| - 1] == ".." then None
    else
      var dir := SpotOf(m, cwd, Up(p));
      if dir.Present? && IsDir(m, dir.loc) then Some(dir.loc + [p.comps[|p.comps| - 1]]) else None
  }

  function Mkdir(m: Nodes, cwd: Location, p: Path): Outcome {
    var place := EntryOf(m, cwd, p);
    if place.Some? && place.value !in m then Outcome(m[place.value := DirNode], None) else Outcome(m, Some(FileError))
  }

  /** os.MkdirAll: nothing to do for a directory; otherwise first its parent. */
  function MkdirAllIn(m: Nodes, cwd: Location, p: Path): Outcome
    decreases |p.comps|
  {
    var spot := SpotOf(m, cwd, p);
    if spot.Present? then Outcome(m, if IsDir(m, spot.loc) then None else Some(FileError))
    else if p.comps == [] then Outcome(m, Some(FileError))
    else
      var up := MkdirAllIn(m, cwd, Up(p));
      if up.error.Some? then up else Mkdir(up.nodes, cwd, p)
  }

  /** The file `id` gets new contents, under all its names. */
  function Rewritten(m: Nodes, id: Location, content: Bytes): Nodes {
    map l | l in m :: if m[l].FileNode? && m[l].id == id then FileNode(content, id) else m[l]
  }

  /** os.Create, and os.OpenFile to create or truncate: a last link is followed too. */
  function WriteIn(m: Nodes, cwd: Location, p: Path, content: Bytes): Outcome {
    var spot := SpotOf(m, cwd, p);
    if spot.Absent? then Outcome(m[spot.loc := FileNode(content, spot.loc)], None)
    else if spot.Present? && spot.loc in m && m[spot.loc].FileNode?
    then Outcome(Rewritten(m, m[spot.loc].id, content), None)
    else Outcome(m, Some(FileError))
  }

  function SymlinkIn(m: Nodes, cwd: Location, p: Path, target: string): Outcome {
    var place := EntryOf(m, cwd, p);
    if place.Some? && place.value !in m && target != ""
    then Outcome(m[place.value := LinkNode(target)], None)
    else Outcome(m, Some(FileError))
  }

  /** A hard link is one more name of its source. */
  function LinkIn(m: Nodes, cwd: Location, source: Path, p: Path): Outcome {
    var from, place := EntryOf(m, cwd, source), EntryOf(m, cwd, p);
    if from.Some? && from.value in m && m[from.value] != DirNode && place.Some? && place.value !in m
    then Outcome(m[place.value := m[from.value]], None)
    else Outcome(m, Some(FileError))
  }

  // ------------------------------------------------ the operations where no link is on the way

  function MkdirAllAt(m: Nodes, loc: Location): Outcome {
    if Openable(m, loc) then Outcome(m + Dirs(loc), None) else Outcome(m, Some(FileError))
  }

  function WriteAt(m: Nodes, loc: Location, content: Bytes): Outcome {
    if loc == [] || !IsDir(m, Parent(loc)) then Outcome(m, Some(FileError))
    else if loc !in m then Outcome(m[loc := FileNode(content, loc)], None)
    else if m[loc].FileNode? then Outcome(Rewritten(m, m[loc].id, content), None)
    else Outcome(m, Some(FileError))
  }

  function SymlinkAt(m: Nodes, loc: Location, target: string): Outcome {
    if loc != [] && IsDir(m, Parent(loc)) && loc !in m && target != ""
    then Outcome(m[loc := LinkNode(target)], None)
    else Outcome(m, Some(FileError))
  }

  function HardLinkAt(m: Nodes, source: Location, loc: Location): Outcome {
    if loc != [] && IsDir(m, Parent(loc)) && loc !in m && source in m && m[source] != DirNode
    then Outcome(m[loc := m[source]], None)
    else Outcome(m, Some(FileError))
  }

  class FileSystem {
    const cwd: Location
    var nodes: Nodes

    constructor (cwd: Location, nodes: Nodes)
      ensures this.cwd == cwd && this.nodes == nodes
    {
      this.cwd := cwd;
      this.nodes := nodes;
    }

    method MkdirAll(path: string) returns (error: Option<Error>)
      modifies this
      ensures Outcome(nodes, error) == MkdirAllIn(old(nodes), cwd, Parse(path))
    {
      error := MkdirAllPath(Parse(path));
    }

    method MkdirAllPath(p: Path) returns (error: Option<Error>)
      modifies this
      ensures Outcome(nodes, error) == MkdirAllIn(old(nodes), cwd, p)
      decreases |p.comps|
    {
      hide Follow;
      var spot := SpotOf(nodes, cwd, p);
      if spot.Present? {
        return if IsDir(nodes, spot.loc) then None else Some(FileError);
      }
      if p.comps == [] {
        return Some(FileError);
      }
      error := MkdirAllPath(Up(p));
      if error.None? {
        var place := EntryOf(nodes, cwd, p);
        if place.None? || place.value in nodes {
          return Some(FileError);
        }
        nodes := nodes[place.value := DirNode];
      }
    }

    method WriteFile(path: string, content: Bytes) returns (error: Option<Error>)
      modifies this
      ensures Outcome(nodes, error) == WriteIn(old(nodes), cwd, Parse(path), content)
    {
      hide Follow;
      var spot := SpotOf(nodes, cwd, Parse(path));
      if spot.Nowhere? || (spot.Present? && (spot.loc !in nodes || !nodes[spot.loc].FileNode?)) {
        return Some(FileError);
      }
      if spot.Absent? {
        nodes := nodes[spot.loc := FileNode(content, spot.loc)];
      } else {
        nodes := Rewritten(nodes, nodes[spot.loc].id, content);
      }
      return None;
    }

    method Symlink(target: string, path: string) returns (error: Option<Error>)
      modifies this
      ensures Outcome(nodes, error) == SymlinkIn(old(nodes), cwd, Parse(path), target)
    {
      var place := EntryOf(nodes, cwd, Parse(path));
      if place.None? || place.value in nodes || target == "" {
        return Some(FileError);
      }
      nodes := nodes[place.value := LinkNode(target)];
      return None;
    }

    method Link(source: string, path: string) returns (error: Option<Error>)
      modifies this
      ensures Outcome(nodes, error) == LinkIn(old(nodes), cwd, Parse(source), Parse(path))
    {
      var from, place := EntryOf(nodes, cwd, Parse(source)), EntryOf(nodes, cwd, Parse(path));
      if place.None? || place.value in nodes || from.None? || from.value !in nodes || nodes[from.value] == DirNode {
        return Some(FileError);
      }
      nodes := nodes[place.value := nodes[from.value]];
      return None;
    }
  }
}
