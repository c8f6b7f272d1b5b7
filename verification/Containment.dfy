/** What extraction can touch: nothing but the destination, and no link that leads out of it, as
    long as no entry has a symbolic link on its way. */
module Containment {
  import opened Wrappers
  import opened Strings
  import opened Paths
  import opened Files
  import opened LinkFree
  import opened Archive
  import opened Extraction

  // ---------------------------------------------------------------- locations below a destination

  /** Components of `t` below `d`. */
  function Rest(d: Path, t: Path): seq<string>
    requires |d.comps| <= |t.comps|
  {
    t.comps[|d.comps|..]
  }

  lemma RestNames(d: Path, t: Path)
    requires Canonical(t) && Inside(d, t)
    ensures t.comps == d.comps + Rest(d, t)
    ensures forall c | c in Rest(d, t) :: IsName(c)
  {
    assert forall i | 0 <= i < |Rest(d, t)| :: Rest(d, t)[i] == t.comps[|d.comps| + i];
  }

  /** An accepted target is at or below the destination, and so is its directory, or above it. */
  lemma AcceptedSpot(cwd: Location, d: Path, t: Path)
    requires Canonical(d) && Canonical(t) && !EndsInUp(d) && Accepts(d, t)
    ensures At(cwd, t) == At(cwd, d) + Rest(d, t)
    ensures At(cwd, Up(t)) == Parent(At(cwd, t)) || At(cwd, Up(t)) == At(cwd, t)
    ensures Covers(At(cwd, d), At(cwd, t)) && At(cwd, t)[|At(cwd, d)|..] == Rest(d, t)
  {
    hide At, Accepts;
    AcceptsIsInside(d, t);
    RestNames(d, t);
    AtBelow(cwd, d, Rest(d, t));
    if d.comps != [] {
      assert t.comps[|d.comps| - 1] == d.comps[|d.comps| - 1];
      assert IsName(t.comps[|t.comps| - 1]);
      AtParent(cwd, t);
    } else {
      OnlyItself(d, t);
    }
  }

  lemma OnlyItself(d: Path, t: Path)
    requires d.comps == [] && Accepts(d, t)
    ensures t == d == Up(t)
  {
  }

  // ----------------------------------------------------------------------------- containment

  /** A change at `loc` is at or below the destination, or a directory made on the way to it. */
  ghost predicate Contained(m: Nodes, m': Nodes, dest: Location) {
    forall loc ::
      Same(m, m', loc) || Covers(dest, loc) || (Covers(loc, dest) && loc !in m && loc in m' && m'[loc] == DirNode)
  }

  /** Every link that was not there before resolves inside the destination. */
  ghost predicate LinksContained(cwd: Location, m: Nodes, m': Nodes, d: Path) {
    forall loc | loc in m' && m'[loc].LinkNode? ::
      Same(m, m', loc) || (Covers(At(cwd, d), loc) && LinkInsideAt(cwd, d, loc, m'[loc].target))
  }

  ghost predicate LinkInsideAt(cwd: Location, d: Path, loc: Location, link: string) {
    |At(cwd, d)| <= |loc| && LinkInside(d, Path(d.rooted, d.comps + loc[|At(cwd, d)|..]), link)
  }

  lemma MkdirContained(m: Nodes, loc: Location, dest: Location)
    requires Covers(dest, loc) || Covers(loc, dest)
    ensures Contained(m, MkdirAllAt(m, loc).nodes, dest)
    ensures forall l | l in MkdirAllAt(m, loc).nodes :: l in m || MkdirAllAt(m, loc).nodes[l] == DirNode
    ensures forall l | l in m :: l in MkdirAllAt(m, loc).nodes && MkdirAllAt(m, loc).nodes[l] == m[l]
  {
    var m' := MkdirAllAt(m, loc).nodes;
    forall l ensures Same(m, m', l) || Covers(dest, l) || (Covers(l, dest) && l !in m && l in m' && m'[l] == DirNode) {
      if Openable(m, loc) && l in Dirs(loc) {
        if l in m {
          assert l == loc[..|l|];
        } else if Covers(dest, loc) {
          CoversParent(dest, loc, l);
        } else {
          CoversTransitive(l, loc, dest);
        }
      }
    }
    forall l | l in m ensures l in m' && m'[l] == m[l] {
      if Openable(m, loc) && l in Dirs(loc) {
        assert l == loc[..|l|];
      }
    }
  }

  // ------------------------------------------------------------------- files with names outside

  /** The files of a file system, by their names. */
  function Ids(m: Nodes): map<Location, Location> {
    map l | l in m && m[l].FileNode? :: m[l].id
  }

  /** `l` and `k` are names of one file, `k` outside the destination. */
  ghost predicate NameOutside(ids: map<Location, Location>, dest: Location, l: Location, k: Location) {
    k in ids && !Covers(dest, k) && l in ids && ids[l] == ids[k]
  }

  ghost predicate HasNameOutside(ids: map<Location, Location>, dest: Location, l: Location) {
    exists k :: NameOutside(ids, dest, l, k)
  }

  /** The names inside the destination of files that have a name outside it. */
  ghost function ForeignNames(ids: map<Location, Location>, dest: Location): set<Location> {
    set l | l in ids && Covers(dest, l) && HasNameOutside(ids, dest, l)
  }

  ghost function Foreign(m: Nodes, dest: Location): set<Location> {
    ForeignNames(Ids(m), dest)
  }

  /** A hard link to a file, told from the links there are, puts a name of it. */
  ghost predicate NamesFile(links: LinkMap, format: Format, cwd: Location, h: Header, d: Path) {
    format.Tar? && h.kind.HardLink? && Accepts(d, Target(d, h.name)) && At(cwd, Target(d, h.linkname)) !in links
  }

  /** The foreign names after an entry that succeeds. */
  ghost function ForeignAfter(foreign: set<Location>, links: LinkMap, format: Format, cwd: Location, h: Header, d: Path)
    : set<Location>
  {
    var source := At(cwd, Target(d, h.linkname));
    if NamesFile(links, format, cwd, h, d) && (source in foreign || !Covers(At(cwd, d), source))
    then foreign + {At(cwd, Target(d, h.name))}
    else foreign
  }

  predicate IsFileEntry(format: Format, h: Header) {
    if format.Tar? then h.kind.Regular? else !h.kind.Directory?
  }

  ghost predicate WritesOwn(foreign: set<Location>, format: Format, cwd: Location, h: Header, d: Path) {
    IsFileEntry(format, h) && Accepts(d, Target(d, h.name)) ==> At(cwd, Target(d, h.name)) !in foreign
  }

  /** No file entry is put where a file has a name that also has one outside the destination: there
      before, or by an earlier hard-link entry.  It is told from the archive and the file system
      beforehand, whatever the contents of the entries. */
  ghost predicate ArchiveWritesOwn(foreign: set<Location>, links: LinkMap, format: Format, cwd: Location,
                                   hs: seq<Header>, d: Path)
    decreases hs
  {
    hs != [] ==>
      WritesOwn(foreign, format, cwd, hs[0], d) &&
      ArchiveWritesOwn(ForeignAfter(foreign, links, format, cwd, hs[0], d), LinksAfter(links, format, cwd, hs[0], d),
                       format, cwd, hs[1..], d)
  }

  lemma MkdirKeepsIds(m: Nodes, loc: Location)
    ensures Ids(MkdirAllAt(m, loc).nodes) == Ids(m)
  {
    hide MkdirAllAt;
    forall l ensures l in Ids(MkdirAllAt(m, loc).nodes) <==> l in Ids(m) {
      MkdirKeeps(m, loc, l);
    }
    forall l | l in Ids(m) ensures Ids(MkdirAllAt(m, loc).nodes)[l] == Ids(m)[l] {
      MkdirKeeps(m, loc, l);
    }
  }

  /** A new file inside has one name. */
  lemma NewFileIsOwn(ids: map<Location, Location>, dest: Location, loc: Location)
    requires Covers(dest, loc) && loc !in ids && forall k | k in ids :: ids[k] != loc
    ensures ForeignNames(ids[loc := loc], dest) == ForeignNames(ids, dest)
  {
    var ids' := ids[loc := loc];
    forall l | l in ids && Covers(dest, l) ensures HasNameOutside(ids', dest, l) <==> HasNameOutside(ids, dest, l) {
      assert forall k :: NameOutside(ids', dest, l, k) <==> NameOutside(ids, dest, l, k);
    }
    assert forall k :: !NameOutside(ids', dest, loc, k);
  }

  /** One more name inside is foreign when the file has a name outside. */
  lemma NewNameIsForeign(ids: map<Location, Location>, dest: Location, loc: Location, source: Location)
    requires Covers(dest, loc) && loc !in ids && source in ids
    ensures ForeignNames(ids[loc := ids[source]], dest) ==
      ForeignNames(ids, dest) + if source in ForeignNames(ids, dest) || !Covers(dest, source) then {loc} else {}
  {
    var ids' := ids[loc := ids[source]];
    forall l | l in ids && Covers(dest, l) ensures HasNameOutside(ids', dest, l) <==> HasNameOutside(ids, dest, l) {
      assert forall k :: NameOutside(ids', dest, l, k) <==> NameOutside(ids, dest, l, k);
    }
    assert forall k :: NameOutside(ids', dest, loc, k) <==> NameOutside(ids, dest, source, k);
    assert !Covers(dest, source) ==> NameOutside(ids, dest, source, source);
  }

  lemma WriteTellsIds(m: Nodes, loc: Location, content: Bytes)
    ensures WriteAt(m, loc, content).error.None? ==>
      Ids(WriteAt(m, loc, content).nodes) == if loc in m then Ids(m) else Ids(m)[loc := loc]
  {
  }

  lemma LinkTellsIds(m: Nodes, loc: Location, target: string, source: Location)
    ensures SymlinkAt(m, loc, target).error.None? ==> Ids(SymlinkAt(m, loc, target).nodes) == Ids(m)
    ensures HardLinkAt(m, source, loc).error.None? ==>
      && loc !in m && source in m && (source in Ids(m) <==> source !in Links(m))
      && Ids(HardLinkAt(m, source, loc).nodes) == if source in Ids(m) then Ids(m)[loc := Ids(m)[source]] else Ids(m)
  {
  }

  /** An entry that succeeds leaves exactly the foreign names told. */
  lemma ForeignTold(format: Format, cwd: Location, m: Nodes, h: Header, d: Path)
    requires Canonical(d) && !EndsInUp(d) && Sound(m, cwd) && Place(format, cwd, m, h, d).error.None?
    ensures Foreign(Place(format, cwd, m, h, d).nodes, At(cwd, d))
         == ForeignAfter(Foreign(m, At(cwd, d)), Links(m), format, cwd, h, d)
  {
    hide At, Target, Up, Accepts, LinkAccepted, MkdirAllAt, WriteAt, SymlinkAt, HardLinkAt, Ids, Links, ForeignNames,
      EndsInUp, Sound;
    var t, source := Target(d, h.name), At(cwd, Target(d, h.linkname));
    var loc, dest := At(cwd, t), At(cwd, d);
    var made := MkdirAllAt(m, At(cwd, Up(t))).nodes;
    TargetCanonical(d, h.name);
    UpCanonical(t);
    AcceptedSpot(cwd, d, t);
    MkdirKeepsIds(m, loc);
    MkdirKeepsIds(m, At(cwd, Up(t)));
    MkdirKeepsLinks(m, At(cwd, Up(t)));
    AtNamesOnly(m, cwd, Up(t));
    MkdirKeepsSound(m, cwd, At(cwd, Up(t)));
    WriteTellsIds(made, loc, h.content);
    LinkTellsIds(made, loc, h.linkname, source);
    IdsArePresent(made, cwd, loc);
    if loc !in made {
      NewFileIsOwn(Ids(made), dest, loc);
      if source in Ids(made) {
        NewNameIsForeign(Ids(made), dest, loc, source);
      }
    }
  }

  lemma IdsArePresent(m: Nodes, cwd: Location, loc: Location)
    requires Sound(m, cwd)
    ensures loc !in m ==> loc !in Ids(m) && forall k | k in Ids(m) :: Ids(m)[k] != loc
  {
    assert forall k | k in Ids(m) :: SoundAt(m, k);
  }

  // ------------------------------------------------------------------------- nothing else changes

  /** No change outside the destination. */
  ghost predicate InsideOnly(m: Nodes, m': Nodes, dest: Location) {
    forall l :: Covers(dest, l) || Same(m, m', l)
  }

  /** The last operation on an entry changes nothing outside, if a file there has its names inside. */
  lemma FinalOpsInside(m: Nodes, dest: Location, source: Location, loc: Location, content: Bytes, link: string)
    requires Covers(dest, loc)
    ensures loc !in Foreign(m, dest) ==> InsideOnly(m, WriteAt(m, loc, content).nodes, dest)
    ensures InsideOnly(m, SymlinkAt(m, loc, link).nodes, dest)
    ensures InsideOnly(m, HardLinkAt(m, source, loc).nodes, dest)
  {
    if loc !in Foreign(m, dest) {
      forall l | !Covers(dest, l) ensures Same(m, WriteAt(m, loc, content).nodes, l) {
        assert !NameOutside(Ids(m), dest, loc, l);
      }
    }
  }

  /** What one entry does to the nodes: nothing, or make directories, or also change something inside
      the destination. */
  lemma PlacedInside(format: Format, cwd: Location, m: Nodes, h: Header, d: Path)
    requires Canonical(d) && !EndsInUp(d) && WritesOwn(Foreign(m, At(cwd, d)), format, cwd, h, d)
    ensures var t := Target(d, h.name);
            var m' := Place(format, cwd, m, h, d).nodes;
            || m' == m
            || (Accepts(d, t) && m' == MkdirAllAt(m, At(cwd, t)).nodes)
            || (Accepts(d, t) && InsideOnly(MkdirAllAt(m, At(cwd, Up(t))).nodes, m', At(cwd, d)))
  {
    hide At, Target, LinkAccepted, MkdirAllAt, WriteAt, SymlinkAt, HardLinkAt, Accepts, Up, ForeignNames, Ids, EndsInUp,
      InsideOnly;
    var t := Target(d, h.name);
    var made, loc := MkdirAllAt(m, At(cwd, Up(t))).nodes, At(cwd, t);
    TargetCanonical(d, h.name);
    if Accepts(d, t) {
      AcceptedSpot(cwd, d, t);
      MkdirKeepsIds(m, At(cwd, Up(t)));
      FinalOpsInside(made, At(cwd, d), At(cwd, Target(d, h.linkname)), loc, h.content, h.linkname);
    }
    MkdirFails(m, At(cwd, Up(t)));
  }

  lemma MkdirFails(m: Nodes, loc: Location)
    ensures MkdirAllAt(m, loc).error.Some? ==> MkdirAllAt(m, loc).nodes == m
  {
  }

  lemma ContainedThen(made: Nodes, m: Nodes, m': Nodes, dest: Location)
    requires Contained(m, made, dest) && InsideOnly(made, m', dest)
    ensures Contained(m, m', dest)
  {
    hide Covers;
    forall l | !Covers(dest, l)
      ensures Same(m, m', l) || (Covers(l, dest) && l !in m && l in m' && m'[l] == DirNode)
    {
      assert Same(made, m', l);
      assert Same(m, made, l) || (Covers(l, dest) && l !in m && l in made && made[l] == DirNode);
    }
  }

  lemma ParentRelated(dest: Location, loc: Location)
    requires Covers(dest, loc)
    ensures Covers(dest, Parent(loc)) || Covers(Parent(loc), dest)
  {
    if |loc| > |dest| {
      assert Parent(loc)[..|dest|] == loc[..|dest|];
    } else if loc != [] {
      assert dest == loc;
    }
  }

  /** One entry that writes no file of outside changes nothing outside the destination. */
  lemma PlaceContained(format: Format, cwd: Location, m: Nodes, h: Header, d: Path)
    requires Canonical(d) && !EndsInUp(d) && WritesOwn(Foreign(m, At(cwd, d)), format, cwd, h, d)
    ensures Contained(m, Place(format, cwd, m, h, d).nodes, At(cwd, d))
  {
    hide At, Target, MkdirAllAt, Place, Accepts, Up, Covers, InsideOnly, WritesOwn;
    var t, dest := Target(d, h.name), At(cwd, d);
    PlacedInside(format, cwd, m, h, d);
    if Accepts(d, t) {
      TargetCanonical(d, h.name);
      AcceptedSpot(cwd, d, t);
      ParentRelated(dest, At(cwd, t));
      MkdirContained(m, At(cwd, t), dest);
      MkdirContained(m, At(cwd, Up(t)), dest);
      var made := MkdirAllAt(m, At(cwd, Up(t))).nodes;
      if InsideOnly(made, Place(format, cwd, m, h, d).nodes, dest) {
        ContainedThen(made, m, Place(format, cwd, m, h, d).nodes, dest);
      }
    }
  }

  lemma ContainedTransitive(a: Nodes, b: Nodes, c: Nodes, dest: Location)
    ensures Contained(a, b, dest) && Contained(b, c, dest) ==> Contained(a, c, dest)
  {
    hide Covers;
  }

  lemma {:induction false} PlaceAllContained(format: Format, cwd: Location, m: Nodes, hs: seq<Header>, d: Path)
    requires Canonical(d) && !EndsInUp(d) && Sound(m, cwd)
    requires ArchiveWritesOwn(Foreign(m, At(cwd, d)), Links(m), format, cwd, hs, d)
    ensures Contained(m, PlaceAll(format, cwd, m, hs, d).nodes, At(cwd, d))
    decreases hs
  {
    hide At, Place, Contained, Foreign, Links, WritesOwn, ForeignAfter, LinksAfter, Sound, EndsInUp;
    if hs != [] {
      var o := Place(format, cwd, m, hs[0], d);
      PlaceContained(format, cwd, m, hs[0], d);
      if o.error.None? {
        PlaceKeepsSound(format, cwd, m, hs[0], d);
        ForeignTold(format, cwd, m, hs[0], d);
        LinksTold(format, cwd, m, hs[0], d);
        PlaceAllContained(format, cwd, o.nodes, hs[1..], d);
        ContainedTransitive(m, o.nodes, PlaceAll(format, cwd, o.nodes, hs[1..], d).nodes, At(cwd, d));
      }
    } else {
      NothingContained(m, At(cwd, d));
    }
  }

  lemma NothingContained(m: Nodes, dest: Location)
    ensures Contained(m, m, dest)
  {
  }

  ghost predicate StaysInside(format: Format, cwd: Location, m: Nodes, hs: seq<Header>, destDir: string) {
    Contained(m, ExtractAll(format, cwd, m, hs, Clean(destDir)).nodes, At(cwd, Parse(destDir)))
  }

  /** No file entry of the archive is put where a file of outside has a name. */
  ghost predicate WritesNothingForeign(format: Format, cwd: Location, m: Nodes, hs: seq<Header>, destDir: string) {
    ArchiveWritesOwn(Foreign(m, At(cwd, Parse(destDir))), Links(m), format, cwd, hs, Parse(destDir))
  }

  /** However an archive is made that meets no link and writes no file of outside, and wherever its
      extraction stops, nothing outside the destination changes except that missing directories
      above it are made. */
  lemma ExtractionContained(format: Format, cwd: Location, m: Nodes, hs: seq<Header>, destDir: string)
    requires !EndsInUp(Parse(destDir))
    requires MeetsNoLink(format, cwd, m, hs, destDir) && WritesNothingForeign(format, cwd, m, hs, destDir)
    ensures StaysInside(format, cwd, m, hs, destDir)
  {
    hide Parse, ExtractAll, PlaceAll, At, EndsInUp, Contained, Sound, ArchiveFree, Links, Foreign, ArchiveWritesOwn;
    ParseCanonical(destDir);
    ExtractAllIsPlaceAll(format, cwd, m, hs, destDir);
    PlaceAllContained(format, cwd, m, hs, Parse(destDir));
  }

  // ----------------------------------------------------------- the condition on files is needed

  /** The same files, links and directories, but for the contents of the files. */
  ghost predicate Alike(m: Nodes, n: Nodes) {
    m.Keys == n.Keys && forall l | l in m ::
      if m[l].FileNode? then n[l].FileNode? && n[l].id == m[l].id else n[l] == m[l]
  }

  function WithContent(h: Header, content: Bytes): Header {
    h.(content := content)
  }

  lemma OpsAlike(m: Nodes, n: Nodes, loc: Location, source: Location, link: string, c: Bytes, e: Bytes)
    requires Alike(m, n)
    ensures Alike(WriteAt(m, loc, c).nodes, WriteAt(n, loc, e).nodes)
    ensures WriteAt(m, loc, c).error == WriteAt(n, loc, e).error
    ensures Alike(SymlinkAt(m, loc, link).nodes, SymlinkAt(n, loc, link).nodes)
    ensures SymlinkAt(m, loc, link).error == SymlinkAt(n, loc, link).error
    ensures Alike(HardLinkAt(m, source, loc).nodes, HardLinkAt(n, source, loc).nodes)
    ensures HardLinkAt(m, source, loc).error == HardLinkAt(n, source, loc).error
  {
  }

  lemma MkdirAlike(m: Nodes, n: Nodes, loc: Location)
    requires Alike(m, n)
    ensures Alike(MkdirAllAt(m, loc).nodes, MkdirAllAt(n, loc).nodes)
    ensures MkdirAllAt(m, loc).error == MkdirAllAt(n, loc).error
  {
    hide Dirs;
    assert Openable(m, loc) <==> Openable(n, loc);
  }

  /** Contents make no difference to anything but contents. */
  lemma PlaceAlike(format: Format, cwd: Location, m: Nodes, n: Nodes, h: Header, c: Bytes, e: Bytes, d: Path)
    requires Alike(m, n)
    ensures var o, o' := Place(format, cwd, m, WithContent(h, c), d), Place(format, cwd, n, WithContent(h, e), d);
            o.error == o'.error && Alike(o.nodes, o'.nodes)
  {
    hide At, Target, Up, Accepts, LinkAccepted, MkdirAllAt, WriteAt, SymlinkAt, HardLinkAt, Alike;
    var t := Target(d, h.name);
    MkdirAlike(m, n, At(cwd, t));
    MkdirAlike(m, n, At(cwd, Up(t)));
    OpsAlike(MkdirAllAt(m, At(cwd, Up(t))).nodes, MkdirAllAt(n, At(cwd, Up(t))).nodes, At(cwd, t),
             At(cwd, Target(d, h.linkname)), h.linkname, c, e);
  }

  ghost predicate Shows(m: Nodes, k: Location, content: Bytes) {
    k in m && m[k].FileNode? && m[k].content == content
  }

  lemma OpsKeepShowing(m: Nodes, loc: Location, source: Location, link: string, c: Bytes, k: Location)
    requires Shows(m, k, c)
    ensures Shows(WriteAt(m, loc, c).nodes, k, c)
    ensures Shows(SymlinkAt(m, loc, link).nodes, k, c)
    ensures Shows(HardLinkAt(m, source, loc).nodes, k, c)
    ensures Shows(MkdirAllAt(m, loc).nodes, k, c)
  {
    MkdirKeeps(m, loc, k);
  }

  /** What has the contents that all entries have keeps them. */
  lemma PlaceKeepsShowing(format: Format, cwd: Location, m: Nodes, h: Header, c: Bytes, d: Path, k: Location)
    requires Shows(m, k, c)
    ensures Shows(Place(format, cwd, m, WithContent(h, c), d).nodes, k, c)
  {
    hide At, Target, Up, Accepts, LinkAccepted, MkdirAllAt, WriteAt, SymlinkAt, HardLinkAt, Shows;
    var t, source := Target(d, h.name), At(cwd, Target(d, h.linkname));
    OpsKeepShowing(m, At(cwd, t), source, h.linkname, c, k);
    OpsKeepShowing(m, At(cwd, Up(t)), source, h.linkname, c, k);
    OpsKeepShowing(MkdirAllAt(m, At(cwd, Up(t))).nodes, At(cwd, t), source, h.linkname, c, k);
  }

  function Filled(hs: seq<Header>, content: Bytes): seq<Header> {
    seq(|hs|, i requires 0 <= i < |hs| => WithContent(hs[i], content))
  }

  lemma {:induction false} PlaceAllKeepsShowing(format: Format, cwd: Location, m: Nodes, hs: seq<Header>, c: Bytes,
                                               d: Path, k: Location)
    requires Shows(m, k, c)
    ensures Shows(PlaceAll(format, cwd, m, Filled(hs, c), d).nodes, k, c)
    decreases hs
  {
    hide Place, Shows;
    if hs != [] {
      assert Filled(hs, c)[1..] == Filled(hs[1..], c) && Filled(hs, c)[0] == WithContent(hs[0], c);
      PlaceKeepsShowing(format, cwd, m, hs[0], c, d, k);
      PlaceAllKeepsShowing(format, cwd, Place(format, cwd, m, WithContent(hs[0], c), d).nodes, hs[1..], c, d, k);
    }
  }

  /** A file entry put at a foreign name is seen under the name outside. */
  lemma ForeignShows(format: Format, cwd: Location, m: Nodes, h: Header, c: Bytes, d: Path, k: Location)
    requires IsFileEntry(format, h) && Accepts(d, Target(d, h.name))
    requires NameOutside(Ids(m), At(cwd, d), At(cwd, Target(d, h.name)), k)
    requires Place(format, cwd, m, WithContent(h, c), d).error.None?
    ensures Shows(Place(format, cwd, m, WithContent(h, c), d).nodes, k, c)
  {
    hide At, Target, Up, Accepts, LinkAccepted, MkdirAllAt, Covers;
    var t := Target(d, h.name);
    var made := MkdirAllAt(m, At(cwd, Up(t))).nodes;
    MkdirKeeps(m, At(cwd, Up(t)), At(cwd, t));
    MkdirKeeps(m, At(cwd, Up(t)), k);
    assert made[At(cwd, t)].id == made[k].id;
  }

  lemma AlikeIds(m: Nodes, n: Nodes)
    requires Alike(m, n)
    ensures Ids(m) == Ids(n) && Links(m) == Links(n)
  {
  }

  /** With one content in all entries or another, some file outside ends up with it. */
  lemma {:induction false} ForeignWritten(format: Format, cwd: Location, m: Nodes, n: Nodes, hs: seq<Header>,
                                         c: Bytes, e: Bytes, d: Path) returns (k: Location)
    requires Canonical(d) && !EndsInUp(d) && Sound(m, cwd) && Alike(m, n)
    requires PlaceAll(format, cwd, m, Filled(hs, c), d).error.None?
    requires !ArchiveWritesOwn(Foreign(m, At(cwd, d)), Links(m), format, cwd, hs, d)
    ensures !Covers(At(cwd, d), k)
    ensures Shows(PlaceAll(format, cwd, m, Filled(hs, c), d).nodes, k, c)
    ensures Shows(PlaceAll(format, cwd, n, Filled(hs, e), d).nodes, k, e)
    decreases hs
  {
    hide At, Place, Target, Accepts, Ids, Links, Shows, Alike, EndsInUp, Sound, ForeignAfter, LinksAfter, Covers;
    var h, dest := hs[0], At(cwd, d);
    assert Filled(hs, c)[1..] == Filled(hs[1..], c) && Filled(hs, c)[0] == WithContent(h, c);
    assert Filled(hs, e)[1..] == Filled(hs[1..], e) && Filled(hs, e)[0] == WithContent(h, e);
    PlaceAlike(format, cwd, m, n, h, c, e, d);
    var o, o' := Place(format, cwd, m, WithContent(h, c), d), Place(format, cwd, n, WithContent(h, e), d);
    if WritesOwn(Foreign(m, dest), format, cwd, h, d) {
      PlaceKeepsSound(format, cwd, m, WithContent(h, c), d);
      ForeignTold(format, cwd, m, WithContent(h, c), d);
      LinksTold(format, cwd, m, WithContent(h, c), d);
      ContentIrrelevant(Foreign(m, dest), Links(m), format, cwd, h, c, d);
      k := ForeignWritten(format, cwd, o.nodes, o'.nodes, hs[1..], c, e, d);
    } else {
      assert HasNameOutside(Ids(m), dest, At(cwd, Target(d, h.name)));
      k :| NameOutside(Ids(m), dest, At(cwd, Target(d, h.name)), k);
      AlikeIds(m, n);
      ForeignShows(format, cwd, m, h, c, d, k);
      ForeignShows(format, cwd, n, h, e, d, k);
      PlaceAllKeepsShowing(format, cwd, o.nodes, hs[1..], c, d, k);
      PlaceAllKeepsShowing(format, cwd, o'.nodes, hs[1..], e, d, k);
    }
  }

  /** What is told beforehand is told without the contents. */
  lemma ContentIrrelevant(foreign: set<Location>, links: LinkMap, format: Format, cwd: Location, h: Header, c: Bytes,
                          d: Path)
    ensures var h' := WithContent(h, c);
            && WritesOwn(foreign, format, cwd, h', d) == WritesOwn(foreign, format, cwd, h, d)
            && ForeignAfter(foreign, links, format, cwd, h', d) == ForeignAfter(foreign, links, format, cwd, h, d)
            && LinksAfter(links, format, cwd, h', d) == LinksAfter(links, format, cwd, h, d)
            && EntryFree(links, format, cwd, h', d) == EntryFree(links, format, cwd, h, d)
  {
    hide At, Target, Accepts, Free, Up, LinkAccepted;
  }

  /** The same entries, but for their contents. */
  ghost predicate SameButContents(hs: seq<Header>, hs': seq<Header>) {
    |hs| == |hs'| && forall i | 0 <= i < |hs| :: hs'[i] == WithContent(hs[i], hs'[i].content)
  }

  lemma {:induction false} ConditionsIgnoreContents(foreign: set<Location>, links: LinkMap, format: Format,
                                                   cwd: Location, hs: seq<Header>, hs': seq<Header>, d: Path)
    requires SameButContents(hs, hs')
    ensures ArchiveWritesOwn(foreign, links, format, cwd, hs', d)
         == ArchiveWritesOwn(foreign, links, format, cwd, hs, d)
    ensures ArchiveFree(links, format, cwd, hs', d) == ArchiveFree(links, format, cwd, hs, d)
    decreases hs
  {
    hide WritesOwn, ForeignAfter, LinksAfter, EntryFree;
    if hs != [] {
      ContentIrrelevant(foreign, links, format, cwd, hs[0], hs'[0].content, d);
      ConditionsIgnoreContents(ForeignAfter(foreign, links, format, cwd, hs[0], d),
                               LinksAfter(links, format, cwd, hs[0], d), format, cwd, hs[1..], hs'[1..], d);
    }
  }

  lemma {:induction false} FilledAlike(format: Format, cwd: Location, m: Nodes, n: Nodes, hs: seq<Header>, c: Bytes,
                                      d: Path)
    requires Alike(m, n)
    ensures PlaceAll(format, cwd, m, hs, d).error == PlaceAll(format, cwd, n, Filled(hs, c), d).error
    decreases hs
  {
    hide Place, Alike;
    if hs != [] {
      var h := hs[0];
      assert Filled(hs, c)[1..] == Filled(hs[1..], c) && Filled(hs, c)[0] == WithContent(h, c);
      assert WithContent(h, h.content) == h;
      PlaceAlike(format, cwd, m, n, h, h.content, c, d);
      FilledAlike(format, cwd, Place(format, cwd, m, h, d).nodes, Place(format, cwd, n, WithContent(h, c), d).nodes,
                  hs[1..], c, d);
    }
  }

  /** Extraction stays inside its destination whatever the contents of the entries. */
  ghost predicate StaysInsideAnyway(format: Format, cwd: Location, m: Nodes, hs: seq<Header>, destDir: string) {
    forall hs' :: SameButContents(hs, hs') ==> StaysInside(format, cwd, m, hs', destDir)
  }

  /** An extraction that meets no link and ends without an error stays inside whatever the contents of
      the entries, if and only if it writes no file of outside. */
  lemma ContainedExactly(format: Format, cwd: Location, m: Nodes, hs: seq<Header>, destDir: string)
    requires !EndsInUp(Parse(destDir)) && MeetsNoLink(format, cwd, m, hs, destDir)
    requires ExtractAll(format, cwd, m, hs, Clean(destDir)).error.None?
    ensures StaysInsideAnyway(format, cwd, m, hs, destDir) <==> WritesNothingForeign(format, cwd, m, hs, destDir)
  {
    hide Parse, Clean, ExtractAll, At, EndsInUp, Sound, ArchiveFree, Links, Foreign, ArchiveWritesOwn, StaysInside;
    var d := Parse(destDir);
    forall hs' | SameButContents(hs, hs') ensures MeetsNoLink(format, cwd, m, hs', destDir) {
      ConditionsIgnoreContents(Foreign(m, At(cwd, d)), Links(m), format, cwd, hs, hs', d);
    }
    if WritesNothingForeign(format, cwd, m, hs, destDir) {
      forall hs' | SameButContents(hs, hs') ensures StaysInside(format, cwd, m, hs', destDir) {
        ConditionsIgnoreContents(Foreign(m, At(cwd, d)), Links(m), format, cwd, hs, hs', d);
        ExtractionContained(format, cwd, m, hs', destDir);
      }
    } else {
      ForeignChanges(format, cwd, m, hs, destDir);
      assert SameButContents(hs, Filled(hs, [])) && SameButContents(hs, Filled(hs, [0]));
    }
  }

  /** Otherwise the entries can be given contents that change a file outside. */
  lemma ForeignChanges(format: Format, cwd: Location, m: Nodes, hs: seq<Header>, destDir: string)
    requires !EndsInUp(Parse(destDir)) && MeetsNoLink(format, cwd, m, hs, destDir)
    requires ExtractAll(format, cwd, m, hs, Clean(destDir)).error.None?
    requires !WritesNothingForeign(format, cwd, m, hs, destDir)
    ensures !StaysInside(format, cwd, m, Filled(hs, []), destDir)
         || !StaysInside(format, cwd, m, Filled(hs, [0]), destDir)
  {
    hide Parse, Clean, ExtractAll, At, EndsInUp, Sound, ArchiveFree, Links, Foreign, ArchiveWritesOwn, PlaceAll;
    var d, none, one := Parse(destDir), Filled(hs, []), Filled(hs, [0]);
    ParseCanonical(destDir);
    assert Alike(m, m);
    ConditionsIgnoreContents(Foreign(m, At(cwd, d)), Links(m), format, cwd, hs, none, d);
    ConditionsIgnoreContents(Foreign(m, At(cwd, d)), Links(m), format, cwd, hs, one, d);
    ExtractAllIsPlaceAll(format, cwd, m, hs, destDir);
    ExtractAllIsPlaceAll(format, cwd, m, none, destDir);
    ExtractAllIsPlaceAll(format, cwd, m, one, destDir);
    FilledAlike(format, cwd, m, m, hs, [], d);
    var k := ForeignWritten(format, cwd, m, m, hs, [], [0], d);
    ShownOutside(m, PlaceAll(format, cwd, m, none, d).nodes, At(cwd, d), k, []);
    ShownOutside(m, PlaceAll(format, cwd, m, one, d).nodes, At(cwd, d), k, [0]);
  }

  lemma ShownOutside(m: Nodes, m': Nodes, dest: Location, k: Location, content: Bytes)
    requires Shows(m', k, content) && !Covers(dest, k)
    ensures Contained(m, m', dest) ==> Shows(m, k, content)
  {
    assert Contained(m, m', dest) ==> Same(m, m', k);
  }

  // --------------------------------------------------------- destinations that end in ".."

  /** From deep enough, as many steps up as there are in a path of "..". */
  lemma {:induction false} ClimbUp(cwd: Location, ups: seq<string>)
    requires (forall i | 0 <= i < |ups| :: ups[i] == "..") && |ups| <= |cwd|
    requires forall c | c in cwd :: IsName(c)
    ensures Resolve(true, cwd, ups) == cwd[..|cwd| - |ups|]
    decreases |ups|
  {
    if ups != [] {
      var up := cwd[..|cwd| - 1];
      assert cwd[|cwd| - 1] in cwd && forall c | c in up :: c in cwd;
      assert Push(true, cwd, ups[0]) == up;
      ClimbUp(up, ups[1..]);
      assert up[..|up| - (|ups| - 1)] == cwd[..|cwd| - |ups|];
    } else {
      assert cwd[..|cwd|] == cwd;
    }
  }

  /** Where an entry "../x" leads from a destination that ends in "..". */
  lemma UpLocations(cwd: Location, d: Path)
    requires Canonical(d) && EndsInUp(d) && cwd == seq(|d.comps| + 1, _ => "c")
    ensures var t := Target(d, "../x");
            At(cwd, d) == ["c"] && Accepts(d, t) && At(cwd, t) == ["x"] && At(cwd, Up(t)) == []
  {
    hide Parse, Target;
    var ups := d.comps + [".."];
    assert forall i | 0 <= i < |d.comps| :: d.comps[i] == "..";
    assert d.comps[0] == ".." && !d.rooted;
    ClimbUp(cwd, d.comps);
    ClimbUp(cwd, ups);
    assert cwd[..1] == ["c"] && cwd[..0] == [];
    TargetUpX(d);
    var t := Target(d, "../x");
    assert t.comps == ups + ["x"];
    AtBelow(cwd, Path(false, ups), ["x"]);
    assert Up(t) == Path(false, ups);
    assert [] + ["x"] == ["x"];
  }

  lemma TargetUpX(d: Path)
    requires EndsInUp(d) && !d.rooted
    ensures Target(d, "../x") == Path(false, d.comps + ["..", "x"])
  {
    SplitNone("x", '/');
    SplitCons("..", "x", '/');
    assert ".." + "/" + "x" == "../x" && [".."] + ["x"] == ["..", "x"];
    assert ["..", "x"][1..] == ["x"] && ["x"][1..] == [];
    assert Resolve(false, [], ["..", "x"]) == Resolve(false, [".."], ["x"]) == ["..", "x"];
    var up := d.comps + [".."];
    assert Resolve(false, d.comps, ["..", "x"]) == Resolve(false, up, ["x"]) == up + ["x"];
    assert up + ["x"] == d.comps + ["..", "x"];
  }

  /** The file an entry "../x" makes beside a destination that ends in "..". */
  lemma UpLeaves(cwd: Location, m: Nodes, d: Path)
    requires Canonical(d) && EndsInUp(d) && cwd == seq(|d.comps| + 1, _ => "c") && m == Dirs(cwd)
    ensures At(cwd, d) == ["c"] && ["x"] !in m
    ensures Place(Tar, cwd, m, Header("../x", Regular, "", []), d) == Outcome(m[["x"] := FileNode([], ["x"])], None)
  {
    hide At, Target, Accepts, Up;
    UpLocations(cwd, d);
    assert MkdirAllAt(m, []) == Outcome(m, None);
    assert Parent(["x"]) == [] && ["x"] !in m by {
      assert cwd[..1] == ["c"] != ["x"];
    }
    assert WriteAt(m, ["x"], []) == Outcome(m[["x"] := FileNode([], ["x"])], None);
  }

  lemma DirsSound(cwd: Location)
    requires NamesOnly(cwd)
    ensures Sound(Dirs(cwd), cwd) && Links(Dirs(cwd)) == map[] && Ids(Dirs(cwd)) == map[]
  {
    var none: Nodes := map[];
    assert none + Dirs(cwd) == Dirs(cwd);
    assert Openable(none, cwd);
    forall l | l in Dirs(cwd) ensures SoundAt(Dirs(cwd), l) {
      MadeIsSound(none, cwd, l);
    }
    assert cwd[..|cwd|] == cwd;
  }

  lemma UpEscapes(cwd: Location, m: Nodes, destDir: string)
    requires EndsInUp(Parse(destDir)) && cwd == seq(|Parse(destDir).comps| + 1, _ => "c") && m == Dirs(cwd)
    ensures var hs := [Header("../x", Regular, "", [])];
            && MeetsNoLink(Tar, cwd, m, hs, destDir) && WritesNothingForeign(Tar, cwd, m, hs, destDir)
            && !StaysInside(Tar, cwd, m, hs, destDir)
  {
    hide Parse, At, Render, EndsInUp, Place, ExtractAll, Dirs, Target, Accepts, Sound;
    var d, hs := Parse(destDir), [Header("../x", Regular, "", [])];
    ParseCanonical(destDir);
    UpLeaves(cwd, m, d);
    DirsSound(cwd);
    assert Foreign(m, At(cwd, d)) == {};
    assert hs[1..] == [];
    ExtractAllIsPlaceAll(Tar, cwd, m, hs, destDir);
    var m' := m[["x"] := FileNode([], ["x"])];
    assert PlaceAll(Tar, cwd, m, hs, d).nodes == m';
    assert !Covers(["c"], ["x"]) && !Covers(["x"], ["c"]) by {
      assert ["x"][0] != ["c"][0] && ["x"][..1] == ["x"] && ["c"][..1] == ["c"];
    }
    assert !Same(m, m', ["x"]);
  }

  /** Extraction that meets no link and writes no file of outside stays inside its destination,
      whatever the archive, the file system and the working directory, for exactly the destinations
      that do not end in "..". */
  lemma ContainmentExactly(destDir: string)
    ensures (forall format, cwd, m, hs ::
               MeetsNoLink(format, cwd, m, hs, destDir) && WritesNothingForeign(format, cwd, m, hs, destDir) ==>
                 StaysInside(format, cwd, m, hs, destDir))
            <==> !EndsInUp(Parse(destDir))
  {
    hide StaysInside, MeetsNoLink, WritesNothingForeign;
    if EndsInUp(Parse(destDir)) {
      var cwd: Location := seq(|Parse(destDir).comps| + 1, _ => "c");
      UpEscapes(cwd, Dirs(cwd), destDir);
    } else {
      forall format, cwd, m, hs
        | MeetsNoLink(format, cwd, m, hs, destDir) && WritesNothingForeign(format, cwd, m, hs, destDir)
        ensures StaysInside(format, cwd, m, hs, destDir)
      {
        ExtractionContained(format, cwd, m, hs, destDir);
      }
    }
  }

  // -------------------------------------------------------------------- a link that leads outside

  /** From a directory that a path leads to, a free name leads to a free place. */
  lemma {:induction false} FollowOn(m: Nodes, dir: Location, rest: seq<string>, links: nat, out: Location, x: string)
    requires Follow(m, dir, rest, links) == Present(out) && IsDir(m, out) && IsName(x) && out + [x] !in m
    ensures Follow(m, dir, rest + [x], links) == Absent(out + [x])
    decreases links, |rest|
  {
    if rest == [] {
      assert rest + [x] == [x];
    } else {
      var more := rest + [x];
      assert more[0] == rest[0] && more[1..] == rest[1..] + [x];
      var next := dir + [rest[0]];
      if rest[0] == "" || rest[0] == "." {
        FollowOn(m, dir, rest[1..], links, out, x);
      } else if rest[0] == ".." {
        FollowOn(m, Parent(dir), rest[1..], links, out, x);
      } else if m[next] == DirNode {
        FollowOn(m, next, rest[1..], links, out, x);
      } else if m[next].LinkNode? {
        var target := m[next].target;
        var from := if IsAbs(target) then [] else dir;
        FollowOn(m, from, Split(target, '/') + rest[1..], links - 1, out, x);
        assert Split(target, '/') + rest[1..] + [x] == Split(target, '/') + (rest[1..] + [x]);
      }
    }
  }

  /** The condition is needed: when a path below the destination leads, through links, to a directory
      outside it, a file entry below that path is written outside. */
  lemma LinkLeadsOutside(format: Format, cwd: Location, m: Nodes, destDir: string, rel: seq<string>, out: Location,
                         x: string, content: Bytes)
    requires Parse(destDir).comps != [] && NamesOnly(rel) && IsName(x)
    requires SpotOf(m, cwd, Path(Parse(destDir).rooted, Parse(destDir).comps + rel)) == Present(out)
    requires IsDir(m, out) && out + [x] !in m && !Covers(At(cwd, Parse(destDir)), out + [x])
    ensures var h := Header(Render(Path(false, rel + [x])), Regular, "", content);
            && ExtractAll(format, cwd, m, [h], Clean(destDir))
               == Outcome(m[out + [x] := FileNode(content, out + [x])], None)
            && !StaysInside(format, cwd, m, [h], destDir)
  {
    hide Parse, At, Render, Follow, Clean;
    var d, h := Parse(destDir), Header(Render(Path(false, rel + [x])), Regular, "", content);
    ParseCanonical(destDir);
    CleanIsRender(destDir);
    TargetBelow(d, rel + [x]);
    assert d.comps + (rel + [x]) == d.comps + rel + [x];
    var t := Target(d, h.name);
    assert Up(t) == Path(d.rooted, d.comps + rel);
    FollowOn(m, Start(cwd, d), d.comps + rel, LINK_LIMIT, out, x);
    hide Target, Up;
    assert MkdirAllIn(m, cwd, Up(t)) == Outcome(m, None);
    assert WriteIn(m, cwd, t, content) == Outcome(m[out + [x] := FileNode(content, out + [x])], None);
    assert [h][1..] == [];
    ExtractAllIsPerformAll(format, cwd, m, [h], d);
    assert !Same(m, m[out + [x] := FileNode(content, out + [x])], out + [x]);
  }

  lemma TargetBelow(d: Path, rel: seq<string>)
    requires Canonical(d) && NamesOnly(rel) && d.comps != []
    ensures Target(d, Render(Path(false, rel))) == Path(d.rooted, d.comps + rel)
    ensures Accepts(d, Path(d.rooted, d.comps + rel))
  {
    assert Canonical(Path(false, rel)) by {
      assert forall i | 0 <= i < |rel| :: rel[i] in rel;
    }
    ParseRender(Path(false, rel));
    ResolveNames(d.rooted, d.comps, rel);
  }

  // ------------------------------------------------------------------------------------ links

  /** The source of a hard-link entry that succeeds, if it is a symbolic link, resolves inside the
      destination also from where the entry is put. */
  ghost predicate HardLinkOk(format: Format, cwd: Location, m: Nodes, h: Header, d: Path) {
    var source := At(cwd, Target(d, h.linkname));
    format.Tar? && h.kind.HardLink? && Place(format, cwd, m, h, d).error.None? && source in m && m[source].LinkNode?
    ==> LinkInside(d, Target(d, h.name), m[source].target)
  }

  /** So for every hard-link entry when its turn comes. */
  ghost predicate HardLinksOk(format: Format, cwd: Location, m: Nodes, hs: seq<Header>, d: Path)
    decreases hs
  {
    hs != [] ==>
      var o := Place(format, cwd, m, hs[0], d);
      HardLinkOk(format, cwd, m, hs[0], d) && (o.error.None? ==> HardLinksOk(format, cwd, o.nodes, hs[1..], d))
  }

  lemma MkdirMakesNoLink(m: Nodes, loc: Location, l: Location)
    ensures var m' := MkdirAllAt(m, loc).nodes;
            && (l in m ==> l in m' && m'[l] == m[l])
            && (l in m' && m'[l].LinkNode? ==> l in m)
  {
    if Openable(m, loc) && l in m && l in Dirs(loc) {
      assert l == loc[..|l|];
    }
  }

  /** The link an entry makes, if it makes one, and where it comes from. */
  lemma PlacedLink(format: Format, cwd: Location, m: Nodes, h: Header, d: Path, l: Location)
    ensures var o := Place(format, cwd, m, h, d);
            var t := Target(d, h.name);
            var source := At(cwd, Target(d, h.linkname));
            && (l in m && m[l].LinkNode? ==> l in o.nodes && o.nodes[l] == m[l])
            && (l in m ==> l in o.nodes)
            && (l in o.nodes && o.nodes[l].LinkNode? && l !in m ==>
                  && l == At(cwd, t) && Accepts(d, t) && format.Tar? && o.error.None?
                  && (if h.kind.HardLink? then source in m && m[source] == o.nodes[l]
                      else LinkAccepted(d, t, h.linkname) && o.nodes[l].target == h.linkname))
            && (format.Tar? && h.kind.HardLink? && o.error.None? && source in m && m[source].LinkNode? ==>
                  Accepts(d, t) && At(cwd, t) !in m && At(cwd, t) in o.nodes && o.nodes[At(cwd, t)] == m[source])
  {
    hide At, Target, LinkAccepted, Accepts, Up, Dirs, Openable, MkdirAllAt;
    var t := Target(d, h.name);
    var loc, source := At(cwd, t), At(cwd, Target(d, h.linkname));
    MkdirMakesNoLink(m, loc, l);
    MkdirMakesNoLink(m, loc, loc);
    MkdirMakesNoLink(m, At(cwd, Up(t)), l);
    MkdirMakesNoLink(m, At(cwd, Up(t)), loc);
    MkdirMakesNoLink(m, At(cwd, Up(t)), source);
    MkdirMakesNoOther(m, At(cwd, Up(t)), source);
  }

  lemma MkdirMakesNoOther(m: Nodes, loc: Location, l: Location)
    ensures var m' := MkdirAllAt(m, loc).nodes; l in m' && m'[l] != DirNode ==> l in m
  {
  }

  /** What a run keeps of the nodes before it. */
  ghost predicate Grows(m: Nodes, m': Nodes) {
    && (forall l | l in m :: l in m')
    && (forall l | l in m && m[l].LinkNode? :: m'[l] == m[l])
    && (forall l | l in m && m'[l].LinkNode? :: m[l] == m'[l])
  }

  lemma PlaceGrows(format: Format, cwd: Location, m: Nodes, h: Header, d: Path)
    ensures Grows(m, Place(format, cwd, m, h, d).nodes)
  {
    hide At, Target, LinkAccepted, Accepts, Up, Dirs, Openable, MkdirAllAt;
    var t := Target(d, h.name);
    forall l | l in m
      ensures l in MkdirAllAt(m, At(cwd, t)).nodes && MkdirAllAt(m, At(cwd, t)).nodes[l] == m[l]
      ensures l in MkdirAllAt(m, At(cwd, Up(t))).nodes && MkdirAllAt(m, At(cwd, Up(t))).nodes[l] == m[l]
    {
      MkdirMakesNoLink(m, At(cwd, t), l);
      MkdirMakesNoLink(m, At(cwd, Up(t)), l);
    }
  }

  /** A link put at an accepted target is inside exactly when it resolves inside from there. */
  lemma LinkAtTarget(cwd: Location, d: Path, t: Path, link: string)
    requires Canonical(d) && Canonical(t) && !EndsInUp(d) && Accepts(d, t)
    ensures Covers(At(cwd, d), At(cwd, t))
    ensures LinkInsideAt(cwd, d, At(cwd, t), link) <==> LinkInside(d, t, link)
  {
    hide At, Accepts, LinkInside;
    AcceptedSpot(cwd, d, t);
    AcceptsIsInside(d, t);
    RestNames(d, t);
  }

  lemma AcceptedLinkInside(d: Path, t: Path, link: string)
    requires Canonical(d) && Canonical(t) && !EndsInUp(d)
    ensures LinkAccepted(d, t, link) ==> LinkInside(d, t, link)
  {
    hide LinkTarget, Inside, Accepts;
    LinkTargetCanonical(t, link);
    AcceptsIsInside(d, LinkTarget(t, link));
  }

  /** One entry keeps the links inside exactly when it is no hard link to one that does not
      resolve inside from there. */
  lemma PlaceLinksContained(format: Format, cwd: Location, m: Nodes, h: Header, d: Path)
    requires Canonical(d) && !EndsInUp(d)
    ensures LinksContained(cwd, m, Place(format, cwd, m, h, d).nodes, d) <==> HardLinkOk(format, cwd, m, h, d)
  {
    hide At, Target, Place, LinkInsideAt, LinkAccepted, LinkInside, Accepts, Covers, EndsInUp;
    var o, t := Place(format, cwd, m, h, d), Target(d, h.name);
    var loc, source := At(cwd, t), At(cwd, Target(d, h.linkname));
    TargetCanonical(d, h.name);
    PlacedLink(format, cwd, m, h, d, loc);
    PlaceGrows(format, cwd, m, h, d);
    forall l | l in o.nodes && o.nodes[l].LinkNode? && l != loc ensures Same(m, o.nodes, l) {
      PlacedLink(format, cwd, m, h, d, l);
    }
    if Accepts(d, t) && loc in o.nodes && o.nodes[loc].LinkNode? {
      LinkAtTarget(cwd, d, t, o.nodes[loc].target);
      AcceptedLinkInside(d, t, o.nodes[loc].target);
    }
  }

  /** Links once made stay as they are, so what a part of a run does to them is what it all does. */
  lemma LinksTransitive(cwd: Location, a: Nodes, b: Nodes, c: Nodes, d: Path)
    requires forall l | l in a :: l in b
    requires forall l | l in b && b[l].LinkNode? :: l in c && c[l] == b[l]
    requires forall l | l in a && a[l].LinkNode? :: b[l] == a[l]
    requires forall l | l in b && l in c && c[l].LinkNode? :: b[l] == c[l]
    ensures LinksContained(cwd, a, c, d) <==> LinksContained(cwd, a, b, d) && LinksContained(cwd, b, c, d)
  {
    hide At, LinkInsideAt, Covers;
    if LinksContained(cwd, a, c, d) {
      forall l | l in b && b[l].LinkNode? && !Same(a, b, l)
        ensures Covers(At(cwd, d), l) && LinkInsideAt(cwd, d, l, b[l].target)
      {
        assert l in c && c[l] == b[l];
        assert !Same(a, c, l);
      }
      forall l | l in c && c[l].LinkNode? && !Same(b, c, l)
        ensures Covers(At(cwd, d), l) && LinkInsideAt(cwd, d, l, c[l].target)
      {
        assert !Same(a, c, l);
      }
    }
  }

  lemma {:induction false} PlaceAllGrows(format: Format, cwd: Location, m: Nodes, hs: seq<Header>, d: Path)
    ensures Grows(m, PlaceAll(format, cwd, m, hs, d).nodes)
    decreases hs
  {
    hide Place;
    if hs != [] {
      var o := Place(format, cwd, m, hs[0], d);
      PlaceGrows(format, cwd, m, hs[0], d);
      PlaceAllGrows(format, cwd, o.nodes, hs[1..], d);
    }
  }

  lemma {:induction false} PlaceAllLinksContained(format: Format, cwd: Location, m: Nodes, hs: seq<Header>, d: Path)
    requires Canonical(d) && !EndsInUp(d)
    ensures LinksContained(cwd, m, PlaceAll(format, cwd, m, hs, d).nodes, d) <==> HardLinksOk(format, cwd, m, hs, d)
    decreases hs
  {
    hide At, Place, HardLinkOk, LinkInsideAt, Covers, EndsInUp;
    if hs != [] {
      hide LinksContained;
      var o := Place(format, cwd, m, hs[0], d);
      PlaceLinksContained(format, cwd, m, hs[0], d);
      if o.error.None? {
        PlaceAllLinksContained(format, cwd, o.nodes, hs[1..], d);
        PlaceGrows(format, cwd, m, hs[0], d);
        PlaceAllGrows(format, cwd, o.nodes, hs[1..], d);
        LinksTransitive(cwd, m, o.nodes, PlaceAll(format, cwd, o.nodes, hs[1..], d).nodes, d);
      }
    }
  }

  /** A hard-link entry whose source is one of these links is put where that resolves inside. */
  ghost predicate EntryRight(links: LinkMap, format: Format, cwd: Location, h: Header, d: Path) {
    var source := At(cwd, Target(d, h.linkname));
    format.Tar? && h.kind.HardLink? && Accepts(d, Target(d, h.name)) && source in links ==>
      LinkInside(d, Target(d, h.name), links[source])
  }

  /** So is every hard-link entry, told from the archive and the links there are beforehand. */
  ghost predicate HardLinksRight(links: LinkMap, format: Format, cwd: Location, hs: seq<Header>, d: Path)
    decreases hs
  {
    hs != [] ==>
      EntryRight(links, format, cwd, hs[0], d) &&
      HardLinksRight(LinksAfter(links, format, cwd, hs[0], d), format, cwd, hs[1..], d)
  }

  lemma RightIsOk(format: Format, cwd: Location, m: Nodes, h: Header, d: Path)
    ensures EntryRight(Links(m), format, cwd, h, d) ==> HardLinkOk(format, cwd, m, h, d)
    ensures Place(format, cwd, m, h, d).error.None? && HardLinkOk(format, cwd, m, h, d) ==>
      EntryRight(Links(m), format, cwd, h, d)
  {
    hide At, Target, LinkInside, LinkAccepted, Accepts, Up, MkdirAllAt, WriteAt, SymlinkAt, HardLinkAt;
  }

  lemma {:induction false} RightIsOkAll(format: Format, cwd: Location, m: Nodes, hs: seq<Header>, d: Path)
    ensures HardLinksRight(Links(m), format, cwd, hs, d) ==> HardLinksOk(format, cwd, m, hs, d)
    ensures PlaceAll(format, cwd, m, hs, d).error.None? && HardLinksOk(format, cwd, m, hs, d) ==>
      HardLinksRight(Links(m), format, cwd, hs, d)
    decreases hs
  {
    hide Place, HardLinkOk, EntryRight, Links, LinksAfter;
    if hs != [] {
      RightIsOk(format, cwd, m, hs[0], d);
      var o := Place(format, cwd, m, hs[0], d);
      if o.error.None? {
        LinksTold(format, cwd, m, hs[0], d);
        RightIsOkAll(format, cwd, o.nodes, hs[1..], d);
      }
    }
  }

  lemma {:induction false} NoHardLinksRight(links: LinkMap, format: Format, cwd: Location, hs: seq<Header>, d: Path)
    ensures format.Zip? || (forall h | h in hs :: h.kind != HardLink) ==> HardLinksRight(links, format, cwd, hs, d)
    decreases hs
  {
    hide At, Target, LinkInside, LinksAfter, Accepts;
    if hs != [] {
      NoHardLinksRight(LinksAfter(links, format, cwd, hs[0], d), format, cwd, hs[1..], d);
    }
  }

  /** In an extraction that meets no link, all links that appear resolve inside the destination when
      every hard-link entry is right, and, if the extraction ends without an error, only then.
      Without hard-link entries it is so. */
  lemma LinksContainedExactly(format: Format, cwd: Location, m: Nodes, hs: seq<Header>, destDir: string)
    requires !EndsInUp(Parse(destDir)) && MeetsNoLink(format, cwd, m, hs, destDir)
    ensures var d := Parse(destDir);
            var o := ExtractAll(format, cwd, m, hs, Clean(destDir));
            var right := HardLinksRight(Links(m), format, cwd, hs, d);
            && (right ==> LinksContained(cwd, m, o.nodes, d))
            && (o.error.None? ==> (LinksContained(cwd, m, o.nodes, d) <==> right))
            && (format.Zip? || (forall h | h in hs :: h.kind != HardLink) ==> right)
  {
    hide Parse, ExtractAll, PlaceAll, HardLinksOk, HardLinksRight, EndsInUp, LinksContained, MeetsNoLink, Links;
    var d := Parse(destDir);
    ParseCanonical(destDir);
    ExtractAllIsPlaceAll(format, cwd, m, hs, destDir);
    PlaceAllLinksContained(format, cwd, m, hs, d);
    RightIsOkAll(format, cwd, m, hs, d);
    NoHardLinksRight(Links(m), format, cwd, hs, d);
  }

  // ------------------------------------------------------------------- both conditions are needed

  lemma AtNames(names: seq<string>)
    requires NamesOnly(names)
    ensures At([], Path(true, names)) == names
  {
    ResolveNames(true, [], names);
    assert [] + names == names;
  }

  lemma TargetOfTwo(d: Path, a: string, b: string)
    requires IsName(a) && IsName(b)
    ensures Target(d, a + "/" + b) == Path(d.rooted, d.comps + [a, b])
  {
    var s := a + "/" + b;
    SplitNone(b, '/');
    SplitCons(a, b, '/');
    assert a[0] in a && s[0] == a[0];
    assert [a] + [b] == [a, b];
    ResolveNames(false, [], [a, b]);
    ResolveNames(d.rooted, d.comps, [a, b]);
    assert [] + [a, b] == [a, b];
  }

  lemma ResolveUp(names: seq<string>)
    requires names != [] && forall c | c in names :: IsName(c)
    ensures Resolve(true, names, Split("..", '/')) == names[..|names| - 1]
  {
    SplitNone("..", '/');
    assert names[|names| - 1] in names;
    ClimbUp(names, [".."]);
  }

  /** The two steps in the file system. */
  lemma TwoLinks() returns (m: Nodes)
    ensures var made := MkdirAllAt(map[], ["a", "d"]);
            made.error.None? && SymlinkAt(made.nodes, ["a", "d", "l"], "..") == Outcome(m, None)
    ensures ["a", "d", "l"] in m && m[["a", "d", "l"]] == LinkNode("..")
    ensures var made := MkdirAllAt(m, ["a"]);
            made.error.None? && HardLinkAt(made.nodes, ["a", "d", "l"], ["a", "h"]).error.None?
  {
    var made := MkdirAllAt(map[], ["a", "d"]);
    assert Parent(["a", "d", "l"]) == ["a", "d"] && Parent(["a", "h"]) == ["a"];
    assert Covers(["a", "d"], ["a", "d"]) && Covers(["a"], ["a", "d"]) by {
      assert ["a", "d"][..2] == ["a", "d"] && ["a", "d"][..1] == ["a"];
    }
    assert !Covers(["a", "d", "l"], ["a", "d"]) && !Covers(["a", "h"], ["a", "d"]) by {
      assert ["a", "h"][1] != ["a", "d"][1];
    }
    m := SymlinkAt(made.nodes, ["a", "d", "l"], "..").nodes;
    assert ["a"] in m && m[["a"]] == DirNode && ["a", "h"] !in m;
    assert Openable(m, ["a"]) by {
      assert ["a"][..1] == ["a"];
    }
    assert !Covers(["a", "d", "l"], ["a"]) && !Covers(["a", "h"], ["a"]);
  }

  /** The targets of the two entries, and what the link resolves to from either. */
  lemma TwoTargets()
    ensures var d := Path(true, ["a"]);
            var t, u := Target(d, "d/l"), Target(d, "h");
            && At([], t) == ["a", "d", "l"] && At([], Up(t)) == ["a", "d"] && Accepts(d, t) && LinkAccepted(d, t, "..")
            && At([], u) == ["a", "h"] && At([], Up(u)) == ["a"] && Accepts(d, u) && !LinkInside(d, u, "..")
  {
    hide At, Target, Resolve;
    var d := Path(true, ["a"]);
    TargetOfTwo(d, "d", "l");
    assert "d" + "/" + "l" == "d/l" && ["a"] + ["d", "l"] == ["a", "d", "l"];
    PlainTarget(d, "h");
    assert ["a"] + ["h"] == ["a", "h"];
    var t, u := Path(true, ["a", "d", "l"]), Path(true, ["a", "h"]);
    assert Target(d, "d/l") == t && Target(d, "h") == u;
    assert ["a", "d", "l"][..2] == ["a", "d"] && ["a", "h"][..1] == ["a"];
    assert Up(t) == Path(true, ["a", "d"]) && Up(u) == d;
    AtNames(["a", "d", "l"]);
    AtNames(["a", "d"]);
    AtNames(["a", "h"]);
    AtNames(["a"]);
    ResolveUp(["a", "d"]);
    ResolveUp(["a"]);
    assert ["a", "d"][..1] == ["a"] && ["a"][..0] == [];
    assert LinkTarget(t, "..") == d && LinkTarget(u, "..") == Path(true, []);
  }

  lemma DestA()
    ensures Parse("/a") == Path(true, ["a"]) && Clean("/a") == "/a" && Canonical(Path(true, ["a"]))
  {
    var d := Path(true, ["a"]);
    assert Canonical(d) && Render(d) == "/a";
    ParseRender(d);
  }

  lemma NothingSound()
    ensures Sound(map[], []) && Links(map[]) == map[]
  {
  }

  lemma PlaceTwo(format: Format, cwd: Location, m: Nodes, a: Header, b: Header, d: Path)
    ensures var first := Place(format, cwd, m, a, d);
            first.error.None? ==> PlaceAll(format, cwd, m, [a, b], d) == Place(format, cwd, first.nodes, b, d)
  {
    hide Place;
    var m' := Place(format, cwd, m, a, d).nodes;
    assert [a, b][1..] == [b] && [b][1..] == [];
    assert PlaceAll(format, cwd, m', [b], d) == Place(format, cwd, m', b, d);
  }

  lemma PerformTwo(format: Format, cwd: Location, m: Nodes, a: Header, b: Header, d: Path)
    ensures var first := Perform(format, cwd, m, a, d);
            first.error.None? ==> PerformAll(format, cwd, m, [a, b], d) == Perform(format, cwd, first.nodes, b, d)
  {
    hide Perform;
    var m' := Perform(format, cwd, m, a, d).nodes;
    assert [a, b][1..] == [b] && [b][1..] == [];
    assert PerformAll(format, cwd, m', [b], d) == Perform(format, cwd, m', b, d);
  }

  /** A link "d/l" to ".." stays inside, a hard link "h" to it does not. */
  lemma HardLinkMatters()
    ensures var hs := [Header("d/l", Symlink, "..", []), Header("h", HardLink, "d/l", [])];
            && MeetsNoLink(Tar, [], map[], hs, "/a")
            && ExtractAll(Tar, [], map[], hs, "/a").error.None?
            && !HardLinksRight(map[], Tar, [], hs, Path(true, ["a"]))
  {
    hide At, Target, MkdirAllAt, SymlinkAt, HardLinkAt, LinkAccepted, LinkInside, Accepts, Up, Parse, Clean, ExtractAll,
      Sound;
    var d := Path(true, ["a"]);
    var link, hard := Header("d/l", Symlink, "..", []), Header("h", HardLink, "d/l", []);
    var hs := [link, hard];
    DestA();
    NothingSound();
    TwoTargets();
    var m := TwoLinks();
    assert Place(Tar, [], map[], link, d) == Outcome(m, None);
    assert Place(Tar, [], m, hard, d).error.None?;
    assert hs[1..] == [hard] && [hard][1..] == [];
    PlaceTwo(Tar, [], map[], link, hard, d);
    PlacingIsExtracting(Tar, [], map[], hs, "/a");
    PlacedIsFree(Tar, [], map[], link, d);
    LinksTold(Tar, [], map[], link, d);
    PlaceKeepsSound(Tar, [], map[], link, d);
    PlacedIsFree(Tar, [], m, hard, d);
    assert !EntryRight(Links(m), Tar, [], hard, d);
  }

  lemma JoinThree()
    ensures Render(Path(false, ["d", "l", "m"])) == "d/l/m"
  {
    assert ["d", "l", "m"][1..] == ["l", "m"] && ["l", "m"][1..] == ["m"];
    assert Join(["l", "m"], '/') == "l/m";
  }

  lemma ThirdPath()
    ensures var d := Path(true, ["a"]);
            Target(d, "d/l/m") == Path(true, ["a", "d", "l", "m"]) && Accepts(d, Target(d, "d/l/m"))
  {
    hide Target, Render, Accepts;
    DestA();
    JoinThree();
    TargetBelow(Path(true, ["a"]), ["d", "l", "m"]);
    assert ["a"] + ["d", "l", "m"] == ["a", "d", "l", "m"];
  }

  lemma ThirdLink()
    ensures var t := Path(true, ["a", "d", "l", "m"]);
            Up(t) == Path(true, ["a", "d", "l"]) && LinkAccepted(Path(true, ["a"]), t, "..")
  {
    hide Resolve;
    var t := Path(true, ["a", "d", "l", "m"]);
    assert ["a", "d", "l", "m"][..3] == ["a", "d", "l"] && ["a", "d", "l"][..2] == ["a", "d"];
    assert Up(t) == Path(true, ["a", "d", "l"]);
    ResolveUp(["a", "d", "l"]);
    assert LinkTarget(t, "..") == Path(true, ["a", "d"]);
  }

  /** The target of an entry below the link, and where its directory leads. */
  lemma ThirdTarget(m: Nodes)
    requires ["a"] in m && m[["a"]] == DirNode && ["a", "d"] in m && m[["a", "d"]] == DirNode
    requires ["a", "d", "l"] in m && m[["a", "d", "l"]] == LinkNode("..")
    ensures var d := Path(true, ["a"]);
            var t := Target(d, "d/l/m");
            && Accepts(d, t) && LinkAccepted(d, t, "..") && EndsInName(t) && t.comps[|t.comps| - 1] == "m"
            && SpotOf(m, [], Up(t)) == Present(["a"])
  {
    hide Follow, Target, Accepts, LinkAccepted, Up;
    ThirdPath();
    ThirdLink();
    FollowLink(m);
  }

  lemma FollowLink(m: Nodes)
    requires ["a"] in m && m[["a"]] == DirNode && ["a", "d"] in m && m[["a", "d"]] == DirNode
    requires ["a", "d", "l"] in m && m[["a", "d", "l"]] == LinkNode("..")
    ensures Follow(m, [], ["a", "d", "l"], LINK_LIMIT) == Present(["a"])
  {
    SplitNone("..", '/');
    assert ["a", "d", "l"][1..] == ["d", "l"] && ["d", "l"][1..] == ["l"] && ["l"][1..] == [] && [".."][1..] == [];
    assert [] + ["a"] == ["a"] && ["a"] + ["d"] == ["a", "d"] && ["a", "d"] + ["l"] == ["a", "d", "l"];
    assert [".."] + [] == [".."] && Parent(["a", "d"]) == ["a"];
    assert Follow(m, ["a", "d"], [".."], LINK_LIMIT - 1) == Follow(m, ["a"], [], LINK_LIMIT - 1);
    assert Follow(m, ["a", "d"], ["l"], LINK_LIMIT) == Present(["a"]);
  }

  /** The second link is made in the directory the first leads to. */
  lemma MadeThrough(m: Nodes)
    requires ["a"] in m && m[["a"]] == DirNode && ["a", "d"] in m && m[["a", "d"]] == DirNode
    requires ["a", "d", "l"] in m && m[["a", "d", "l"]] == LinkNode("..") && ["a", "m"] !in m
    ensures Perform(Tar, [], m, Header("d/l/m", Symlink, "..", []), Path(true, ["a"]))
         == Outcome(m[["a", "m"] := LinkNode("..")], None)
  {
    hide Target, LinkAccepted, Accepts, Up, Follow;
    ThirdTarget(m);
    var t := Target(Path(true, ["a"]), "d/l/m");
    assert ["a"] + ["m"] == ["a", "m"];
    assert MkdirAllIn(m, [], Up(t)) == Outcome(m, None);
    assert EntryOf(m, [], t) == Some(["a", "m"]);
  }

  lemma FirstLinkAt()
    ensures var made := MkdirAllAt(map[], ["a", "d"]);
            made.error.None? && SymlinkAt(made.nodes, ["a", "d", "l"], "..") ==
            Outcome(map[["a"] := DirNode, ["a", "d"] := DirNode, ["a", "d", "l"] := LinkNode("..")], None)
  {
    var both: Nodes := map[["a"] := DirNode, ["a", "d"] := DirNode];
    assert Parent(["a", "d", "l"]) == ["a", "d"] && Parent(["a", "d"]) == ["a"] && Parent(["a"]) == [];
    assert Dirs([]) == map[];
    assert Dirs(["a"]) == map[["a"] := DirNode];
    assert Dirs(["a", "d"]) == both;
    var none: Nodes := map[];
    assert none + both == both;
  }

  function OneLink(): Nodes {
    map[["a"] := DirNode, ["a", "d"] := DirNode, ["a", "d", "l"] := LinkNode("..")]
  }

  lemma FirstLink()
    ensures Perform(Tar, [], map[], Header("d/l", Symlink, "..", []), Path(true, ["a"])) == Outcome(OneLink(), None)
  {
    hide At, Target, LinkAccepted, Accepts, Up, Sound, MkdirAllAt, SymlinkAt;
    var d, link := Path(true, ["a"]), Header("d/l", Symlink, "..", []);
    DestA();
    NothingSound();
    TwoTargets();
    FirstLinkAt();
    assert Place(Tar, [], map[], link, d) == Outcome(OneLink(), None);
    hide Place, OneLink;
    PlacedIsFree(Tar, [], map[], link, d);
    PerformIsPlace(Tar, [], map[], link, d);
  }

  /** From the top of the destination ".." leads outside. */
  lemma OutsideFromTop()
    ensures var d := Path(true, ["a"]); At([], d) == ["a"] && !LinkInsideAt([], d, ["a", "m"], "..")
  {
    AtNames(["a"]);
    ResolveUp(["a"]);
    assert ["a", "m"][1..] == ["m"] && ["a"] + ["m"] == ["a", "m"];
    assert Up(Path(true, ["a", "m"])).comps == ["a"] && ["a"][..0] == [];
  }

  lemma FollowUpLink(m: Nodes)
    requires ["a"] in m && m[["a"]] == DirNode && ["a", "m"] in m && m[["a", "m"]] == LinkNode("..")
    ensures Follow(m, [], ["a", "m"], LINK_LIMIT) == Present([])
  {
    SplitNone("..", '/');
    assert ["a", "m"][1..] == ["m"] && ["m"][1..] == [] && [".."][1..] == [];
    assert [] + ["a"] == ["a"] && ["a"] + ["m"] == ["a", "m"] && [".."] + [] == [".."];
    assert Follow(m, ["a"], [".."], LINK_LIMIT - 1) == Follow(m, [], [], LINK_LIMIT - 1) == Present([]);
    assert Follow(m, ["a"], ["m"], LINK_LIMIT) == Present([]);
  }

  /** A link "d/l" to "..", and below it a link "d/l/m" to "..": both are accepted, but the second is
      made in the directory the first leads to, and from there resolves outside.  So then does a path
      below the destination, as `LinkLeadsOutside` asks. */
  lemma LinkThroughLinkMatters()
    ensures var hs := [Header("d/l", Symlink, "..", []), Header("d/l/m", Symlink, "..", [])];
            var o := ExtractAll(Tar, [], map[], hs, "/a");
            && Sound(map[], []) && !MeetsNoLink(Tar, [], map[], hs, "/a")
            && o.error.None? && !LinksContained([], map[], o.nodes, Path(true, ["a"]))
            && SpotOf(o.nodes, [], Path(true, ["a", "m"])) == Present([])
  {
    hide At, Parse, Clean, ExtractAll, Sound, Perform, LinkInsideAt, Follow, MeetsNoLink;
    var d := Path(true, ["a"]);
    var link, through := Header("d/l", Symlink, "..", []), Header("d/l/m", Symlink, "..", []);
    var hs := [link, through];
    DestA();
    CleanIsRender("/a");
    NothingSound();
    var m := OneLink();
    FirstLink();
    MadeThrough(m);
    PerformTwo(Tar, [], map[], link, through, d);
    ExtractAllIsPerformAll(Tar, [], map[], hs, d);
    OutsideFromTop();
    var none: Nodes, m' := map[], m[["a", "m"] := LinkNode("..")];
    assert ["a", "m"] in m' && m'[["a", "m"]] == LinkNode("..") && !Same(none, m', ["a", "m"]);
    FollowUpLink(m');
    if MeetsNoLink(Tar, [], map[], hs, "/a") {
      LinksContainedExactly(Tar, [], map[], hs, "/a");
    }
  }
}
