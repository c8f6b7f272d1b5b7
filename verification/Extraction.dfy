/** What extraction does, in terms of path components instead of strings, and when symbolic links on
    the way play no part in it. */
module Extraction {
  import opened Wrappers
  import opened Strings
  import opened Paths
  import opened Files
  import opened LinkFree
  import opened Archive

  /** What a link at `t` resolves to, from the link's directory. */
  function LinkTarget(t: Path, link: string): Path {
    Path(t.rooted, Resolve(t.rooted, Up(t).comps, Split(link, '/')))
  }

  /** A relative link at `t` whose target the destination accepts. */
  ghost predicate LinkAccepted(d: Path, t: Path, link: string) {
    !IsAbs(link) && Accepts(d, LinkTarget(t, link))
  }

  /** A relative link at `t` whose target is inside `d`. */
  ghost predicate LinkInside(d: Path, t: Path, link: string) {
    !IsAbs(link) && Inside(d, LinkTarget(t, link))
  }

  /** ExtractTar and ExtractZip by components: no string is compared or rebuilt. */
  ghost function Perform(format: Format, cwd: Location, m: Nodes, h: Header, d: Path): Outcome {
    var t := Target(d, h.name);
    if !Accepts(d, t) then Outcome(m, Some(Slip))
    else if h.kind.Directory? then MkdirAllIn(m, cwd, t)
    else if format.Tar? && h.kind.Other? then Outcome(m, None)
    else if format.Tar? && h.kind.Symlink? && !LinkAccepted(d, t, h.linkname) then Outcome(m, Some(InvalidSymlink))
    else
      var made := MkdirAllIn(m, cwd, Up(t));
      if made.error.Some? then made
      else if format.Zip? || h.kind.Regular? then WriteIn(made.nodes, cwd, t, h.content)
      else if h.kind.Symlink? then SymlinkIn(made.nodes, cwd, t, h.linkname)
      else LinkIn(made.nodes, cwd, Target(d, h.linkname), t)
  }

  ghost function PerformAll(format: Format, cwd: Location, m: Nodes, hs: seq<Header>, d: Path): Outcome
    decreases hs
  {
    if hs == [] then Outcome(m, None)
    else
      var o := Perform(format, cwd, m, hs[0], d);
      if o.error.Some? then o else PerformAll(format, cwd, o.nodes, hs[1..], d)
  }

  lemma LinkTargetCanonical(t: Path, link: string)
    requires Canonical(t)
    ensures Canonical(LinkTarget(t, link))
  {
    UpCanonical(t);
    JoinSplit(link, '/');
    ResolveCanonical(t.rooted, Up(t).comps, Split(link, '/'));
  }

  /** The strings built for a target, and for its directory, are those paths. */
  lemma ParseTarget(t: Path)
    requires Canonical(t)
    ensures Parse(Render(t)) == t && Parse(DirPath(Render(t))) == Up(t)
  {
    hide Render, Parse, DirPath;
    ParseRender(t);
    DirRender(t);
    UpCanonical(t);
    ParseRender(Up(t));
  }

  /** The check of a link accepts it exactly when the destination accepts what it resolves to. */
  lemma ValidSymlinkExactly(d: Path, t: Path, link: string)
    requires Canonical(d) && Canonical(t)
    ensures ValidSymlink(link, Render(d), Render(t)) <==> LinkAccepted(d, t, link)
  {
    hide Accepts, PassesPrefixTest;
    UpCanonical(t);
    DirRender(t);
    SplitRender(Up(t));
    ParseRender(Up(t));
    ParseJoined(Render(Up(t)), link);
    LinkTargetCanonical(t, link);
    PrefixTestExactly(d, LinkTarget(t, link));
  }

  /** For a destination that ends in a name these are the links that stay inside. */
  lemma ValidSymlinkIsInside(d: Path, t: Path, link: string)
    requires Canonical(d) && Canonical(t) && EndsInName(d)
    ensures ValidSymlink(link, Render(d), Render(t)) <==> LinkInside(d, t, link)
  {
    hide Accepts, Inside, ValidSymlink, LinkTarget;
    ValidSymlinkExactly(d, t, link);
    LinkTargetCanonical(t, link);
    AcceptsIsInside(d, LinkTarget(t, link));
  }

  /** Extracting an entry is performing it: every string operation of the extractors has its meaning
      on components, for every destination and every file system. */
  lemma ExtractIsPerform(format: Format, cwd: Location, m: Nodes, h: Header, d: Path)
    requires Canonical(d)
    ensures Extract(format, cwd, m, h, Render(d)) == Perform(format, cwd, m, h, d)
  {
    hide Target, JoinPath, Clean, Render, DirPath, Parse, MkdirAllIn, WriteIn, SymlinkIn, LinkIn,
      ValidSymlink, LinkAccepted, PassesPrefixTest, Accepts, Up;
    var t := Target(d, h.name);
    TargetCanonical(d, h.name);
    PrefixTestExactly(d, t);
    ParseTarget(t);
    ValidSymlinkExactly(d, t, h.linkname);
    TargetCanonical(d, h.linkname);
    ParseTarget(Target(d, h.linkname));
  }

  lemma {:induction false} ExtractAllIsPerformAll(format: Format, cwd: Location, m: Nodes, hs: seq<Header>, d: Path)
    requires Canonical(d)
    ensures ExtractAll(format, cwd, m, hs, Render(d)) == PerformAll(format, cwd, m, hs, d)
    decreases hs
  {
    hide Extract, Perform, Render;
    if hs != [] {
      ExtractIsPerform(format, cwd, m, hs[0], d);
      ExtractAllIsPerformAll(format, cwd, Perform(format, cwd, m, hs[0], d).nodes, hs[1..], d);
    }
  }

  // ---------------------------------------------------------------- where no link is on the way

  /** What an entry does where no link is on its way; with a link there, it fails. */
  ghost function Place(format: Format, cwd: Location, m: Nodes, h: Header, d: Path): Outcome {
    var t := Target(d, h.name);
    if !Accepts(d, t) then Outcome(m, Some(Slip))
    else if h.kind.Directory? then MkdirAllAt(m, At(cwd, t))
    else if format.Tar? && h.kind.Other? then Outcome(m, None)
    else if format.Tar? && h.kind.Symlink? && !LinkAccepted(d, t, h.linkname) then Outcome(m, Some(InvalidSymlink))
    else
      var made := MkdirAllAt(m, At(cwd, Up(t)));
      if made.error.Some? then made
      else if format.Zip? || h.kind.Regular? then WriteAt(made.nodes, At(cwd, t), h.content)
      else if h.kind.Symlink? then SymlinkAt(made.nodes, At(cwd, t), h.linkname)
      else HardLinkAt(made.nodes, At(cwd, Target(d, h.linkname)), At(cwd, t))
  }

  ghost function PlaceAll(format: Format, cwd: Location, m: Nodes, hs: seq<Header>, d: Path): Outcome
    decreases hs
  {
    if hs == [] then Outcome(m, None)
    else
      var o := Place(format, cwd, m, hs[0], d);
      if o.error.Some? then o else PlaceAll(format, cwd, o.nodes, hs[1..], d)
  }

  type LinkMap = map<Location, string>

  /** None of these links is on the way of an entry: not at the place or above it, but that a link
      entry may find a link at its own place; nor above the source of a hard link. */
  ghost predicate EntryFree(links: LinkMap, format: Format, cwd: Location, h: Header, d: Path) {
    var t := Target(d, h.name);
    Accepts(d, t) && !(format.Tar? && h.kind.Other?) ==>
      if h.kind.Directory? then Free(links, At(cwd, t))
      else if format.Zip? || h.kind.Regular? then Free(links, At(cwd, Up(t))) && Free(links, At(cwd, t))
      else if h.kind.Symlink? then LinkAccepted(d, t, h.linkname) ==> Free(links, At(cwd, Up(t)))
      else Free(links, At(cwd, Up(t))) && Free(links, At(cwd, Up(Target(d, h.linkname))))
  }

  /** The links there are after an entry that succeeds. */
  ghost function LinksAfter(links: LinkMap, format: Format, cwd: Location, h: Header, d: Path): LinkMap {
    var t, source := Target(d, h.name), At(cwd, Target(d, h.linkname));
    if format.Zip? || !Accepts(d, t) then links
    else if h.kind.Symlink? then links[At(cwd, t) := h.linkname]
    else if h.kind.HardLink? && source in links then links[At(cwd, t) := links[source]]
    else links
  }

  /** No entry of the archive has a link on its way, of those there were and those that earlier
      entries make.  It is told from the archive and the links beforehand. */
  ghost predicate ArchiveFree(links: LinkMap, format: Format, cwd: Location, hs: seq<Header>, d: Path)
    decreases hs
  {
    hs != [] ==>
      EntryFree(links, format, cwd, hs[0], d) &&
      ArchiveFree(LinksAfter(links, format, cwd, hs[0], d), format, cwd, hs[1..], d)
  }

  /** Then an entry does what its names say. */
  lemma PerformIsPlace(format: Format, cwd: Location, m: Nodes, h: Header, d: Path)
    requires Canonical(d) && Sound(m, cwd) && EntryFree(Links(m), format, cwd, h, d)
    ensures Perform(format, cwd, m, h, d) == Place(format, cwd, m, h, d)
  {
    hide At, Target, Up, Accepts, LinkAccepted, MkdirAllIn, WriteIn, SymlinkIn, LinkIn, MkdirAllAt, WriteAt, SymlinkAt,
      HardLinkAt, Links, Free, Sound;
    var t, source := Target(d, h.name), Target(d, h.linkname);
    TargetCanonical(d, h.name);
    TargetCanonical(d, h.linkname);
    UpCanonical(t);
    if h.kind.Directory? {
      if Free(Links(m), At(cwd, t)) {
        MkdirPlain(m, cwd, t);
      }
    } else if Free(Links(m), At(cwd, Up(t))) {
      MkdirPlain(m, cwd, Up(t));
      var made := MkdirAllAt(m, At(cwd, Up(t))).nodes;
      AtNamesOnly(m, cwd, Up(t));
      MkdirKeepsSound(m, cwd, At(cwd, Up(t)));
      MkdirKeepsLinks(m, At(cwd, Up(t)));
      if Free(Links(m), At(cwd, t)) {
        WritePlain(made, cwd, t, h.content);
      }
      SymlinkPlain(made, cwd, t, h.linkname);
      if Free(Links(m), At(cwd, Up(source))) {
        LinkPlain(made, cwd, source, t);
      }
    }
  }

  lemma WriteKeepsSound(m: Nodes, cwd: Location, t: Path, content: Bytes)
    requires Canonical(t) && Sound(m, cwd)
    ensures Sound(WriteAt(m, At(cwd, t), content).nodes, cwd)
  {
    hide At, Sound;
    NamedOrDir(m, cwd, t);
    var loc := At(cwd, t);
    if WriteAt(m, loc, content).error.None? {
      if loc in m {
        RewriteKeepsSound(m, cwd, m[loc].id, content);
      } else {
        NodeKeepsSound(m, cwd, loc, FileNode(content, loc));
      }
    }
  }

  lemma SymlinkKeepsSound(m: Nodes, cwd: Location, t: Path, target: string)
    requires Canonical(t) && Sound(m, cwd)
    ensures Sound(SymlinkAt(m, At(cwd, t), target).nodes, cwd)
  {
    hide At, Sound;
    NamedOrDir(m, cwd, t);
    if SymlinkAt(m, At(cwd, t), target).error.None? {
      NodeKeepsSound(m, cwd, At(cwd, t), LinkNode(target));
    }
  }

  lemma HardLinkKeepsSound(m: Nodes, cwd: Location, source: Location, t: Path)
    requires Canonical(t) && Sound(m, cwd)
    ensures Sound(HardLinkAt(m, source, At(cwd, t)).nodes, cwd)
  {
    hide At, Sound;
    NamedOrDir(m, cwd, t);
    if HardLinkAt(m, source, At(cwd, t)).error.None? {
      NodeKeepsSound(m, cwd, At(cwd, t), m[source]);
    }
  }

  /** A location has a name, or it is a directory. */
  lemma NamedOrDir(m: Nodes, cwd: Location, t: Path)
    requires Canonical(t) && Sound(m, cwd)
    ensures var loc := At(cwd, t); IsDir(m, loc) || (loc != [] && IsName(loc[|loc| - 1]))
  {
    hide At, Sound;
    if EndsInName(t) {
      AtParent(cwd, t);
    } else {
      NoNameIsDir(m, cwd, t);
    }
  }

  lemma PlaceKeepsSound(format: Format, cwd: Location, m: Nodes, h: Header, d: Path)
    requires Canonical(d) && Sound(m, cwd)
    ensures Sound(Place(format, cwd, m, h, d).nodes, cwd)
  {
    hide At, Target, Up, Accepts, LinkAccepted, MkdirAllAt, WriteAt, SymlinkAt, HardLinkAt, Sound;
    var t := Target(d, h.name);
    TargetCanonical(d, h.name);
    UpCanonical(t);
    AtNamesOnly(m, cwd, t);
    AtNamesOnly(m, cwd, Up(t));
    MkdirKeepsSound(m, cwd, At(cwd, t));
    MkdirKeepsSound(m, cwd, At(cwd, Up(t)));
    var made := MkdirAllAt(m, At(cwd, Up(t))).nodes;
    WriteKeepsSound(made, cwd, t, h.content);
    SymlinkKeepsSound(made, cwd, t, h.linkname);
    HardLinkKeepsSound(made, cwd, At(cwd, Target(d, h.linkname)), t);
  }

  /** An entry that succeeds leaves exactly the links told. */
  lemma LinksTold(format: Format, cwd: Location, m: Nodes, h: Header, d: Path)
    requires Place(format, cwd, m, h, d).error.None?
    ensures Links(Place(format, cwd, m, h, d).nodes) == LinksAfter(Links(m), format, cwd, h, d)
  {
    hide At, Target, Up, Accepts, LinkAccepted, MkdirAllAt;
    var t := Target(d, h.name);
    var made := MkdirAllAt(m, At(cwd, Up(t))).nodes;
    MkdirKeepsLinks(m, At(cwd, t));
    MkdirKeepsLinks(m, At(cwd, Up(t)));
    LinksGrow(made, At(cwd, t), h.content, h.linkname, At(cwd, Target(d, h.linkname)));
  }

  lemma LinksGrow(m: Nodes, loc: Location, content: Bytes, target: string, source: Location)
    ensures WriteAt(m, loc, content).error.None? ==> Links(WriteAt(m, loc, content).nodes) == Links(m)
    ensures SymlinkAt(m, loc, target).error.None? ==> Links(SymlinkAt(m, loc, target).nodes) == Links(m)[loc := target]
    ensures HardLinkAt(m, source, loc).error.None? ==>
      Links(HardLinkAt(m, source, loc).nodes)
      == if source in Links(m) then Links(m)[loc := Links(m)[source]] else Links(m)
  {
  }

  /** Extraction without a link on the way of any entry is placing its entries. */
  lemma {:induction false} PerformAllIsPlaceAll(format: Format, cwd: Location, m: Nodes, hs: seq<Header>, d: Path)
    requires Canonical(d) && Sound(m, cwd) && ArchiveFree(Links(m), format, cwd, hs, d)
    ensures PerformAll(format, cwd, m, hs, d) == PlaceAll(format, cwd, m, hs, d)
    decreases hs
  {
    hide Perform, Place, Sound, Links, EntryFree, LinksAfter;
    if hs != [] {
      PerformIsPlace(format, cwd, m, hs[0], d);
      PlaceKeepsSound(format, cwd, m, hs[0], d);
      var o := Place(format, cwd, m, hs[0], d);
      if o.error.None? {
        LinksTold(format, cwd, m, hs[0], d);
        PerformAllIsPlaceAll(format, cwd, o.nodes, hs[1..], d);
      }
    }
  }

  // ----------------------------------------------------- placing that succeeds meets no link

  lemma DirFree(m: Nodes, cwd: Location, loc: Location)
    requires Sound(m, cwd) && IsDir(m, loc)
    ensures Free(Links(m), loc)
  {
    Ancestors(m, cwd, loc);
    assert forall k | k in Links(m) :: k in m && m[k] != DirNode && SoundAt(m, k);
  }

  lemma NotOpenable(m: Nodes, k: Location, loc: Location)
    requires k in m && k != [] && m[k] != DirNode
    ensures Covers(k, loc) ==> !Openable(m, loc)
  {
    if Covers(k, loc) {
      assert k == loc[..|k|];
    }
  }

  lemma OpenableFree(m: Nodes, cwd: Location, loc: Location)
    requires Sound(m, cwd)
    ensures Openable(m, loc) ==> Free(Links(m), loc)
  {
    if Openable(m, loc) {
      forall k | k in Links(m) ensures !Covers(k, loc) {
        assert SoundAt(m, k) && m[k] != DirNode;
        NotOpenable(m, k, loc);
      }
    }
  }

  lemma NodeFree(m: Nodes, cwd: Location, loc: Location)
    requires Sound(m, cwd)
    ensures loc != [] && IsDir(m, Parent(loc)) && loc !in Links(m) ==> Free(Links(m), loc)
  {
    if loc != [] && IsDir(m, Parent(loc)) && loc !in Links(m) {
      DirFree(m, cwd, Parent(loc));
      forall k | k in Links(m) ensures !Covers(k, loc) {
        OnItsWay(k, loc);
      }
    }
  }

  lemma OnItsWay(k: Location, loc: Location)
    ensures Covers(k, loc) && k != loc ==> Covers(k, Parent(loc))
  {
    if Covers(k, loc) && k != loc {
      assert |k| < |loc|;
      assert Parent(loc)[..|k|] == loc[..|k|];
    }
  }

  lemma WriteFree(m: Nodes, cwd: Location, loc: Location, content: Bytes)
    requires Sound(m, cwd)
    ensures WriteAt(m, loc, content).error.None? ==> Free(Links(m), loc)
  {
    NodeFree(m, cwd, loc);
  }

  lemma SourceFree(m: Nodes, cwd: Location, source: Path, loc: Location)
    requires Sound(m, cwd) && Canonical(source)
    ensures HardLinkAt(m, At(cwd, source), loc).error.None? ==> Free(Links(m), At(cwd, Up(source)))
  {
    hide At, Up, Free, Links;
    var from := At(cwd, source);
    if HardLinkAt(m, from, loc).error.None? {
      assert SoundAt(m, from);
      if EndsInName(source) {
        AtParent(cwd, source);
        DirFree(m, cwd, Parent(from));
      } else {
        NoNameIsDir(m, cwd, source);
      }
    }
  }

  /** An entry that does not fail in the file system has no link on its way. */
  lemma PlacedIsFree(format: Format, cwd: Location, m: Nodes, h: Header, d: Path)
    requires Canonical(d) && Sound(m, cwd)
    ensures Place(format, cwd, m, h, d).error != Some(FileError) ==> EntryFree(Links(m), format, cwd, h, d)
  {
    hide At, Target, Up, Accepts, LinkAccepted, WriteAt, SymlinkAt, HardLinkAt, Links, Free, Sound, Openable;
    var t, source := Target(d, h.name), Target(d, h.linkname);
    TargetCanonical(d, h.name);
    TargetCanonical(d, h.linkname);
    UpCanonical(t);
    OpenableFree(m, cwd, At(cwd, t));
    OpenableFree(m, cwd, At(cwd, Up(t)));
    var made := MkdirAllAt(m, At(cwd, Up(t))).nodes;
    AtNamesOnly(m, cwd, Up(t));
    MkdirKeepsSound(m, cwd, At(cwd, Up(t)));
    MkdirKeepsLinks(m, At(cwd, Up(t)));
    WriteFree(made, cwd, At(cwd, t), h.content);
    SourceFree(made, cwd, source, At(cwd, t));
    FailsInFiles(made, At(cwd, t), h, At(cwd, source));
  }

  lemma FailsInFiles(m: Nodes, loc: Location, h: Header, source: Location)
    ensures WriteAt(m, loc, h.content).error in {None, Some(FileError)}
    ensures SymlinkAt(m, loc, h.linkname).error in {None, Some(FileError)}
    ensures HardLinkAt(m, source, loc).error in {None, Some(FileError)}
  {
  }

  /** When placing the entries does not fail in the file system, extraction does the same. */
  lemma {:induction false} PlaceAllIsPerformAll(format: Format, cwd: Location, m: Nodes, hs: seq<Header>, d: Path)
    requires Canonical(d) && Sound(m, cwd)
    ensures var o := PlaceAll(format, cwd, m, hs, d);
            o.error != Some(FileError) ==> PerformAll(format, cwd, m, hs, d) == o
    decreases hs
  {
    hide Perform, Place, Sound, Links, EntryFree;
    if hs != [] {
      PlacedIsFree(format, cwd, m, hs[0], d);
      var o := Place(format, cwd, m, hs[0], d);
      if o.error != Some(FileError) {
        PerformIsPlace(format, cwd, m, hs[0], d);
        PlaceKeepsSound(format, cwd, m, hs[0], d);
        PlaceAllIsPerformAll(format, cwd, o.nodes, hs[1..], d);
      }
    }
  }

  // -------------------------------------------------------------------------- whole extractions

  /** The file system is sound, and no entry of the archive has a link on its way. */
  ghost predicate MeetsNoLink(format: Format, cwd: Location, m: Nodes, hs: seq<Header>, destDir: string) {
    Sound(m, cwd) && ArchiveFree(Links(m), format, cwd, hs, Parse(destDir))
  }

  lemma CleanIsRender(s: string)
    ensures Clean(s) == Render(Parse(s))
  {
  }

  /** Then extraction is placing the entries, wherever it stops. */
  lemma ExtractAllIsPlaceAll(format: Format, cwd: Location, m: Nodes, hs: seq<Header>, destDir: string)
    requires MeetsNoLink(format, cwd, m, hs, destDir)
    ensures ExtractAll(format, cwd, m, hs, Clean(destDir)) == PlaceAll(format, cwd, m, hs, Parse(destDir))
  {
    hide Parse, Render, ExtractAll, PlaceAll, PerformAll, Sound, ArchiveFree, Links;
    ParseCanonical(destDir);
    CleanIsRender(destDir);
    ExtractAllIsPerformAll(format, cwd, m, hs, Parse(destDir));
    PerformAllIsPlaceAll(format, cwd, m, hs, Parse(destDir));
  }

  /** So it is when placing them does not fail in the file system. */
  lemma PlacingIsExtracting(format: Format, cwd: Location, m: Nodes, hs: seq<Header>, destDir: string)
    requires Sound(m, cwd)
    ensures var o := PlaceAll(format, cwd, m, hs, Parse(destDir));
            o.error != Some(FileError) ==> ExtractAll(format, cwd, m, hs, Clean(destDir)) == o
  {
    hide Parse, Render, ExtractAll, PlaceAll, PerformAll, Sound;
    ParseCanonical(destDir);
    CleanIsRender(destDir);
    ExtractAllIsPerformAll(format, cwd, m, hs, Parse(destDir));
    PlaceAllIsPerformAll(format, cwd, m, hs, Parse(destDir));
  }
}
