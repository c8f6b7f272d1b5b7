/** Where the archive of a tree cannot be extracted: destinations that accept only themselves, and
    sources that lead up. */
module Refusals {
  import opened Wrappers
  import opened Strings
  import opened Paths
  import opened Files
  import opened LinkFree
  import opened Archive
  import opened Extraction
  import opened RoundTrip

  // ---------------------------------------------------------------------- the destinations . and /

  /** A tree without files and links. */
  predicate NoLeaf(t: Tree) {
    t.Dir? && NoLeafForest(t.children)
  }

  predicate NoLeafForest(f: Forest) {
    f.Cons? ==> NoLeaf(f.tree) && NoLeafForest(f.rest)
  }

  ghost predicate NamedBelow(h: Header) {
    exists rel :: Steps(rel) && EndsNamed(rel) && h.name == NameOf(rel)
  }

  /** The entries of a zip archive are there for leaves, which have names. */
  lemma {:induction false} ZipEntriesBelow(rel: seq<string>, t: Tree)
    requires Steps(rel) && WellNamed(t) && (!EndsNamed(rel) ==> t.Dir?)
    ensures forall h | h in Entries(Zip, rel, t) :: NamedBelow(h)
    ensures Entries(Zip, rel, t) == [] <==> NoLeaf(t)
    decreases t, 1
  {
    hide NameOf, Steps, EndsNamed;
    if t.Dir? {
      ZipForestBelow(rel, t.children);
    }
  }

  lemma {:induction false} ZipForestBelow(rel: seq<string>, f: Forest)
    requires Steps(rel) && WellNamedForest(f)
    ensures forall h | h in ForestEntries(Zip, rel, f) :: NamedBelow(h)
    ensures ForestEntries(Zip, rel, f) == [] <==> NoLeafForest(f)
    decreases f, 0
  {
    hide NameOf, Steps, EndsNamed, NamedBelow;
    if f.Cons? {
      ChildSteps(Path(false, []), rel, f.name);
      ZipEntriesBelow(rel + [f.name], f.tree);
      ZipForestBelow(rel, f.rest);
    }
  }

  lemma TargetEndsNamed(d: Path, rel: seq<string>)
    requires Steps(rel) && EndsNamed(rel)
    ensures Target(d, NameOf(rel)).comps != []
  {
    hide Parse, NameOf, Resolve;
    var front, last := rel[..|rel| - 1], rel[|rel| - 1];
    NameIsParsed(rel);
    assert rel == front + [last] && IsName(last);
    ResolveAppend(d.rooted, d.comps, front, [last]);
    ResolveNames(d.rooted, Resolve(d.rooted, d.comps, front), [last]);
  }

  /** Below "." and "/" every name is refused. */
  lemma RootRefuses(format: Format, cwd: Location, m: Nodes, h: Header, d: Path)
    requires d.comps == [] && NamedBelow(h)
    ensures Place(format, cwd, m, h, d) == Outcome(m, Some(Slip))
  {
    hide At, Target, Up, NameOf, Steps, EndsNamed;
    var rel :| Steps(rel) && EndsNamed(rel) && h.name == NameOf(rel);
    TargetEndsNamed(d, rel);
  }

  /** The entry of the source itself is for the destination itself: it has no name, or it is one step
      up from "/". */
  ghost predicate ForItself(d: Path, rel: seq<string>) {
    rel == [] || (rel == [".."] && d.rooted)
  }

  /** Onto "." and "/" only an empty directory without a name of its own can be extracted. */
  lemma TarOntoRoot(cwd: Location, m: Nodes, sourcePath: string, t: Tree, destDir: string)
    requires SourceOk(sourcePath, t) && Parse(destDir).comps == [] && Sound(m, cwd)
    ensures var packed := Walk(Tar, sourcePath, DirPath(sourcePath), t);
            packed.Some? &&
            ExtractAll(Tar, cwd, m, packed.value, Clean(destDir)) ==
            Outcome(m, if ForItself(Parse(destDir), BaseOf(sourcePath)) && t == Dir(Nil) then None else Some(Slip))
  {
    hide Parse, Clean, DirPath, BaseOf, Render, Walk, Extends, Sound, Entries, Steps, PlaceAll, ForItself;
    var d, rel := Parse(destDir), BaseOf(sourcePath);
    SourceLeads(sourcePath);
    ParseCanonical(destDir);
    WalkEntries(Tar, sourcePath, DirPath(sourcePath), rel, t);
    BaseShape(sourcePath);
    PlaceOntoRoot(cwd, m, d, rel, t);
    PlacingIsExtracting(Tar, cwd, m, Entries(Tar, rel, t), destDir);
  }

  lemma BaseShape(s: string)
    ensures BaseOf(s) == [] || BaseOf(s) == [".."] || EndsNamed(BaseOf(s))
  {
    hide Parse, DirPath;
  }

  lemma FirstEntry(rel: seq<string>, t: Tree)
    ensures Entries(Tar, rel, t) != [] && Entries(Tar, rel, t)[0] == HeaderOf(NameOf(rel), t)
  {
    hide NameOf;
  }

  lemma PlaceOntoRoot(cwd: Location, m: Nodes, d: Path, rel: seq<string>, t: Tree)
    requires Canonical(d) && d.comps == [] && Sound(m, cwd) && Steps(rel) && WellNamed(t)
    requires rel == [] || rel == [".."] || EndsNamed(rel)
    requires !EndsNamed(rel) ==> t.Dir?
    ensures PlaceAll(Tar, cwd, m, Entries(Tar, rel, t), d) ==
      Outcome(m, if ForItself(d, rel) && t == Dir(Nil) then None else Some(Slip))
  {
    hide At, NameOf, Place, Sound, Steps, Target, HeaderOf;
    var own := HeaderOf(NameOf(rel), t);
    FirstEntry(rel, t);
    assert own.name == NameOf(rel) by {
      HeaderName(NameOf(rel), t);
    }
    if EndsNamed(rel) {
      assert NamedBelow(own);
      RootRefuses(Tar, cwd, m, own, d);
    } else {
      PlaceItself(cwd, m, d, rel, t);
      var below := ForestEntries(Tar, rel, t.children);
      PlaceFirst(Tar, cwd, m, own, below, d);
      assert Entries(Tar, rel, t) == [own] + below;
      if t.children.Cons? {
        var child := rel + [t.children.name];
        ChildSteps(Path(false, []), rel, t.children.name);
        FirstEntry(child, t.children.tree);
        HeaderName(NameOf(child), t.children.tree);
        assert NamedBelow(HeaderOf(NameOf(child), t.children.tree));
        RootRefuses(Tar, cwd, m, HeaderOf(NameOf(child), t.children.tree), d);
      }
    }
  }

  lemma PlaceItself(cwd: Location, m: Nodes, d: Path, rel: seq<string>, t: Tree)
    requires Canonical(d) && d.comps == [] && Sound(m, cwd) && t.Dir? && (rel == [] || rel == [".."])
    ensures Place(Tar, cwd, m, HeaderOf(NameOf(rel), t), d) ==
      Outcome(m, if ForItself(d, rel) then None else Some(Slip))
  {
    hide Parse, NameOf, SoundAt;
    NameIsParsed(rel);
    assert [".."][1..] == [];
    DirIsMade(m, cwd, Start(cwd, d));
  }

  /** Onto "." and "/" a zip archive can be extracted only when there is nothing in it. */
  lemma ZipOntoRoot(cwd: Location, m: Nodes, sourcePath: string, t: Tree, destDir: string)
    requires SourceOk(sourcePath, t) && Parse(destDir).comps == [] && Sound(m, cwd)
    ensures var packed := Walk(Zip, sourcePath, DirPath(sourcePath), t);
            packed.Some? &&
            ExtractAll(Zip, cwd, m, packed.value, Clean(destDir)) == Outcome(m, if NoLeaf(t) then None else Some(Slip))
  {
    hide Place, Parse, Clean, DirPath, BaseOf, Render, Walk, Extends, NamedBelow, Sound, Steps, EndsNamed;
    var d, rel := Parse(destDir), BaseOf(sourcePath);
    SourceLeads(sourcePath);
    WalkEntries(Zip, sourcePath, DirPath(sourcePath), rel, t);
    var hs := Entries(Zip, rel, t);
    ZipEntriesBelow(rel, t);
    if hs != [] {
      assert hs[0] in hs;
      RootRefuses(Zip, cwd, m, hs[0], d);
    }
    PlacingIsExtracting(Zip, cwd, m, hs, destDir);
  }

  // ------------------------------------------------------------------------ sources that lead up

  /** A path from which the names of the walk can be told: beside the common part, the base has
      no "..". */
  ghost predicate Tellable(path: string, baseDir: string) {
    var b, p := Parse(baseDir), Parse(path);
    path != "" && b.rooted == p.rooted && TellableFrom(b.comps, p.comps)
  }

  predicate TellableFrom(b: seq<string>, p: seq<string>) {
    var k := CommonLength(b, p);
    k < |b| ==> b[k] != ".."
  }

  lemma {:induction false} CommonGrows(a: seq<string>, b: seq<string>, c: string)
    ensures CommonLength(a, b) <= CommonLength(a, b + [c]) <= CommonLength(a, b) + 1
    decreases |a|
  {
    if a != [] && b != [] && a[0] == b[0] {
      assert (b + [c])[0] == b[0] && (b + [c])[1..] == b[1..] + [c];
      CommonGrows(a[1..], b[1..], c);
    } else if b == [] {
      assert CommonLength(a, [c]) <= 1 by {
        assert [c][1..] == [];
      }
      assert b + [c] == [c];
    } else {
      assert (b + [c])[0] == b[0];
    }
  }

  lemma ChildTellable(path: string, baseDir: string, name: string)
    requires Tellable(path, baseDir) && IsName(name)
    ensures Tellable(JoinPath(path, name), baseDir)
  {
    hide Parse;
    var b, p := Parse(baseDir), Parse(path);
    ParseChild(path, name);
    ParseCanonical(baseDir);
    CommonGrows(b.comps, p.comps, name);
  }

  lemma {:induction false} WalkTells(path: string, baseDir: string, t: Tree)
    requires Tellable(path, baseDir) && WellNamed(t)
    ensures var w := Walk(Tar, path, baseDir, t);
            w.Some? && w.value != [] && w.value[0] == HeaderOf(RelPath(baseDir, path).value, t)
    decreases t, 1
  {
    hide Parse, JoinPath, Render, HeaderOf;
    if t.Dir? {
      ForestTells(path, baseDir, t.children);
    }
  }

  lemma {:induction false} ForestTells(path: string, baseDir: string, f: Forest)
    requires Tellable(path, baseDir) && WellNamedForest(f)
    ensures WalkForest(Tar, path, baseDir, f).Some?
    decreases f, 0
  {
    hide Tellable;
    if f.Cons? {
      ChildTellable(path, baseDir, f.name);
      WalkTells(JoinPath(path, f.name), baseDir, f.tree);
      ForestTells(path, baseDir, f.rest);
    }
  }

  lemma {:induction false} CommonWithPrefix(a: seq<string>, rest: seq<string>)
    ensures CommonLength(a + rest, a) == |a|
  {
    if a != [] {
      assert (a + rest)[1..] == a[1..] + rest;
      CommonWithPrefix(a[1..], rest);
    }
  }

  /** A source that drops a name of its directory, or leads above a directory without one. */
  predicate LeadsUp(s: string) {
    LastElement(s) == ".." && Parse(DirPath(s)) != Path(true, [])
  }

  lemma LeadsUpParse(s: string)
    requires LeadsUp(s)
    ensures var b, p := Parse(DirPath(s)), Parse(s);
            && Canonical(b) && p.rooted == b.rooted
            && (if EndsInName(b) then b.comps == p.comps + [b.comps[|b.comps| - 1]] else p.comps == b.comps + [".."])
  {
    ExtendsExactly(s);
    var b, p := Parse(DirPath(s)), Parse(s);
    hide Parse, DirPath;
    if EndsInName(b) {
      assert p.comps == Up(b).comps;
    }
  }

  /** One step up from what a base has beyond a path, or the path's own step up. */
  lemma OneUp(b: seq<string>, p: seq<string>)
    requires (exists last :: last != ".." && b == p + [last]) || p == b + [".."]
    ensures var k := CommonLength(b, p);
            TellableFrom(b, p) && seq(|b| - k, _ => "..") + p[k..] == [".."]
  {
    if p == b + [".."] {
      CommonPrefix(b, [".."]);
      assert seq(0, _ => "..") + p[|b|..] == [".."];
    } else {
      CommonWithPrefix(p, [b[|b| - 1]]);
      assert b == p + [b[|b| - 1]];
      assert seq(1, _ => "..") + p[|p|..] == [".."];
    }
  }

  /** Such a source has the name "..". */
  lemma UpIsNamedUp(sourcePath: string)
    requires sourcePath != "" && LeadsUp(sourcePath)
    ensures Tellable(sourcePath, DirPath(sourcePath)) && RelPath(DirPath(sourcePath), sourcePath) == Some("..")
  {
    LeadsUpParse(sourcePath);
    hide Parse, DirPath, LeadsUp, CommonLength;
    OneUp(Parse(DirPath(sourcePath)).comps, Parse(sourcePath).comps);
  }

  /** The tar archive of a source that leads up is refused at once by every destination that ends in
      a name, and by ".". */
  lemma UpRefused(cwd: Location, m: Nodes, sourcePath: string, t: Tree, destDir: string)
    requires sourcePath != "" && LeadsUp(sourcePath) && t.Dir? && WellNamed(t)
    requires EndsInName(Parse(destDir)) || Parse(destDir) == Path(false, [])
    ensures var packed := Walk(Tar, sourcePath, DirPath(sourcePath), t);
            packed.Some? && ExtractAll(Tar, cwd, m, packed.value, Clean(destDir)) == Outcome(m, Some(Slip))
  {
    hide Parse, Clean, DirPath, Render, Walk, LeadsUp, Perform, Target;
    var d := Parse(destDir);
    UpIsNamedUp(sourcePath);
    WalkTells(sourcePath, DirPath(sourcePath), t);
    ParseCanonical(destDir);
    CleanIsRender(destDir);
    var hs := Walk(Tar, sourcePath, DirPath(sourcePath), t).value;
    ExtractAllIsPerformAll(Tar, cwd, m, hs, d);
    UpNotAccepted(cwd, m, hs[0], d);
  }

  lemma UpNotAccepted(cwd: Location, m: Nodes, h: Header, d: Path)
    requires Canonical(d) && h.name == ".." && (EndsInName(d) || d == Path(false, []))
    ensures Perform(Tar, cwd, m, h, d) == Outcome(m, Some(Slip))
  {
    hide Target, MkdirAllIn;
    PlainTarget(d, "..");
    assert !Accepts(d, Target(d, ".."));
  }
}
