/** Archives as lists of entries: extraction of tar and zip archives step by step into a file
    system, and the walk that writes them. */
module Archive {
  import opened Wrappers
  import opened Strings
  import opened Paths
  import opened Files

  datatype Kind = Directory | Regular | Symlink | HardLink | Other

  datatype Header = Header(name: string, kind: Kind, linkname: string, content: Bytes)

  /** A directory tree as the walk meets it: children in the order of their names. */
  datatype Tree = File(content: Bytes) | Link(target: string) | Dir(children: Forest)

  datatype Forest = Nil | Cons(name: string, tree: Tree, rest: Forest)

  // ------------------------------------------------------------------------- extraction

  /** validateSymlink: a relative target that, seen from the link's directory, passes the
      prefix test. */
  predicate ValidSymlink(linkname: string, dest: string, target: string) {
    !IsAbs(linkname) && PassesPrefixTest(Clean(JoinPath(DirPath(target), linkname)), dest)
  }

  /** extractTarFile on values. */
  function ExtractTar(cwd: Location, m: Nodes, h: Header, dest: string): Outcome {
    var target := JoinPath(dest, Clean(h.name));
    if !PassesPrefixTest(target, dest) then Outcome(m, Some(Slip))
    else if h.kind.Directory? then MkdirAllIn(m, cwd, Parse(target))
    else if h.kind.Other? then Outcome(m, None)
    else if h.kind.Symlink? && !ValidSymlink(h.linkname, dest, target) then Outcome(m, Some(InvalidSymlink))
    else
      var made := MkdirAllIn(m, cwd, Parse(DirPath(target)));
      if made.error.Some? then made
      else match h.kind
        case Regular => WriteIn(made.nodes, cwd, Parse(target), h.content)
        case Symlink => SymlinkIn(made.nodes, cwd, Parse(target), h.linkname)
        case _ => LinkIn(made.nodes, cwd, Parse(JoinPath(dest, Clean(h.linkname))), Parse(target))
  }

  /** extractZipFile on values. */
  function ExtractZip(cwd: Location, m: Nodes, h: Header, dest: string): Outcome {
    var target := JoinPath(dest, Clean(h.name));
    if !PassesPrefixTest(target, dest) then Outcome(m, Some(Slip))
    else if h.kind.Directory? then MkdirAllIn(m, cwd, Parse(target))
    else
      var made := MkdirAllIn(m, cwd, Parse(DirPath(target)));
      if made.error.Some? then made else WriteIn(made.nodes, cwd, Parse(target), h.content)
  }

  datatype Format = Tar | Zip

  function Extract(format: Format, cwd: Location, m: Nodes, h: Header, dest: string): Outcome {
    if format.Tar? then ExtractTar(cwd, m, h, dest) else ExtractZip(cwd, m, h, dest)
  }

  /** Entries are extracted in order until one fails. */
  function ExtractAll(format: Format, cwd: Location, m: Nodes, hs: seq<Header>, dest: string): Outcome
    decreases hs
  {
    if hs == [] then Outcome(m, None)
    else
      var o := Extract(format, cwd, m, hs[0], dest);
      if o.error.Some? then o else ExtractAll(format, cwd, o.nodes, hs[1..], dest)
  }

  method ExtractTarFile(fs: FileSystem, header: Header, destDir: string) returns (error: Option<Error>)
    modifies fs
    ensures Outcome(fs.nodes, error) == ExtractTar(fs.cwd, old(fs.nodes), header, destDir)
  {
    hide JoinPath, Clean, DirPath, Parse, MkdirAllIn, WriteIn, SymlinkIn, LinkIn, ValidSymlink;
    var targetPath := JoinPath(destDir, Clean(header.name));
    if !HasPrefix(targetPath, destDir + "/") && targetPath != destDir {
      return Some(Slip);
    }
    match header.kind {
      case Directory =>
        error := fs.MkdirAll(targetPath);
      case Regular =>
        error := fs.MkdirAll(DirPath(targetPath));
        if error.None? {
          error := fs.WriteFile(targetPath, header.content);
        }
      case Symlink =>
        if !ValidSymlink(header.linkname, destDir, targetPath) {
          return Some(InvalidSymlink);
        }
        error := fs.MkdirAll(DirPath(targetPath));
        if error.None? {
          error := fs.Symlink(header.linkname, targetPath);
        }
      case HardLink =>
        error := fs.MkdirAll(DirPath(targetPath));
        if error.None? {
          error := fs.Link(JoinPath(destDir, Clean(header.linkname)), targetPath);
        }
      case Other =>
        error := None;
    }
  }

  method ExtractZipFile(fs: FileSystem, header: Header, destDir: string) returns (error: Option<Error>)
    modifies fs
    ensures Outcome(fs.nodes, error) == ExtractZip(fs.cwd, old(fs.nodes), header, destDir)
  {
    hide JoinPath, Clean, DirPath, Parse, MkdirAllIn, WriteIn;
    var fPath := JoinPath(destDir, Clean(header.name));
    if !HasPrefix(fPath, destDir + "/") && fPath != destDir {
      return Some(Slip);
    }
    if header.kind.Directory? {
      error := fs.MkdirAll(fPath);
    } else {
      error := fs.MkdirAll(DirPath(fPath));
      if error.None? {
        error := fs.WriteFile(fPath, header.content);
      }
    }
  }

  /** UnTar and UnZip: clean the destination, then extract entry after entry. */
  method Unpack(fs: FileSystem, format: Format, archive: seq<Header>, destDir: string) returns (error: Option<Error>)
    modifies fs
    ensures Outcome(fs.nodes, error) == ExtractAll(format, fs.cwd, old(fs.nodes), archive, Clean(destDir))
  {
    var dest := Clean(destDir);
    ghost var all := ExtractAll(format, fs.cwd, fs.nodes, archive, dest);
    for i := 0 to |archive|
      invariant all == ExtractAll(format, fs.cwd, fs.nodes, archive[i..], dest)
    {
      assert archive[i..][1..] == archive[i + 1..];
      match format {
        case Tar => error := ExtractTarFile(fs, archive[i], dest);
        case Zip => error := ExtractZipFile(fs, archive[i], dest);
      }
      if error.Some? {
        return;
      }
    }
    assert archive[|archive|..] == [];
    return None;
  }

  // ---------------------------------------------------------------------------- archiving

  function HeaderOf(name: string, t: Tree): Header {
    match t
    case File(content) => Header(name, Regular, "", content)
    case Link(target) => Header(name, Symlink, target, [])
    case Dir(_) => Header(name, Directory, "", [])
  }

  /** A zip writer skips directories and stores nothing of a link's target. */
  function EntriesFor(format: Format, name: string, t: Tree): seq<Header> {
    if format.Tar? then [HeaderOf(name, t)]
    else if t.Dir? then []
    else [HeaderOf(name, t).(linkname := "")]
  }

  /** The entries of a walk over `t`, met at `path`; None when a relative name cannot be made. */
  function Walk(format: Format, path: string, baseDir: string, t: Tree): Option<seq<Header>>
    decreases t, 1
  {
    var rel := RelPath(baseDir, path);
    if rel.None? && !(format.Zip? && t.Dir?) then None
    else
      var own := if rel.None? then [] else EntriesFor(format, rel.value, t);
      if !t.Dir? then Some(own)
      else
        var below := WalkForest(format, path, baseDir, t.children);
        if below.None? then None else Some(own + below.value)
  }

  function WalkForest(format: Format, path: string, baseDir: string, f: Forest): Option<seq<Header>>
    decreases f, 0
  {
    if f.Nil? then Some([])
    else
      var first := Walk(format, JoinPath(path, f.name), baseDir, f.tree);
      if first.None? then None
      else
        var others := WalkForest(format, path, baseDir, f.rest);
        if others.None? then None else Some(first.value + others.value)
  }

  /** The open archive file entries are appended to. */
  class Writer {
    var entries: seq<Header>

    constructor ()
      ensures entries == []
    {
      entries := [];
    }

    /** The visit of one path; appends entry after entry, stops at the first failure. */
    method Add(format: Format, path: string, baseDir: string, t: Tree) returns (ok: bool)
      modifies this
      ensures var w := Walk(format, path, baseDir, t);
              ok == w.Some? && (ok ==> entries == old(entries) + w.value)
      decreases t, 1
    {
      hide JoinPath, RelPath, HeaderOf;
      if format.Zip? && t.Dir? {
        ok := AddForest(format, path, baseDir, t.children);
        return;
      }
      var rel := RelPath(baseDir, path);
      if rel.None? {
        return false;
      }
      var header := HeaderOf(rel.value, t);
      entries := entries + [if format.Zip? then header.(linkname := "") else header];
      if t.Dir? {
        ok := AddForest(format, path, baseDir, t.children);
      } else {
        ok := true;
      }
    }

    method AddForest(format: Format, path: string, baseDir: string, f: Forest) returns (ok: bool)
      modifies this
      ensures var w := WalkForest(format, path, baseDir, f);
              ok == w.Some? && (ok ==> entries == old(entries) + w.value)
      decreases f, 0
    {
      hide JoinPath, RelPath, HeaderOf;
      if f.Nil? {
        return true;
      }
      ok := Add(format, JoinPath(path, f.name), baseDir, f.tree);
      if ok {
        ok := AddForest(format, path, baseDir, f.rest);
      }
    }
  }

  /** Tar and Zip: walk the source, naming entries relative to its directory. */
  method Pack(format: Format, sourcePath: string, source: Tree) returns (writer: Writer, ok: bool)
    ensures fresh(writer)
    ensures var w := Walk(format, sourcePath, DirPath(sourcePath), source);
            ok == w.Some? && (ok ==> writer.entries == w.value)
  {
    writer := new Writer();
    ok := writer.Add(format, sourcePath, DirPath(sourcePath), source);
  }
}
