/** Where no symbolic link is on the way, paths lead where their names say, and the operations of
    the file system do what they do at that location. */
module LinkFree {
  import opened Wrappers
  import opened Strings
  import opened Paths
  import opened Files

  // ------------------------------------------------------------------------ paths and locations

  lemma {:induction false} ResolveNames(rooted: bool, done: seq<string>, names: seq<string>)
    requires forall c | c in names :: IsName(c)
    ensures Resolve(rooted, done, names) == done + names
    decreases |names|
  {
    if names != [] {
      assert IsName(names[0]) && Push(rooted, done, names[0]) == done + [names[0]];
      ResolveNames(rooted, done + [names[0]], names[1..]);
      assert done + [names[0]] + names[1..] == done + names;
    } else {
      assert done + names == done;
    }
  }

  /** Names below a path are names below its location. */
  lemma AtBelow(cwd: Location, d: Path, rel: seq<string>)
    requires forall c | c in rel :: IsName(c)
    ensures At(cwd, Path(d.rooted, d.comps + rel)) == At(cwd, d) + rel
  {
    ResolveAppend(true, Start(cwd, d), d.comps, rel);
    ResolveNames(true, At(cwd, d), rel);
  }

  lemma UpAndLast(t: Path)
    requires t.comps != []
    ensures t == Path(Up(t).rooted, Up(t).comps + [t.comps[|t.comps| - 1]])
  {
  }

  /** The location of a path's directory is the parent of its location. */
  lemma AtParent(cwd: Location, t: Path)
    requires t.comps != [] && IsName(t.comps[|t.comps| - 1])
    ensures At(cwd, t) == At(cwd, Up(t)) + [t.comps[|t.comps| - 1]]
    ensures At(cwd, t) != [] && At(cwd, Up(t)) == Parent(At(cwd, t))
  {
    hide At, Up;
    var last := t.comps[|t.comps| - 1];
    UpAndLast(t);
    AtBelow(cwd, Up(t), [last]);
  }

  // --------------------------------------------------------------------------- sound file systems

  /** Every node has an ordinary name and lies in a directory; so does the working directory; and the
      names of a file show the same file. */
  ghost predicate Sound(m: Nodes, cwd: Location) {
    IsDir(m, cwd) && forall l | l in m :: SoundAt(m, l)
  }

  ghost predicate SoundAt(m: Nodes, l: Location) {
    && l in m && l != [] && IsName(l[|l| - 1]) && IsDir(m, Parent(l))
    && (m[l].FileNode? ==> m[l].id in m && m[m[l].id] == m[l])
  }

  ghost predicate NamesOnly(l: Location) {
    forall c | c in l :: IsName(c)
  }

  /** Everything above a node is a directory, and has a name. */
  lemma {:induction false} Ancestors(m: Nodes, cwd: Location, l: Location)
    requires Sound(m, cwd) && (l == [] || l in m)
    ensures forall k | Covers(k, l) && k != l :: IsDir(m, k)
    ensures NamesOnly(l)
    decreases |l|
  {
    if l != [] {
      assert SoundAt(m, l);
      Ancestors(m, cwd, Parent(l));
      assert l == Parent(l) + [l[|l| - 1]];
      forall k | Covers(k, l) && k != l ensures IsDir(m, k) {
        assert Parent(l)[..|k|] == l[..|k|];
      }
    }
  }

  /** The links of a file system and their targets. */
  function Links(m: Nodes): map<Location, string> {
    map l | l in m && m[l].LinkNode? :: m[l].target
  }

  /** None of these links is at the location, or on the way to it. */
  ghost predicate Free(links: map<Location, string>, loc: Location) {
    forall k | k in links :: !Covers(k, loc)
  }

  /** Where a location is found when no link is on the way. */
  function PlainSpot(m: Nodes, loc: Location): Spot {
    if loc == [] || loc in m then Present(loc)
    else if IsDir(m, Parent(loc)) then Absent(loc)
    else Nowhere
  }

  /** Below something missing, or a file, there is nothing. */
  lemma NothingBelowIt(m: Nodes, cwd: Location, next: Location, loc: Location)
    requires Sound(m, cwd) && Covers(next, loc) && next != loc && !IsDir(m, next)
    ensures PlainSpot(m, loc) == Nowhere
  {
    if loc in m {
      Ancestors(m, cwd, loc);
      assert false;
    }
    var up := Parent(loc);
    assert up[..|next|] == loc[..|next|];
    if up != next && up in m {
      Ancestors(m, cwd, up);
    }
  }

  lemma NotALink(m: Nodes, k: Location, loc: Location)
    requires Free(Links(m), loc) && Covers(k, loc) && k in m
    ensures !m[k].LinkNode?
  {
    assert m[k].LinkNode? ==> k in Links(m);
  }

  /** One step to something that is no link. */
  lemma FollowStep(m: Nodes, dir: Location, names: seq<string>, links: nat)
    requires names != [] && IsName(names[0])
    requires dir + [names[0]] in m ==> !m[dir + [names[0]]].LinkNode?
    ensures var next := dir + [names[0]];
            Follow(m, dir, names, links) ==
            if next !in m then (if |names| == 1 then Absent(next) else Nowhere)
            else if m[next] == DirNode then Follow(m, next, names[1..], links)
            else if |names| == 1 then Present(next) else Nowhere
  {
  }

  lemma {:induction false} FollowNames(m: Nodes, cwd: Location, dir: Location, names: seq<string>, links: nat)
    requires Sound(m, cwd) && IsDir(m, dir) && NamesOnly(names) && Free(Links(m), dir + names)
    ensures Follow(m, dir, names, links) == PlainSpot(m, dir + names)
    decreases |names|
  {
    hide Follow, SoundAt;
    var loc := dir + names;
    if names == [] {
      assert loc == dir;
      FollowNothing(m, dir, links);
    } else {
      var next := dir + [names[0]];
      assert names[0] in names;
      assert loc[..|next|] == next;
      assert Covers(next, loc);
      if next in m {
        NotALink(m, next, loc);
      }
      FollowStep(m, dir, names, links);
      if next in m && m[next] == DirNode {
        assert next + names[1..] == loc;
        FollowNames(m, cwd, next, names[1..], links);
      } else if |names| > 1 {
        NothingBelowIt(m, cwd, next, loc);
      } else {
        assert loc == next && Parent(next) == dir;
      }
    }
  }

  lemma FollowNothing(m: Nodes, dir: Location, links: nat)
    ensures Follow(m, dir, [], links) == Present(dir)
  {
  }

  /** One step up from a directory. */
  lemma FollowUpStep(m: Nodes, cwd: Location, dir: Location, rest: seq<string>, links: nat)
    requires Sound(m, cwd) && IsDir(m, dir) && rest != [] && rest[0] == ".."
    ensures Follow(m, dir, rest, links) == Follow(m, Parent(dir), rest[1..], links)
    ensures IsDir(m, Parent(dir)) && Push(true, dir, "..") == Parent(dir)
  {
    if dir != [] {
      assert SoundAt(m, dir);
    }
  }

  lemma {:induction false} FollowUps(m: Nodes, cwd: Location, dir: Location, ups: seq<string>, names: seq<string>,
                                     links: nat)
    requires Sound(m, cwd) && IsDir(m, dir) && forall i | 0 <= i < |ups| :: ups[i] == ".."
    ensures var base := Resolve(true, dir, ups);
            IsDir(m, base) && Follow(m, dir, ups + names, links) == Follow(m, base, names, links)
    decreases |ups|
  {
    hide Follow, Sound, Push;
    if ups == [] {
      assert ups + names == names;
    } else {
      assert (ups + names)[1..] == ups[1..] + names && (ups + names)[0] == "..";
      FollowUpStep(m, cwd, dir, ups + names, links);
      FollowUps(m, cwd, Parent(dir), ups[1..], names, links);
    }
  }

  /** A cleaned path is a number of steps up, and then names. */
  lemma {:induction false} UpsAndNames(p: Path) returns (ups: seq<string>, names: seq<string>)
    requires Canonical(p)
    ensures p.comps == ups + names && NamesOnly(names) && forall i | 0 <= i < |ups| :: ups[i] == ".."
    ensures !EndsInName(p) ==> names == []
    decreases |p.comps|
  {
    if p.comps == [] {
      ups, names := [], [];
    } else {
      var front, last := Up(p), p.comps[|p.comps| - 1];
      UpCanonical(p);
      if last == ".." {
        ups, names := p.comps, [];
      } else {
        ups, names := UpsAndNames(front);
        names := names + [last];
      }
    }
  }

  lemma FollowPlain(m: Nodes, dir: Location, p: Path, links: nat)
    requires Sound(m, dir) && Canonical(p) && Free(Links(m), At(dir, p))
    ensures Follow(m, Start(dir, p), p.comps, links) == PlainSpot(m, At(dir, p))
  {
    hide Follow, Resolve, PlainSpot;
    var ups, names := UpsAndNames(p);
    var start := Start(dir, p);
    var base := Resolve(true, start, ups);
    ResolveAppend(true, start, ups, names);
    ResolveNames(true, base, names);
    FollowUps(m, dir, start, ups, names, links);
    FollowNames(m, dir, base, names, links);
  }

  /** Without a link on its way a path leads to its location. */
  lemma SpotPlain(m: Nodes, cwd: Location, p: Path)
    requires Sound(m, cwd) && Canonical(p) && Free(Links(m), At(cwd, p))
    ensures SpotOf(m, cwd, p) == PlainSpot(m, At(cwd, p))
  {
    FollowPlain(m, cwd, p, LINK_LIMIT);
  }

  lemma FollowPieces(m: Nodes, dir: Location, p: Path, links: nat)
    ensures Follow(m, dir, Pieces(p), links) == Follow(m, dir, p.comps, links)
  {
    if p.comps == [] && p.rooted {
      assert ["", ""][1..] == [""] && [""][1..] == [];
    } else if p.comps == [] {
      assert ["."][1..] == [];
    } else if p.rooted {
      assert ([""] + p.comps)[1..] == p.comps;
    }
  }

  /** A symbolic link leads where its target leads: from the root when that is absolute, else from the
      directory of the link. */
  lemma LinkLeads(m: Nodes, dir: Location, name: string, p: Path, links: nat)
    requires Sound(m, dir) && IsName(name) && dir + [name] in m && m[dir + [name]] == LinkNode(Render(p))
    requires Canonical(p) && Free(Links(m), At(dir, p)) && links > 0
    ensures Follow(m, dir, [name], links) == PlainSpot(m, At(dir, p))
  {
    hide Follow, Render, Resolve, PlainSpot, Pieces, Links, SoundAt;
    FollowLink(m, dir, name, p, links);
    FollowPieces(m, Start(dir, p), p, links - 1);
    FollowPlain(m, dir, p, links - 1);
  }

  lemma FollowLink(m: Nodes, dir: Location, name: string, p: Path, links: nat)
    requires IsName(name) && dir + [name] in m && m[dir + [name]] == LinkNode(Render(p))
    requires Canonical(p) && links > 0
    ensures Follow(m, dir, [name], links) == Follow(m, Start(dir, p), Pieces(p), links - 1)
  {
    hide Pieces;
    SplitRender(p);
    assert [name][1..] == [] && Pieces(p) + [] == Pieces(p);
    hide Render;
  }

  /** A path that does not end in a name leads to a directory. */
  lemma NoNameIsDir(m: Nodes, cwd: Location, p: Path)
    requires Sound(m, cwd) && Canonical(p) && (p.comps == [] || p.comps[|p.comps| - 1] == "..")
    ensures IsDir(m, At(cwd, p)) && PlainSpot(m, At(cwd, p)).Present?
  {
    hide Resolve, Follow;
    var ups, names := UpsAndNames(p);
    assert ups + names == ups;
    FollowUps(m, cwd, Start(cwd, p), ups, [], LINK_LIMIT);
  }

  lemma AtNamesOnly(m: Nodes, cwd: Location, p: Path)
    requires Sound(m, cwd) && Canonical(p)
    ensures NamesOnly(At(cwd, p))
  {
    hide Resolve, Follow;
    var ups, names := UpsAndNames(p);
    ResolveAppend(true, Start(cwd, p), ups, names);
    FollowUps(m, cwd, Start(cwd, p), ups, [], LINK_LIMIT);
    var base := Resolve(true, Start(cwd, p), ups);
    Ancestors(m, cwd, base);
    ResolveNames(true, base, names);
  }

  /** Where an entry is found or made, when no link is on the way to its directory. */
  lemma EntryPlain(m: Nodes, cwd: Location, p: Path)
    requires Sound(m, cwd) && Canonical(p) && Free(Links(m), At(cwd, Up(p)))
    ensures var loc := At(cwd, p);
            if EndsInName(p)
            then loc != [] && EntryOf(m, cwd, p) == (if IsDir(m, Parent(loc)) then Some(loc) else None)
            else IsDir(m, loc) && EntryOf(m, cwd, p) == None
  {
    hide At, SpotOf, Up;
    if EndsInName(p) {
      UpCanonical(p);
      SpotPlain(m, cwd, Up(p));
      AtParent(cwd, p);
    } else {
      NoNameIsDir(m, cwd, p);
    }
  }

  // ------------------------------------------------------------------------------- operations

  /** A directory has all it needs. */
  lemma DirIsMade(m: Nodes, cwd: Location, loc: Location)
    requires Sound(m, cwd) && IsDir(m, loc)
    ensures MkdirAllAt(m, loc) == Outcome(m, None)
  {
    Ancestors(m, cwd, loc);
    forall l | l in Dirs(loc) ensures l in m && m[l] == DirNode {
      assert IsDir(m, l);
    }
    forall k | 1 <= k <= |loc| && loc[..k] in m ensures m[loc[..k]] == DirNode {
      assert Covers(loc[..k], loc) && IsDir(m, loc[..k]);
    }
    assert m + Dirs(loc) == m;
  }

  lemma FileIsInTheWay(m: Nodes, loc: Location)
    requires loc in m && !IsDir(m, loc)
    ensures MkdirAllAt(m, loc) == Outcome(m, Some(FileError))
  {
    assert loc[..|loc|] == loc;
  }

  lemma MkdirKeeps(m: Nodes, loc: Location, l: Location)
    ensures var m' := MkdirAllAt(m, loc).nodes;
            && (l in m ==> l in m' && m'[l] == m[l])
            && (l in m' && m'[l] != DirNode ==> l in m)
  {
    if Openable(m, loc) && l in m && l in Dirs(loc) {
      assert l == loc[..|l|];
    }
  }

  /** A directory that is made lies in a directory. */
  lemma MadeIsSound(m: Nodes, loc: Location, l: Location)
    requires NamesOnly(loc) && Openable(m, loc) && l != [] && Covers(l, loc)
    ensures SoundAt(m + Dirs(loc), l)
  {
    assert l == loc[..|l|] && l[|l| - 1] == loc[|l| - 1] && loc[|l| - 1] in loc;
    assert Parent(l) == loc[..|l| - 1];
    assert Parent(l) != [] ==> Covers(Parent(l), loc);
  }

  lemma KeptIsSound(m: Nodes, cwd: Location, loc: Location, l: Location)
    requires Sound(m, cwd) && l in m
    ensures SoundAt(MkdirAllAt(m, loc).nodes, l)
  {
    assert SoundAt(m, l);
    MkdirKeeps(m, loc, l);
    MkdirKeeps(m, loc, Parent(l));
    if m[l].FileNode? {
      MkdirKeeps(m, loc, m[l].id);
    }
  }

  lemma MkdirKeepsSound(m: Nodes, cwd: Location, loc: Location)
    requires Sound(m, cwd) && NamesOnly(loc)
    ensures Sound(MkdirAllAt(m, loc).nodes, cwd)
    ensures MkdirAllAt(m, loc).error.None? ==> IsDir(MkdirAllAt(m, loc).nodes, loc)
  {
    hide NamesOnly, SoundAt, Dirs;
    var m' := MkdirAllAt(m, loc).nodes;
    forall l | l in m' ensures SoundAt(m', l) {
      if l in m {
        KeptIsSound(m, cwd, loc, l);
      } else {
        MadeIsSound(m, loc, l);
      }
    }
    MkdirKeeps(m, loc, cwd);
    assert loc[..|loc|] == loc;
  }

  lemma MkdirKeepsLinks(m: Nodes, loc: Location)
    ensures Links(MkdirAllAt(m, loc).nodes) == Links(m)
  {
    hide MkdirAllAt;
    forall l ensures l in Links(MkdirAllAt(m, loc).nodes) <==> l in Links(m) {
      MkdirKeeps(m, loc, l);
    }
    forall l | l in Links(m) ensures Links(MkdirAllAt(m, loc).nodes)[l] == Links(m)[l] {
      MkdirKeeps(m, loc, l);
    }
  }

  lemma CoversAbove(k: Location, loc: Location)
    ensures Covers(k, Parent(loc)) ==> Covers(k, loc)
  {
    if Covers(k, Parent(loc)) {
      assert loc[..|k|] == Parent(loc)[..|k|];
    }
  }

  lemma FreeAbove(links: map<Location, string>, loc: Location)
    requires Free(links, loc)
    ensures Free(links, Parent(loc))
  {
    forall k | k in links ensures !Covers(k, Parent(loc)) {
      CoversAbove(k, loc);
    }
  }

  lemma OpenableAbove(m: Nodes, loc: Location)
    requires loc != [] && loc !in m
    ensures Openable(m, Parent(loc)) <==> Openable(m, loc)
  {
    assert forall k | 1 <= k < |loc| :: Parent(loc)[..k] == loc[..k];
    assert loc[..|loc|] == loc;
  }

  /** After its parent, one more directory. */
  lemma MkdirGrows(m: Nodes, loc: Location)
    requires loc != [] && loc !in m
    ensures var up := MkdirAllAt(m, Parent(loc));
            MkdirAllAt(m, loc) == if up.error.Some? then up else Outcome(up.nodes[loc := DirNode], None)
    ensures loc !in MkdirAllAt(m, Parent(loc)).nodes
  {
    hide Openable;
    OpenableAbove(m, loc);
    assert !Covers(loc, Parent(loc));
    assert Dirs(loc) == Dirs(Parent(loc))[loc := DirNode];
    hide Dirs;
    assert m + Dirs(loc) == (m + Dirs(Parent(loc)))[loc := DirNode];
  }

  lemma {:induction false} MkdirPlain(m: Nodes, cwd: Location, p: Path)
    requires Sound(m, cwd) && Canonical(p) && Free(Links(m), At(cwd, p))
    ensures MkdirAllIn(m, cwd, p) == MkdirAllAt(m, At(cwd, p))
    decreases |p.comps|
  {
    hide At, SpotOf, EntryOf, MkdirAllAt;
    var loc := At(cwd, p);
    SpotPlain(m, cwd, p);
    if loc == [] || loc in m {
      if IsDir(m, loc) {
        DirIsMade(m, cwd, loc);
      } else {
        FileIsInTheWay(m, loc);
      }
    } else {
      if !EndsInName(p) {
        NoNameIsDir(m, cwd, p);
      }
      AtParent(cwd, p);
      UpCanonical(p);
      FreeAbove(Links(m), loc);
      MkdirPlain(m, cwd, Up(p));
      MkdirGrows(m, loc);
      AtNamesOnly(m, cwd, Up(p));
      MkdirKeepsSound(m, cwd, Parent(loc));
      MkdirKeepsLinks(m, Parent(loc));
      EntryPlain(MkdirAllAt(m, Parent(loc)).nodes, cwd, p);
    }
  }

  lemma WritePlain(m: Nodes, cwd: Location, p: Path, content: Bytes)
    requires Sound(m, cwd) && Canonical(p) && Free(Links(m), At(cwd, p))
    ensures WriteIn(m, cwd, p, content) == WriteAt(m, At(cwd, p), content)
  {
    hide At, SpotOf;
    var loc := At(cwd, p);
    SpotPlain(m, cwd, p);
    if loc in m {
      assert SoundAt(m, loc);
    }
  }

  lemma SymlinkPlain(m: Nodes, cwd: Location, p: Path, target: string)
    requires Sound(m, cwd) && Canonical(p) && Free(Links(m), At(cwd, Up(p)))
    ensures SymlinkIn(m, cwd, p, target) == SymlinkAt(m, At(cwd, p), target)
  {
    hide At, EntryOf;
    EntryPlain(m, cwd, p);
  }

  lemma LinkPlain(m: Nodes, cwd: Location, source: Path, p: Path)
    requires Sound(m, cwd) && Canonical(p) && Canonical(source)
    requires Free(Links(m), At(cwd, Up(p))) && Free(Links(m), At(cwd, Up(source)))
    ensures LinkIn(m, cwd, source, p) == HardLinkAt(m, At(cwd, source), At(cwd, p))
  {
    hide At, EntryOf;
    EntryPlain(m, cwd, p);
    EntryPlain(m, cwd, source);
    if At(cwd, source) in m {
      assert SoundAt(m, At(cwd, source));
    }
  }

  /** A new node in a directory keeps the file system sound. */
  lemma NodeKeepsSound(m: Nodes, cwd: Location, loc: Location, node: Node)
    requires Sound(m, cwd) && loc !in m && loc != [] && IsName(loc[|loc| - 1]) && IsDir(m, Parent(loc))
    requires node.FileNode? ==> node.id == loc || (exists k :: k in m && m[k] == node)
    ensures Sound(m[loc := node], cwd)
  {
    var m' := m[loc := node];
    assert Parent(loc) != loc;
    forall l | l in m' ensures SoundAt(m', l) {
      if l != loc {
        assert SoundAt(m, l);
      } else if node.FileNode? && node.id != loc {
        var k :| k in m && m[k] == node;
        assert SoundAt(m, k);
      }
    }
  }

  /** So do new contents of a file. */
  lemma RewriteKeepsSound(m: Nodes, cwd: Location, id: Location, content: Bytes)
    requires Sound(m, cwd)
    ensures Sound(Rewritten(m, id, content), cwd)
  {
    var m' := Rewritten(m, id, content);
    forall l | l in m' ensures SoundAt(m', l) {
      assert SoundAt(m, l);
    }
  }

  /** Making directories, through links too, changes nothing that is there. */
  lemma {:induction false} MkdirInKeeps(m: Nodes, cwd: Location, p: Path, l: Location)
    requires l in m
    ensures l in MkdirAllIn(m, cwd, p).nodes && MkdirAllIn(m, cwd, p).nodes[l] == m[l]
    decreases |p.comps|
  {
    hide Follow, EntryOf;
    if !SpotOf(m, cwd, p).Present? && p.comps != [] {
      MkdirInKeeps(m, cwd, Up(p), l);
    }
  }

  // -------------------------------------------------------------------- how many links are followed

  /** n + 1 letters. */
  function Name(n: nat): string {
    if n == 0 then "l" else "l" + Name(n - 1)
  }

  lemma {:induction false} NameFacts(n: nat)
    ensures IsName(Name(n)) && |Name(n)| == n + 1 && '/' !in Name(n) && Name(n)[0] == 'l'
  {
    if n > 0 {
      NameFacts(n - 1);
    }
    assert "."[0] != 'l' && ".."[0] != 'l';
  }

  /** A file and n links, each to the one before. */
  ghost predicate Chain(m: Nodes, n: nat) {
    && [Name(0)] in m && m[[Name(0)]].FileNode?
    && forall i: nat | 0 < i <= n :: [Name(i)] in m && m[[Name(i)]] == LinkNode(Name(i - 1))
  }

  lemma {:induction false} FollowChain(m: Nodes, n: nat, links: nat)
    requires Chain(m, n)
    ensures Follow(m, [], [Name(n)], links) == if n <= links then Present([Name(0)]) else Nowhere
    decreases n
  {
    NameFacts(n);
    assert [] + [Name(n)] == [Name(n)] && [Name(n)][1..] == [];
    if n > 0 && links > 0 {
      NameFacts(n - 1);
      SplitNone(Name(n - 1), '/');
      assert [Name(n - 1)] + [] == [Name(n - 1)];
      FollowChain(m, n - 1, links - 1);
    }
  }

  /** Forty links on a path are followed, as Linux does, and no more. */
  lemma FortyLinks(m: Nodes, cwd: Location, n: nat)
    requires Chain(m, n)
    ensures SpotOf(m, cwd, Path(true, [Name(n)])) == if n <= 40 then Present([Name(0)]) else Nowhere
  {
    FollowChain(m, n, LINK_LIMIT);
  }
}
