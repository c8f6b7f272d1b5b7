/** Lexical path processing of Go's path/filepath on Unix, and what the destination prefix test
    of the extractors means for path components. */
module Paths {
  import opened Wrappers
  import opened Strings

  /** A cleaned path, as its components. */
  datatype Path = Path(rooted: bool, comps: seq<string>)

  /** An ordinary file name. */
  predicate IsName(c: string) {
    c != "" && c != "." && c != ".." && '/' !in c
  }

  /** ".." is only found at the front of a cleaned path, and never in a rooted one. */
  ghost predicate Canonical(p: Path) {
    forall i | 0 <= i < |p.comps| ::
      IsName(p.comps[i]) ||
      (p.comps[i] == ".." && !p.rooted && forall j | 0 <= j < i :: p.comps[j] == "..")
  }

  predicate IsAbs(s: string) {
    s != "" && s[0] == '/'
  }

  /** The effect of one path element on the components before it. */
  function Push(rooted: bool, done: seq<string>, c: string): seq<string> {
    if c == "" || c == "." then done
    else if c != ".." then done + [c]
    else if done != [] && done[|done| - 1] != ".." then done[..|done| - 1]
    else if rooted then done
    else done + [c]
  }

  function Resolve(rooted: bool, done: seq<string>, parts: seq<string>): seq<string>
    decreases |parts|
  {
    if parts == [] then done else Resolve(rooted, Push(rooted, done, parts[0]), parts[1..])
  }

  function Parse(s: string): Path {
    Path(IsAbs(s), Resolve(IsAbs(s), [], Split(s, '/')))
  }

  function Render(p: Path): string {
    if p.rooted then "/" + Join(p.comps, '/')
    else if p.comps == [] then "."
    else Join(p.comps, '/')
  }

  function Clean(s: string): string {
    Render(Parse(s))
  }

  function JoinPath(dir: string, elem: string): string {
    if dir != "" then Clean(dir + "/" + elem)
    else if elem != "" then Clean(elem)
    else ""
  }

  /** The path up to and including its last slash. */
  function UpToSlash(s: string): (r: string)
    ensures r <= s && '/' !in s[|r|..]
    ensures r != "" ==> r[|r| - 1] == '/'
  {
    if s == "" || s[|s| - 1] == '/' then s else UpToSlash(s[..|s| - 1])
  }

  function LastElement(s: string): string {
    s[|UpToSlash(s)|..]
  }

  function DirPath(s: string): string {
    Clean(UpToSlash(s))
  }

  function CommonLength(a: seq<string>, b: seq<string>): (n: nat)
    ensures n <= |a| && n <= |b|
  {
    if a == [] || b == [] || a[0] != b[0] then 0 else 1 + CommonLength(a[1..], b[1..])
  }

  /** filepath.Rel: up from what `base` has beyond the common part, then down. */
  function RelPath(base: string, target: string): Option<string> {
    var b, t := Parse(base), Parse(target);
    var k := CommonLength(b.comps, t.comps);
    if b.rooted != t.rooted || (k < |b.comps| && b.comps[k] == "..") then None
    else Some(Render(Path(false, seq(|b.comps| - k, _ => "..") + t.comps[k..])))
  }

  /** The test of both extractors: the target is the destination or starts with it and a slash. */
  predicate PassesPrefixTest(target: string, dest: string) {
    HasPrefix(target, dest + "/") || target == dest
  }

  /** `t` is `d` or lies below it, component by component. */
  ghost predicate Inside(d: Path, t: Path) {
    d.rooted == t.rooted && d.comps <= t.comps && forall i | |d.comps| <= i < |t.comps| :: t.comps[i] != ".."
  }

  /** A destination that ends in an ordinary name. */
  predicate EndsInName(d: Path) {
    d.comps != [] && d.comps[|d.comps| - 1] != ".."
  }

  // ------------------------------------------------------------------ resolving and rendering

  lemma {:induction false} ResolveAppend(rooted: bool, done: seq<string>, xs: seq<string>, ys: seq<string>)
    ensures Resolve(rooted, done, xs + ys) == Resolve(rooted, Resolve(rooted, done, xs), ys)
    decreases |xs|
  {
    if xs == [] {
      assert xs + ys == ys;
    } else {
      assert (xs + ys)[1..] == xs[1..] + ys;
      ResolveAppend(rooted, Push(rooted, done, xs[0]), xs[1..], ys);
    }
  }

  lemma {:induction false} ResolveCanonical(rooted: bool, done: seq<string>, parts: seq<string>)
    requires Canonical(Path(rooted, done)) && NoneHas(parts, '/')
    ensures Canonical(Path(rooted, Resolve(rooted, done, parts)))
    decreases |parts|
  {
    if parts != [] {
      var next := Push(rooted, done, parts[0]);
      if parts[0] == ".." && !rooted && (done == [] || done[|done| - 1] == "..") {
        assert forall j | 0 <= j < |done| :: done[j] == "..";
      }
      assert Canonical(Path(rooted, next));
      ResolveCanonical(rooted, next, parts[1..]);
    }
  }

  lemma ParseCanonical(s: string)
    ensures Canonical(Parse(s))
  {
    JoinSplit(s, '/');
    ResolveCanonical(IsAbs(s), [], Split(s, '/'));
  }

  /** Nothing happens to components that are already clean. */
  lemma {:induction false} ResolveClean(rooted: bool, done: seq<string>, parts: seq<string>)
    requires Canonical(Path(rooted, done + parts))
    ensures Resolve(rooted, done, parts) == done + parts
    decreases |parts|
  {
    if parts != [] {
      var all := done + parts;
      assert all[|done|] == parts[0];
      if parts[0] == ".." && done != [] {
        assert done[|done| - 1] == all[|done| - 1] == "..";
      }
      assert Push(rooted, done, parts[0]) == done + [parts[0]];
      assert done + [parts[0]] + parts[1..] == all;
      ResolveClean(rooted, done + [parts[0]], parts[1..]);
    }
  }

  /** The pieces between the slashes of a rendered path. */
  function Pieces(p: Path): seq<string> {
    if p.comps == [] then (if p.rooted then ["", ""] else ["."])
    else if p.rooted then [""] + p.comps
    else p.comps
  }

  lemma SplitRender(p: Path)
    requires Canonical(p)
    ensures Split(Render(p), '/') == Pieces(p)
    ensures IsAbs(Render(p)) == p.rooted && Render(p) != ""
  {
    assert NoneHas(p.comps, '/');
    if p.comps != [] {
      SplitJoin(p.comps, '/');
      assert p.comps[0] != "" && p.comps[0][0] != '/';
      if p.rooted {
        SplitCons("", Join(p.comps, '/'), '/');
        assert "" + "/" + Join(p.comps, '/') == Render(p);
      }
    } else if p.rooted {
      SplitCons("", "", '/');
      assert "" + "/" + "" == Render(p);
    }
  }

  /** Resolving the pieces of a cleaned path is resolving its components. */
  lemma ResolvePieces(rooted: bool, done: seq<string>, p: Path)
    ensures Resolve(rooted, done, Pieces(p)) == Resolve(rooted, done, p.comps)
  {
    if p.comps == [] && p.rooted {
      assert Pieces(p)[1..] == [""] && [""][1..] == [];
    } else if p.rooted {
      assert Pieces(p)[1..] == p.comps;
    }
  }

  lemma ParseRender(p: Path)
    requires Canonical(p)
    ensures Parse(Render(p)) == p && Clean(Render(p)) == Render(p)
  {
    SplitRender(p);
    ResolvePieces(p.rooted, [], p);
    assert [] + p.comps == p.comps;
    ResolveClean(p.rooted, [], p.comps);
  }

  /** Joining resolves the second path from where the first ends. */
  lemma ParseJoined(s: string, elem: string)
    requires s != ""
    ensures Parse(JoinPath(s, elem)) == Path(IsAbs(s), Resolve(IsAbs(s), Parse(s).comps, Split(elem, '/')))
  {
    var joined := s + "/" + elem;
    SplitAppend(s, elem, '/');
    ResolveAppend(IsAbs(s), [], Split(s, '/'), Split(elem, '/'));
    ParseCanonical(joined);
    ParseRender(Parse(joined));
  }

  /** Where an entry of this name is put below destination `d`. */
  function Target(d: Path, name: string): Path {
    Path(d.rooted, Resolve(d.rooted, d.comps, Parse(name).comps))
  }

  lemma TargetCanonical(d: Path, name: string)
    requires Canonical(d)
    ensures Canonical(Target(d, name))
    ensures JoinPath(Render(d), Clean(name)) == Render(Target(d, name))
  {
    var n := Parse(name);
    ParseCanonical(name);
    SplitRender(d);
    SplitRender(n);
    ParseRender(d);
    ParseJoined(Render(d), Render(n));
    ResolvePieces(d.rooted, d.comps, n);
    assert forall i | 0 <= i < |n.comps| :: '/' !in n.comps[i];
    ResolveCanonical(d.rooted, d.comps, n.comps);
    var joined := Render(d) + "/" + Render(n);
    ParseCanonical(joined);
    ParseRender(Parse(joined));
  }

  // -------------------------------------------------------- string prefixes and components

  lemma RenderBelow(d: Path, rest: seq<string>)
    requires d.comps != [] && rest != []
    ensures Render(Path(d.rooted, d.comps + rest)) == Render(d) + "/" + Join(rest, '/')
  {
    JoinAppend(d.comps, rest, '/');
  }

  lemma PiecesBelow(d: Path, t: Path, rest: seq<string>)
    requires Canonical(d) && Canonical(t) && d.comps != [] && rest != []
    requires Pieces(t) == Pieces(d) + rest
    ensures t.rooted == d.rooted && d.comps <= t.comps
  {
    if d.rooted {
      assert Pieces(t)[0] == "";
      assert t.rooted && t.comps != [];
      assert t.comps == Pieces(t)[1..] == d.comps + rest;
    } else {
      assert Pieces(t)[0] == d.comps[0] != "";
      assert !t.rooted && t.comps != [];
    }
  }

  lemma PrefixIsComponents(d: Path, t: Path)
    requires Canonical(d) && Canonical(t) && d.comps != []
    ensures PassesPrefixTest(Render(t), Render(d)) <==> d.rooted == t.rooted && d.comps <= t.comps
  {
    if d.rooted == t.rooted && d.comps <= t.comps {
      var rest := t.comps[|d.comps|..];
      assert t.comps == d.comps + rest;
      if rest != [] {
        RenderBelow(d, rest);
      } else {
        assert t == d;
      }
    }
    if HasPrefix(Render(t), Render(d) + "/") {
      var tail := Render(t)[|Render(d)| + 1..];
      assert Render(t) == Render(d) + "/" + tail;
      SplitAppend(Render(d), tail, '/');
      SplitRender(d);
      SplitRender(t);
      PiecesBelow(d, t, Split(tail, '/'));
    } else if Render(t) == Render(d) {
      ParseRender(d);
      ParseRender(t);
    }
  }

  /** What the test means, for every destination: the destination and whatever starts with its
      components; but only itself when it is "." or "/". */
  ghost predicate Accepts(d: Path, t: Path) {
    d.rooted == t.rooted && (if d.comps == [] then t.comps == [] else d.comps <= t.comps)
  }

  lemma PrefixTestExactly(d: Path, t: Path)
    requires Canonical(d) && Canonical(t)
    ensures PassesPrefixTest(Render(t), Render(d)) <==> Accepts(d, t)
  {
    if d.comps != [] {
      PrefixIsComponents(d, t);
    } else {
      ParseRender(d);
      ParseRender(t);
      RootPrefix(d, t);
    }
  }

  lemma FirstPieces(s: string)
    ensures HasPrefix(s, "./") ==> |Split(s, '/')| > 1 && Split(s, '/')[0] == "."
    ensures HasPrefix(s, "//") ==> |Split(s, '/')| > 1 && Split(s, '/')[1] == ""
  {
    if HasPrefix(s, "./") {
      assert s == "." + "/" + s[2..];
      SplitCons(".", s[2..], '/');
    } else if HasPrefix(s, "//") {
      assert s == "" + "/" + ("" + "/" + s[2..]);
      SplitCons("", "" + "/" + s[2..], '/');
      SplitCons("", s[2..], '/');
    }
  }

  /** No cleaned path starts with "//" or "./". */
  lemma RootPrefix(d: Path, t: Path)
    requires Canonical(t) && d.comps == []
    ensures !HasPrefix(Render(t), Render(d) + "/")
  {
    SplitRender(t);
    FirstPieces(Render(t));
    assert Render(d) + "/" == if d.rooted then "//" else "./";
    assert t.comps == [] ==> |Render(t)| == 1;
  }

  predicate EndsInUp(d: Path) {
    d.comps != [] && d.comps[|d.comps| - 1] == ".."
  }

  /** For a destination that ends in a name the accepted paths are those inside; for "." and "/"
      they are inside, but not all of them. */
  lemma AcceptsIsInside(d: Path, t: Path)
    requires Canonical(d) && Canonical(t) && !EndsInUp(d)
    ensures Accepts(d, t) ==> Inside(d, t)
    ensures EndsInName(d) && Inside(d, t) ==> Accepts(d, t)
  {
    if d.comps != [] && d.comps <= t.comps {
      assert t.comps[|d.comps| - 1] == d.comps[|d.comps| - 1];
    }
  }

  /** For a destination that ends in a name the test decides containment. */
  lemma PrefixTestIsInside(d: Path, t: Path)
    requires Canonical(d) && Canonical(t) && EndsInName(d)
    ensures PassesPrefixTest(Render(t), Render(d)) <==> Inside(d, t)
  {
    hide Inside, Accepts, PassesPrefixTest;
    PrefixTestExactly(d, t);
    AcceptsIsInside(d, t);
  }

  ghost predicate AcceptsExactlyInside(d: Path) {
    forall name :: PassesPrefixTest(JoinPath(Render(d), Clean(name)), Render(d)) <==> Inside(d, Target(d, name))
  }

  lemma ResolveSnoc(rooted: bool, parts: seq<string>, last: string)
    ensures Resolve(rooted, [], parts + [last]) == Push(rooted, Resolve(rooted, [], parts), last)
  {
    ResolveAppend(rooted, [], parts, [last]);
    assert [last][1..] == [];
  }

  lemma PlainParse(last: string)
    requires '/' !in last
    ensures Parse(last) == Path(false, Push(false, [], last))
  {
    SplitNone(last, '/');
    assert last != "" ==> last[0] in last;
    ResolveSnoc(false, [], last);
    assert [] + [last] == [last];
  }

  /** A name without '/' put below a destination. */
  lemma PlainTarget(d: Path, name: string)
    requires name != "" && name != "." && '/' !in name
    ensures Target(d, name) == Path(d.rooted, Push(d.rooted, d.comps, name))
  {
    PlainParse(name);
    assert Push(false, [], name) == [name] && [name][1..] == [];
    var next := Push(d.rooted, d.comps, name);
    assert Resolve(d.rooted, d.comps, [name]) == Resolve(d.rooted, next, []) == next;
  }

  /** The test of an entry's name decides containment for exactly the destinations that end in
      an ordinary name: it rejects everything below "." and "/", and lets ".." escape from a
      destination that ends in "..". */
  lemma PathCheckExactly(d: Path)
    requires Canonical(d)
    ensures AcceptsExactlyInside(d) <==> EndsInName(d)
  {
    hide JoinPath, Clean, Render, PassesPrefixTest, Target;
    forall name
      ensures PassesPrefixTest(JoinPath(Render(d), Clean(name)), Render(d)) <==> Accepts(d, Target(d, name))
    {
      TargetCanonical(d, name);
      PrefixTestExactly(d, Target(d, name));
    }
    if EndsInName(d) {
      forall name ensures Accepts(d, Target(d, name)) <==> Inside(d, Target(d, name)) {
        TargetCanonical(d, name);
        AcceptsIsInside(d, Target(d, name));
      }
    } else if d.comps == [] {
      PlainTarget(d, "a");
      assert Inside(d, Target(d, "a")) && !Accepts(d, Target(d, "a"));
    } else {
      PlainTarget(d, "..");
      assert Target(d, "..").comps[|d.comps|] == "..";
      assert !Inside(d, Target(d, "..")) && Accepts(d, Target(d, ".."));
    }
  }

  // --------------------------------------------------------------------- directories, Rel

  lemma {:induction false} UpToSlashAppend(a: string, b: string)
    requires '/' !in b
    ensures UpToSlash(a + "/" + b) == a + "/"
    decreases |b|
  {
    var s := a + "/" + b;
    if b == "" {
      assert s == a + "/";
    } else {
      assert s[..|s| - 1] == a + "/" + b[..|b| - 1];
      UpToSlashAppend(a, b[..|b| - 1]);
    }
  }

  lemma {:induction false} UpToSlashNone(s: string)
    requires '/' !in s
    ensures UpToSlash(s) == ""
  {
    if s != "" {
      UpToSlashNone(s[..|s| - 1]);
    }
  }

  /** A path without its last component. */
  function Up(p: Path): Path {
    if p.comps == [] then p else Path(p.rooted, p.comps[..|p.comps| - 1])
  }

  lemma UpCanonical(p: Path)
    requires Canonical(p)
    ensures Canonical(Up(p))
  {
  }

  /** The directory of a cleaned path drops its last component. */
  lemma DirRender(p: Path)
    requires Canonical(p)
    ensures DirPath(Render(p)) == Render(Up(p))
  {
    if p.comps == [] {
      RootDir(p);
    } else {
      var up, last := Up(p), p.comps[|p.comps| - 1];
      assert p.comps == up.comps + [last];
      if up.comps != [] {
        RenderBelow(up, [last]);
        UpToSlashAppend(Render(up), last);
        ParseRender(up);
        SplitRender(up);
        ParseSlash(Render(up));
      } else {
        NameDir(p.rooted, last);
      }
    }
  }

  lemma RootDir(p: Path)
    requires p.comps == []
    ensures DirPath(Render(p)) == Render(p)
  {
    ParseRender(p);
    assert Parse("") == Path(false, []);
    if !p.rooted {
      UpToSlashNone(".");
    }
  }

  lemma NameDir(rooted: bool, name: string)
    requires name != "" && '/' !in name
    ensures DirPath(Render(Path(rooted, [name]))) == Render(Path(rooted, []))
  {
    var p := Path(rooted, [name]);
    assert Parse("") == Path(false, []);
    if rooted {
      UpToSlashAppend("", name);
      assert "" + "/" + name == Render(p) && "" + "/" == "/";
      ParseRender(Path(true, []));
      assert Render(Path(true, [])) == "/";
    } else {
      UpToSlashNone(name);
      assert Render(p) == name;
    }
  }

  /** A trailing slash changes nothing. */
  lemma ParseSlash(s: string)
    requires s != ""
    ensures Parse(s + "/") == Parse(s)
  {
    SplitAppend(s, "", '/');
    assert s + "/" + "" == s + "/";
    ResolveAppend(IsAbs(s), [], Split(s, '/'), [""]);
  }

  lemma SlashParse(dir: string, last: string)
    requires '/' !in last
    ensures var d := Parse(dir + "/");
            Parse(dir + "/" + last) == Path(d.rooted, Push(d.rooted, d.comps, last))
  {
    hide Split, Resolve;
    var s, up := dir + "/" + last, dir + "/" + "";
    assert up == dir + "/";
    SplitAppend(dir, last, '/');
    SplitAppend(dir, "", '/');
    SplitNone(last, '/');
    SplitNone("", '/');
    ResolveSnoc(IsAbs(s), Split(dir, '/'), last);
    ResolveSnoc(IsAbs(s), Split(dir, '/'), "");
  }

  /** A path is its directory with the last element resolved from there. */
  lemma LastElementParse(s: string)
    ensures var up := Parse(DirPath(s));
            Parse(s) == Path(up.rooted, Push(up.rooted, up.comps, LastElement(s)))
  {
    hide Parse, Render;
    var up := UpToSlash(s);
    ParseCanonical(up);
    ParseRender(Parse(up));
    if up == "" {
      assert s[0..] == s;
      PlainParse(s);
      PlainParse("");
    } else {
      SplitOff(s, up);
      SlashParse(up[..|up| - 1], s[|up|..]);
    }
  }

  /** What one element adds to a cleaned path: a name, or a step up from where no name can be
      dropped, or nothing. */
  function Added(up: Path, last: string): seq<string> {
    if last == "" || last == "." then []
    else if last != ".." then [last]
    else if up == Path(true, []) || EndsInName(up) then []
    else [last]
  }

  /** What the last element of a path adds to its directory. */
  function BaseOf(s: string): seq<string> {
    Added(Parse(DirPath(s)), LastElement(s))
  }

  /** The path is its directory extended by its base: it does not drop a name of its directory. */
  predicate Extends(s: string) {
    LastElement(s) == ".." ==> !EndsInName(Parse(DirPath(s)))
  }

  lemma PushAdds(up: Path, last: string)
    requires Canonical(up) && '/' !in last
    ensures Push(up.rooted, up.comps, last) ==
      if last == ".." && EndsInName(up) then Up(up).comps else up.comps + Added(up, last)
    ensures Added(up, last) == [".."] ==> !up.rooted && !EndsInName(up)
    ensures Canonical(Path(false, Added(up, last)))
  {
    if last == ".." && up.rooted && up.comps != [] {
      assert IsName(up.comps[|up.comps| - 1]);
    }
  }

  lemma ExtendsExactly(s: string)
    ensures var up := Parse(DirPath(s));
            && Canonical(up) && Canonical(Parse(s)) && Parse(s).rooted == up.rooted
            && (Parse(s).comps == if Extends(s) then up.comps + BaseOf(s) else Up(up).comps)
            && (BaseOf(s) == [".."] ==> !up.rooted && !EndsInName(up))
            && Canonical(Path(false, BaseOf(s)))
  {
    LastElementParse(s);
    ParseCanonical(DirPath(s));
    ParseCanonical(s);
    hide Parse, DirPath, Push, Added, Canonical;
    PushAdds(Parse(DirPath(s)), LastElement(s));
  }

  lemma SplitOff(s: string, up: string)
    requires up != "" && up[|up| - 1] == '/' && up <= s
    ensures up == up[..|up| - 1] + "/" && s == up[..|up| - 1] + "/" + s[|up|..]
  {
  }

  lemma {:induction false} CommonPrefix(a: seq<string>, rest: seq<string>)
    ensures CommonLength(a, a + rest) == |a|
  {
    if a != [] {
      assert (a + rest)[1..] == a[1..] + rest;
      CommonPrefix(a[1..], rest);
    }
  }

  /** The name of a path below `base`. */
  lemma RelBelow(base: string, target: string, rest: seq<string>)
    requires Parse(target) == Path(Parse(base).rooted, Parse(base).comps + rest)
    ensures RelPath(base, target) == Some(Render(Path(false, rest)))
  {
    var b := Parse(base);
    CommonPrefix(b.comps, rest);
    assert seq(0, _ => "..") + (b.comps + rest)[|b.comps|..] == rest;
  }

  /** Walking into a directory adds one component. */
  lemma ParseChild(s: string, name: string)
    requires s != "" && IsName(name)
    ensures JoinPath(s, name) != ""
    ensures Parse(JoinPath(s, name)) == Path(Parse(s).rooted, Parse(s).comps + [name])
  {
    ParseJoined(s, name);
    SplitNone(name, '/');
    ParseCanonical(s + "/" + name);
    SplitRender(Parse(s + "/" + name));
  }

  /** What is joined is clean, and empty only when both parts are. */
  lemma JoinIsClean(dir: string, elem: string)
    ensures JoinPath(dir, elem) == "" <==> dir == "" && elem == ""
    ensures JoinPath(dir, elem) != "" ==> Clean(JoinPath(dir, elem)) == JoinPath(dir, elem)
  {
    hide Parse;
    var s := if dir != "" then dir + "/" + elem else elem;
    ParseCanonical(s);
    SplitRender(Parse(s));
    ParseRender(Parse(s));
  }

  lemma {:induction false} CommonPart(a: seq<string>, b: seq<string>)
    ensures var k := CommonLength(a, b);
            a[..k] == b[..k] && (k < |a| && k < |b| ==> a[k] != b[k])
    decreases |a|
  {
    if a != [] && b != [] && a[0] == b[0] {
      CommonPart(a[1..], b[1..]);
      var k := CommonLength(a[1..], b[1..]);
      assert a[..k + 1] == [a[0]] + a[1..][..k] && b[..k + 1] == [b[0]] + b[1..][..k];
    }
  }

  /** As many steps up as there are names. */
  lemma {:induction false} DropNames(rooted: bool, base: seq<string>, names: seq<string>)
    requires forall c | c in names :: IsName(c)
    ensures Resolve(rooted, base + names, seq(|names|, _ => "..")) == base
    decreases |names|
  {
    var ups := seq(|names|, _ => "..");
    if names == [] {
      assert base + names == base;
    } else {
      var front, last := names[..|names| - 1], names[|names| - 1];
      assert last in names && (base + names)[|base + names| - 1] == last;
      assert (base + names)[..|base + names| - 1] == base + front;
      assert ups[1..] == seq(|front|, _ => "..");
      DropNames(rooted, base, front);
    }
  }

  /** A relative path, joined to its base, is the path it was made for. */
  lemma RelJoins(base: string, target: string)
    requires base != "" && RelPath(base, target).Some?
    ensures Parse(JoinPath(base, RelPath(base, target).value)) == Parse(target)
  {
    var b, t := Parse(base), Parse(target);
    var k := CommonLength(b.comps, t.comps);
    var ups := seq(|b.comps| - k, _ => "..");
    ParseCanonical(base);
    ParseCanonical(target);
    hide Parse, Render, Resolve;
    CommonPart(b.comps, t.comps);
    RelSteps(b, t, k);
    var r := Path(false, ups + t.comps[k..]);
    ParseJoined(base, Render(r));
    SplitRender(r);
    ResolvePieces(b.rooted, b.comps, r);
  }

  lemma RelSteps(b: Path, t: Path, k: nat)
    requires Canonical(b) && Canonical(t) && b.rooted == t.rooted && k <= |b.comps| && k <= |t.comps|
    requires b.comps[..k] == t.comps[..k] && (k < |b.comps| ==> b.comps[k] != "..")
    requires k < |b.comps| && k < |t.comps| ==> b.comps[k] != t.comps[k]
    ensures var steps := seq(|b.comps| - k, _ => "..") + t.comps[k..];
            Resolve(b.rooted, b.comps, steps) == t.comps && Canonical(Path(false, steps))
  {
    var ups, names, rest := seq(|b.comps| - k, _ => ".."), b.comps[k..], t.comps[k..];
    assert forall i | 0 <= i < |names| :: names[i] == b.comps[k + i];
    assert b.comps == b.comps[..k] + names;
    DropNames(b.rooted, b.comps[..k], names);
    ResolveAppend(b.rooted, b.comps, ups, rest);
    assert t.comps[..k] + rest == t.comps;
    ResolveClean(t.rooted, t.comps[..k], rest);
    StepsCanonical(t, ups, k);
  }

  lemma StepsCanonical(t: Path, ups: seq<string>, k: nat)
    requires Canonical(t) && k <= |t.comps| && forall i | 0 <= i < |ups| :: ups[i] == ".."
    ensures Canonical(Path(false, ups + t.comps[k..]))
  {
    var all := ups + t.comps[k..];
    forall i | 0 <= i < |all|
      ensures IsName(all[i]) || (all[i] == ".." && forall j | 0 <= j < i :: all[j] == "..")
    {
      if i >= |ups| {
        var at := k + i - |ups|;
        assert all[i] == t.comps[at];
        if !IsName(all[i]) {
          forall j | 0 <= j < i ensures all[j] == ".." {
            if j >= |ups| {
              assert all[j] == t.comps[k + j - |ups|];
            }
          }
        }
      }
    }
  }
}
