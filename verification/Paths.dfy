/** POSIX path strings as Python sees them: `split("/")`, `"/".join`, `strip`, `os.path.dirname`,
    `os.path.basename`, and the fold behind `resolve_path`. */
module Paths {

  /** A resolved path: its components from the root down. */
  type Path = seq<string>

  function Front(p: Path): Path
    requires p != []
  {
    p[..|p| - 1]
  }

  function Last(p: Path): string
    requires p != []
  {
    p[|p| - 1]
  }

  predicate SlashFree(s: string) {
    '/' !in s
  }

  /** A component that `resolve_path` can leave in its result. */
  predicate NormalName(s: string) {
    s != "" && s != "." && s != ".." && SlashFree(s)
  }

  predicate Normal(p: Path) {
    forall i | 0 <= i < |p| :: NormalName(p[i])
  }

  /** `s.split("/")` */
  function Split(s: string): (parts: seq<string>)
    ensures |parts| >= 1
  {
    if s == "" then [""]
    else if s[0] == '/' then [""] + Split(s[1..])
    else
      var rest := Split(s[1..]);
      [[s[0]] + rest[0]] + rest[1..]
  }

  /** `"/".join(parts)` */
  function Join(parts: seq<string>): string {
    if |parts| == 0 then ""
    else if |parts| == 1 then parts[0]
    else parts[0] + "/" + Join(parts[1..])
  }

  /** The string form of a resolved path. */
  function Render(p: Path): string {
    "/" + Join(p)
  }

  function RStrip(s: string): string {
    if s != "" && s[|s| - 1] == '/' then RStrip(s[..|s| - 1]) else s
  }

  function LStrip(s: string): string {
    if s != "" && s[0] == '/' then LStrip(s[1..]) else s
  }

  function Strip(s: string): string {
    RStrip(LStrip(s))
  }

  /** Where the last component of `s` begins: one past the last slash. */
  function TailStart(s: string): (i: nat)
    ensures i <= |s|
    ensures forall j | i <= j < |s| :: s[j] != '/'
    ensures i > 0 ==> s[i - 1] == '/'
  {
    if s == "" || s[|s| - 1] == '/' then |s| else TailStart(s[..|s| - 1])
  }

  /** `os.path.dirname` */
  function Dirname(s: string): string {
    var head := s[..TailStart(s)];
    if RStrip(head) == "" then head else RStrip(head)
  }

  /** `os.path.basename`: what follows the last slash. */
  function Basename(s: string): string {
    if s == "" || s[|s| - 1] == '/' then "" else Basename(s[..|s| - 1]) + [s[|s| - 1]]
  }

  /** The pieces that are not empty. */
  function NonEmpty(parts: seq<string>): seq<string> {
    if parts == [] then []
    else (if parts[0] == "" then [] else [parts[0]]) + NonEmpty(parts[1..])
  }

  /** One turn of the loop of `resolve_path`. */
  function Push(stack: Path, piece: string): Path {
    if piece == ".." then (if stack == [] then [] else Front(stack))
    else if piece == "." || piece == "" then stack
    else stack + [piece]
  }

  function Fold(stack: Path, pieces: seq<string>): Path
    decreases |pieces|
  {
    if pieces == [] then stack else Fold(Push(stack, pieces[0]), pieces[1..])
  }

  /** `~/x` is read as `<home>/x`; every other path stands for itself. */
  function Expand(spec: string, home: string): string {
    if "~/" <= spec then home + spec[1..] else spec
  }

  predicate Absolute(s: string) {
    s != "" && s[0] == '/'
  }

  /** The components `resolve_path(spec, cwd)` joins: a left fold of the pieces of `spec` over those of `cwd`. */
  function Resolved(spec: string, cwd: string, home: string): Path {
    var path := Expand(spec, home);
    Fold(if Absolute(path) then [] else NonEmpty(Split(cwd)), Split(path))
  }

  // ---------------------------------------------------------------- split and join

  lemma {:induction false} SplitConcat(a: string, b: string)
    ensures Split(a + "/" + b) == Split(a) + Split(b)
  {
    if a == "" {
      assert a + "/" + b == "/" + b;
    } else {
      assert (a + "/" + b)[1..] == a[1..] + "/" + b;
      SplitConcat(a[1..], b);
    }
  }

  lemma {:induction false} SplitSlashFree(s: string)
    requires SlashFree(s)
    ensures Split(s) == [s]
  {
    if s != "" {
      SplitSlashFree(s[1..]);
      assert s == [s[0]] + s[1..];
    }
  }

  /** Joining loses nothing that splitting cannot give back. */
  lemma {:induction false} SplitJoin(parts: seq<string>)
    requires parts != []
    requires forall i | 0 <= i < |parts| :: SlashFree(parts[i])
    ensures Split(Join(parts)) == parts
  {
    SplitSlashFree(parts[0]);
    if |parts| > 1 {
      SplitConcat(parts[0], Join(parts[1..]));
      SplitJoin(parts[1..]);
    }
  }

  lemma {:induction false} NonEmptyNormal(p: Path)
    requires forall i | 0 <= i < |p| :: p[i] != ""
    ensures NonEmpty(p) == p
  {
    if p != [] {
      NonEmptyNormal(p[1..]);
    }
  }

  lemma SplitRender(p: Path)
    requires Normal(p)
    ensures Split(Render(p)) == [""] + (if p == [] then [""] else p)
    ensures NonEmpty(Split(Render(p))) == p
  {
    assert Render(p)[1..] == Join(p);
    if p != [] {
      SplitJoin(p);
    }
    NonEmptyNormal(p);
    assert ([""] + p)[1..] == p;
    assert ["", ""][1..] == [""];
    assert NonEmpty([""]) == [];
  }

  lemma {:induction false} JoinNormalEnds(p: Path)
    requires Normal(p) && p != []
    ensures Join(p) != "" && Join(p)[0] != '/' && Join(p)[|Join(p)| - 1] != '/'
  {
    assert NormalName(p[0]);
    if |p| > 1 {
      JoinNormalEnds(p[1..]);
    }
  }

  /** On a normalised path, what `getfile` walks is the component list. */
  lemma StripRender(p: Path)
    requires Normal(p) && p != []
    ensures Split(Strip(Render(p))) == p
  {
    JoinNormalEnds(p);
    assert LStrip(Render(p)) == LStrip(Render(p)[1..]);
    assert Render(p)[1..] == Join(p);
    SplitJoin(p);
  }

  lemma {:induction false} JoinSnoc(p: Path, name: string)
    ensures Join(p + [name]) == if p == [] then name else Join(p) + "/" + name
  {
    if p != [] {
      assert (p + [name])[1..] == p[1..] + [name];
      JoinSnoc(p[1..], name);
    }
  }

  lemma {:induction false} TailStartAfter(head: string, name: string)
    requires SlashFree(name)
    ensures TailStart(head + "/" + name) == |head| + 1
    ensures Basename(head + "/" + name) == name
  {
    var s := head + "/" + name;
    if name != "" {
      var n := |name| - 1;
      assert s[..|s| - 1] == head + "/" + name[..n];
      TailStartAfter(head, name[..n]);
    }
  }

  /** `dirname` and `basename` take a normalised path apart into parent and last component. */
  lemma DirnameBasename(p: Path, name: string)
    requires Normal(p) && NormalName(name)
    ensures Dirname(Render(p + [name])) == Render(p)
    ensures Basename(Render(p + [name])) == name
  {
    var head := if p == [] then "" else Render(p);
    RenderSnoc(p, name);
    TailStartAfter(head, name);
    var s := head + "/" + name;
    assert s[..|head| + 1] == head + "/";
    assert Dirname(s) == if RStrip(head + "/") == "" then head + "/" else RStrip(head + "/");
    if p == [] {
      assert head + "/" == "/" == Render([]);
      assert "/"[..0] == "" && RStrip("/") == "";
    } else {
      HeadStripped(p);
      assert |Render(p)| > 0;
    }
  }

  lemma RenderSnoc(p: Path, name: string)
    ensures Render(p + [name]) == (if p == [] then "" else Render(p)) + "/" + name
  {
    JoinSnoc(p, name);
  }

  lemma HeadStripped(p: Path)
    requires Normal(p) && p != []
    ensures RStrip(Render(p) + "/") == Render(p)
  {
    var head := Render(p);
    assert (head + "/")[..|head|] == head;
    JoinNormalEnds(p);
    assert head[|head| - 1] == Join(p)[|Join(p)| - 1];
  }

  // ---------------------------------------------------------------- resolve_path

  lemma {:induction false} FoldConcat(stack: Path, a: seq<string>, b: seq<string>)
    ensures Fold(stack, a + b) == Fold(Fold(stack, a), b)
    decreases |a|
  {
    if a == [] {
      assert a + b == b;
    } else {
      assert (a + b)[1..] == a[1..] + b;
      FoldConcat(Push(stack, a[0]), a[1..], b);
    }
  }

  lemma {:induction false} FoldNormal(stack: Path, p: Path)
    requires Normal(p)
    ensures Fold(stack, p) == stack + p
    decreases |p|
  {
    if p == [] {
      assert stack + p == stack;
    } else {
      assert NormalName(p[0]);
      FoldNormal(stack + [p[0]], p[1..]);
      assert stack + [p[0]] + p[1..] == stack + p;
    }
  }

  lemma {:induction false} FoldKeepsNormal(stack: Path, pieces: seq<string>)
    requires Normal(stack)
    requires forall i | 0 <= i < |pieces| :: SlashFree(pieces[i])
    ensures Normal(Fold(stack, pieces))
    decreases |pieces|
  {
    if pieces != [] {
      FoldKeepsNormal(Push(stack, pieces[0]), pieces[1..]);
    }
  }

  lemma {:induction false} SplitPiecesSlashFree(s: string)
    ensures forall i | 0 <= i < |Split(s)| :: SlashFree(Split(s)[i])
  {
    if s != "" {
      SplitPiecesSlashFree(s[1..]);
    }
  }

  /** Trailing slashes only add empty pieces, which the fold skips. */
  lemma {:induction false} FoldRStrip(stack: Path, s: string)
    ensures Fold(stack, Split(RStrip(s))) == Fold(stack, Split(s))
  {
    if s != "" && s[|s| - 1] == '/' {
      var t := s[..|s| - 1];
      assert s == t + "/" + "";
      SplitConcat(t, "");
      FoldConcat(stack, Split(t), [""]);
      assert Fold(Fold(stack, Split(t)), [""]) == Fold(stack, Split(t));
      FoldRStrip(stack, t);
    }
  }

  /** What one more piece does to a resolved path. */
  lemma ResolvedPiece(spec: string, cwd: Path, home: string, piece: string)
    requires Normal(cwd) && spec != "" && spec != "~" && SlashFree(piece)
    ensures Resolved(spec + "/" + piece, Render(cwd), home) == Push(Resolved(spec, Render(cwd), home), piece)
  {
    var path, longer := Expand(spec, home), spec + "/" + piece;
    assert Expand(longer, home) == path + "/" + piece by {
      assert "~/" <= longer <==> "~/" <= spec;
      assert "~/" <= spec ==> longer[1..] == spec[1..] + "/" + piece;
      assert "~/" <= spec ==> home + (spec[1..] + "/" + piece) == home + spec[1..] + "/" + piece;
    }
    assert path != "";
    assert Absolute(path + "/" + piece) <==> Absolute(path);
    SplitConcat(path, piece);
    SplitSlashFree(piece);
    FoldConcat(if Absolute(path) then [] else NonEmpty(Split(Render(cwd))), Split(path), [piece]);
    assert [piece][1..] == [];
  }

  /** `..` after a path is the parent of what the path is, and the root is its own parent. */
  lemma DotDotIsParent(spec: string, cwd: Path, home: string)
    requires Normal(cwd) && spec != "" && spec != "~"
    ensures var r := Resolved(spec, Render(cwd), home);
            Resolved(spec + "/..", Render(cwd), home) == if r == [] then [] else Front(r)
  {
    ResolvedPiece(spec, cwd, home, "..");
    assert spec + "/" + ".." == spec + "/..";
  }

  /** `.` stays, and any other name goes down. */
  lemma NameGoesDown(spec: string, cwd: Path, home: string, name: string)
    requires Normal(cwd) && spec != "" && spec != "~" && NormalName(name)
    ensures var r := Resolved(spec, Render(cwd), home);
            && Resolved(spec + "/" + name, Render(cwd), home) == r + [name]
            && Resolved(spec + "/.", Render(cwd), home) == r && Resolved(spec + "/", Render(cwd), home) == r
  {
    ResolvedPiece(spec, cwd, home, name);
    ResolvedPiece(spec, cwd, home, ".");
    ResolvedPiece(spec, cwd, home, "");
    assert spec + "/" + "." == spec + "/." && spec + "/" + "" == spec + "/";
  }

  lemma OnePieceFrom(cwd: Path, home: string, piece: string)
    requires Normal(cwd) && SlashFree(piece)
    ensures Resolved(piece, Render(cwd), home) == Push(cwd, piece)
  {
    assert Expand(piece, home) == piece by {
      assert "~/"[1] == '/';
    }
    SplitRender(cwd);
    SplitSlashFree(piece);
    hide Split, Render, NonEmpty, Expand;
    assert [piece][1..] == [];
    assert Fold(cwd, [piece]) == Fold(Push(cwd, piece), []);
  }

  /** From a working directory: `..` is its parent, `.` is itself, and a name is a child. */
  lemma FromHere(cwd: Path, home: string, name: string)
    requires Normal(cwd) && NormalName(name)
    ensures Resolved("..", Render(cwd), home) == if cwd == [] then [] else Front(cwd)
    ensures Resolved(".", Render(cwd), home) == cwd && Resolved(name, Render(cwd), home) == cwd + [name]
  {
    OnePieceFrom(cwd, home, "..");
    OnePieceFrom(cwd, home, ".");
    OnePieceFrom(cwd, home, name);
  }

  /** `~/` stands for the home directory, and only in front of a path. */
  lemma TildeIsHome(x: string, cwd: string, home: string)
    requires home != "~" && !("~/" <= home)
    ensures Resolved("~/" + x, cwd, home) == Resolved(home + "/" + x, cwd, home)
  {
    assert ("~/" + x)[1..] == "/" + x;
    assert home + ("/" + x) == home + "/" + x;
    assert !("~/" <= home + "/" + x) by {
      var s := home + "/" + x;
      if |home| >= 2 {
        assert s[..2] == home[..2];
      } else if |home| == 1 {
        assert s[0] == home[0] && home == [home[0]];
      } else {
        assert s[0] == '/';
      }
    }
  }

  /** The result of `resolve_path` is normalised when the working directory is. */
  lemma ResolvedNormal(spec: string, cwd: Path, home: string)
    requires Normal(cwd)
    ensures Normal(Resolved(spec, Render(cwd), home))
  {
    SplitRender(cwd);
    var path := Expand(spec, home);
    SplitPiecesSlashFree(path);
    FoldKeepsNormal(if Absolute(path) then [] else cwd, Split(path));
  }

  lemma ResolvedRender(p: Path, cwd: string, home: string)
    requires Normal(p)
    ensures Resolved(Render(p), cwd, home) == p
  {
    SplitRender(p);
    if p != [] {
      assert ([""] + p)[1..] == p;
      assert Fold([], [""] + p) == Fold([], p);
      FoldNormal([], p);
      assert [] + p == p;
    } else {
      assert Fold([], ["", ""]) == Fold([], ["", ""][1..]);
    }
  }

  /** Resolving a path that was already resolved changes nothing, from any working directory. */
  lemma ResolveIdempotent(spec: string, cwd: Path, home: string, elsewhere: string)
    requires Normal(cwd)
    ensures var r := Resolved(spec, Render(cwd), home);
            Resolved(Render(r), elsewhere, home) == r
  {
    ResolvedNormal(spec, cwd, home);
    ResolvedRender(Resolved(spec, Render(cwd), home), elsewhere, home);
  }

  /** A relative path means the same as the working directory, a slash and that path. */
  lemma ResolveRelative(spec: string, cwd: Path, home: string, elsewhere: string)
    requires Normal(cwd)
    requires spec != "" && !Absolute(spec) && !("~/" <= spec)
    ensures Resolved(spec, Render(cwd), home) == Resolved(Render(cwd) + "/" + spec, elsewhere, home)
  {
    SplitRender(cwd);
    SplitConcat(Render(cwd), spec);
    FoldConcat([], Split(Render(cwd)), Split(spec));
    ResolvedRender(cwd, elsewhere, home);
  }

  /** Changing to `a` and then following `b` is following `a/b`. */
  lemma ResolveCompose(a: string, b: string, cwd: Path, home: string)
    requires Normal(cwd)
    requires a != "" && a != "~"
    requires b != "" && !Absolute(b) && !("~/" <= b)
    ensures Resolved(b, Render(Resolved(a, Render(cwd), home)), home)
         == Resolved(a + "/" + b, Render(cwd), home)
  {
    hide Split, Fold, Render, Normal;
    var mid := Resolved(a, Render(cwd), home);
    ResolvedNormal(a, cwd, home);
    SplitRender(mid);
    var ab := a + "/" + b;
    assert "~/" <= ab <==> "~/" <= a by {
      if |a| >= 2 { assert ab[..2] == a[..2]; } else { assert a[0] == ab[0]; }
    }
    assert Expand(ab, home) == Expand(a, home) + "/" + b by {
      if "~/" <= a { assert ab[1..] == a[1..] + "/" + b; }
    }
    var path := Expand(a, home);
    SplitConcat(path, b);
    assert Absolute(path + "/" + b) <==> Absolute(path);
    var start := if Absolute(path) then [] else NonEmpty(Split(Render(cwd)));
    FoldConcat(start, Split(path), Split(b));
  }
}
