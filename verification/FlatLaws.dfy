/** What single filesystem calls mean on normalised paths, what undoes them, and where they go wrong. */
module FlatLaws {
  import opened Paths
  import opened FlatFs
  import opened FlatLinks
  import opened FlatOps

  lemma RStripRender(p: Path)
    requires Normal(p) && p != []
    ensures RStrip(Render(p)) == Render(p) && Strip(Render(p)) == Join(p) && Join(p) != ""
  {
    JoinNormalEnds(p);
    assert Render(p)[1..] == Join(p);
    assert LStrip(Render(p)) == LStrip(Join(p)) == Join(p);
  }

  lemma DirnameOfName(name: string)
    requires SlashFree(name)
    ensures Dirname(name) == ""
  {
    SlashFreeTail(name);
    assert name[..0] == "";
  }

  lemma DirnameOfJoin(p: Path, name: string)
    requires Normal(p) && p != [] && SlashFree(name)
    ensures Dirname(Join(p) + "/" + name) == Join(p)
  {
    TailStartAfter(Join(p), name);
    JoinStripped(p);
    hide RStrip, TailStart, Join;
    assert (Join(p) + "/" + name)[..|Join(p)| + 1] == Join(p) + "/";
  }

  lemma PartsOfJoin(p: Path)
    requires Normal(p)
    ensures NonEmpty(Split(Join(p))) == p
  {
    if p != [] {
      SplitJoin(p);
      NonEmptyNormal(p);
    }
  }

  /** `mkdir` takes `dirname` of the stripped path, without the leading slash; it is the same directory. */
  lemma DirOfStripped(v: View, fuel: nat, p: Path, name: string)
    requires Normal(p) && NormalName(name)
    ensures LookUpDir(v, fuel, Dirname(Strip(Render(p + [name])))) == LookUpDir(v, fuel, Render(p))
  {
    RStripRender(p + [name]);
    JoinSnoc(p, name);
    SplitRender(p);
    PartsOfJoin(p);
    if p == [] {
      DirnameOfName(name);
      assert Join(p) == "";
    } else {
      DirnameOfJoin(p, name);
    }
    hide Walk, Render, NonEmpty, Split, Strip, Dirname, Join;
  }

  lemma JoinStripped(p: Path)
    requires Normal(p) && p != []
    ensures RStrip(Join(p) + "/") == Join(p) && Join(p) != ""
  {
    assert (Join(p) + "/")[..|Join(p)|] == Join(p);
    JoinNormalEnds(p);
  }

  lemma {:induction false} SlashFreeTail(s: string)
    requires SlashFree(s)
    ensures TailStart(s) == 0
  {
    if s != "" {
      SlashFreeTail(s[..|s| - 1]);
    }
  }

  /** A plain path: normalised, its parent there, and no link on the way to it. */
  ghost predicate Plain(v: View, p: Path, name: string) {
    && WellFormed(v) && Normal(p) && NormalName(name)
    && LinkFree(v, p + [name]) && p in v
  }

  lemma PlainParent(v: View, fuel: nat, p: Path, name: string)
    requires WellFormed(v) && Normal(p) && NormalName(name) && LinkFree(v, p + [name])
    ensures Normal(p + [name])
    ensures Dirname(Render(p + [name])) == Render(p) && Basename(Render(p + [name])) == name
    ensures LookUpDir(v, fuel, Render(p)) == if p in v then Found(p) else Missing
  {
    var q := p + [name];
    DirnameBasename(p, name);
    assert forall k | 0 <= k < |p| :: q[..k] == p[..k];
    assert q[..|p|] == p;
    LinkFreeLookUp(v, fuel, p);
  }

  /** A normalised path through any links: where its parent is, and what its last component leads to. */
  lemma PathEnds(v: View, fuel: nat, p: Path, name: string)
    requires [] in v && Normal(p) && NormalName(name)
    ensures Normal(p + [name]) && Dirname(Render(p + [name])) == Render(p) && Basename(Render(p + [name])) == name
    ensures var d := LookUpDir(v, fuel, Render(p));
            && d == Walk(v, true, "", fuel, [], p)
            && LookUp(v, true, fuel, Render(p + [name])) == if d.Found? then Step(v, true, "", fuel, d.path, name) else d
  {
    DirnameBasename(p, name);
    SplitRender(p);
    SplitRender(p + [name]);
    WalkersAgree(v, fuel, p + [name]);
    WalkConcat(v, true, "", fuel, [], p, [name]);
    assert [name][1..] == [];
  }

  // ---------------------------------------------------------------- creating

  /** `mkfile` on any normalised path whose parent is found: the file is there, whatever was at or under its name is
      not, nothing else changed. */
  lemma MkFileMeaning(s: FlatState, fuel: nat, p: Path, name: string, a: Attr)
    requires WellFormed(s.view) && Normal(p) && NormalName(name) && s.newcount <= NEW_LIMIT && !Special(Render(p))
    ensures var n, d := MkFileOp(s, fuel, Render(p + [name]), a), LookUpDir(s.view, fuel, Render(p));
            if !d.Found? then n == LookError(s, d)
            else
              && n.Next? && n.outcome == Done && n.state.newcount == s.newcount + 1
              && (forall k :: k in n.state.view <==> k == d.path + [name] || (k in s.view && !(d.path + [name] <= k)))
              && (forall k | k in n.state.view :: n.state.view[k] == if k == d.path + [name] then a else s.view[k])
  {
    PathEnds(s.view, fuel, p, name);
  }

  lemma MkDirIn(s: FlatState, fuel: nat, path: string, a: Attr, d: Look)
    requires s.newcount <= NEW_LIMIT && Strip(path) != "" && LookUpDir(s.view, fuel, Dirname(Strip(path))) == d
    ensures MkDirOp(s, fuel, path, a) ==
              if !d.Found? then LookError(s, d)
              else if d.path + [Basename(path)] in s.view then Duplicate(d.path, Basename(path))
              else Next(FlatState(s.view[d.path + [Basename(path)] := a], s.newcount + 1), Done)
  {
  }

  /** `mkdir` on any normalised path keeps names unique exactly when the name is new; then only that key is added. */
  lemma MkDirMeaning(s: FlatState, fuel: nat, p: Path, name: string, a: Attr)
    requires WellFormed(s.view) && Normal(p) && NormalName(name) && s.newcount <= NEW_LIMIT
    ensures var n, d := MkDirOp(s, fuel, Render(p + [name]), a), LookUpDir(s.view, fuel, Render(p));
            if !d.Found? then n == LookError(s, d)
            else
              && (n == Duplicate(d.path, name) <==> d.path + [name] in s.view)
              && (d.path + [name] !in s.view ==> n == Next(FlatState(s.view[d.path + [name] := a], s.newcount + 1), Done))
  {
    RootIsNoLink(s.view);
    hide WellFormed, LookUpDir, LookUp, Walk, Step, Render, Join, Strip, RStrip, Dirname, Basename, MkDirOp;
    PathEnds(s.view, fuel, p, name);
    RStripRender(p + [name]);
    DirOfStripped(s.view, fuel, p, name);
    MkDirIn(s, fuel, Render(p + [name]), a, LookUpDir(s.view, fuel, Render(p)));
  }

  /** `mkdir2` asks `getfile` first, which hides a dangling link: on every normalised path, that is the one case in
      which it makes a second entry. */
  lemma MkDir2Duplicates(s: FlatState, fuel: nat, p: Path, name: string, a: Attr)
    requires WellFormed(s.view) && Normal(p) && NormalName(name) && s.newcount <= NEW_LIMIT
    ensures var n, d := MkDir2Op(s, fuel, Render(p + [name]), a), LookUpDir(s.view, fuel, Render(p));
            && (n.Duplicate? <==>
                  d.Found? && IsLink(s.view, d.path + [name]) && LookUp(s.view, true, fuel, Render(p + [name])) == Missing)
            && (n.Duplicate? ==> n == Duplicate(d.path, name))
  {
    RootIsNoLink(s.view);
    hide WellFormed, LookUpDir, Walk, Render, MkDirOp, Normal, NormalName;
    PathEnds(s.view, fuel, p, name);
    MkDirMeaning(s, fuel, p, name, a);
  }

  /** Where it makes one, it is a directory of root that all may enter and only root may change: mode 040755. */
  lemma MkDir2Meaning(s: FlatState, fuel: nat, p: Path, name: string, ctime: int)
    requires WellFormed(s.view) && Normal(p) && NormalName(name) && s.newcount <= NEW_LIMIT
    ensures var n, d := Apply(s, fuel, MkDir2(Render(p + [name]), ctime)), LookUpDir(s.view, fuel, Render(p));
            d.Found? && d.path + [name] !in s.view ==>
              n == Next(FlatState(s.view[d.path + [name] := Attr(Dir, 0, 0, 4096, 4 * 4096 + 7 * 64 + 5 * 8 + 5, ctime, "")], s.newcount + 1), Done)
  {
    RootIsNoLink(s.view);
    PathEnds(s.view, fuel, p, name);
    MkDirMeaning(s, fuel, p, name, Attr(Dir, 0, 0, 4096, 16877, ctime, ""));
    hide WellFormed, LookUpDir, Walk, Render, MkDirOp, Normal, NormalName;
  }

  /** What making files and directories refuses outright: everything once more than 10000 were made, and files below
      paths that begin like `/sys`, `/proc` or `/dev/pts`, whether or not that is where a component ends. */
  lemma MakingRefusedIff(s: FlatState, fuel: nat, p: Path, name: string, a: Attr)
    requires WellFormed(s.view) && Normal(p) && NormalName(name)
    ensures var f, d, dir := MkFileOp(s, fuel, Render(p + [name]), a), MkDirOp(s, fuel, Render(p + [name]), a), Render(p);
            && (f == Next(s, Full) <==> s.newcount > 10000)
            && (f == Error(s, Denied) <==> s.newcount <= 10000 && ("/sys" <= dir || "/proc" <= dir || "/dev/pts" <= dir))
            && (d == Error(s, Quota) <==> s.newcount > 10000)
  {
    RootIsNoLink(s.view);
    PathEnds(s.view, fuel, p, name);
    RStripRender(p + [name]);
    hide WellFormed, Walk, Step, LookUp, LookUpDir, Render, Dirname, Basename, Strip, Without;
    var f, d := MkFileOp(s, fuel, Render(p + [name]), a), MkDirOp(s, fuel, Render(p + [name]), a);
    if s.newcount <= NEW_LIMIT {
      assert f.Next? && f.outcome != Full;
      assert d != Error(s, Quota);
    }
  }

  // ---------------------------------------------------------------- how the two walkers read a path

  /** `get_path` skips empty parts, so a doubled slash changes nothing for it. */
  lemma DoubledSlashSkipped(v: View, fuel: nat, a: string, b: string)
    ensures LookUpDir(v, fuel, a + "//" + b) == LookUpDir(v, fuel, a + "/" + b)
  {
    assert a + "//" + b == a + "/" + ("/" + b) && "" + "/" + b == "/" + b;
    SplitConcat(a, "/" + b);
    SplitConcat("", b);
    SplitConcat(a, b);
    var rest := Split("/" + b);
    assert rest == [""] + Split(b) && rest[1..] == Split(b);
    assert NonEmpty(rest) == NonEmpty(Split(b)) by { assert [] + NonEmpty(Split(b)) == NonEmpty(Split(b)); }
    NonEmptyConcat(Split(a), rest);
    NonEmptyConcat(Split(a), Split(b));
    hide Split, NonEmpty, Walk;
  }

  lemma {:induction false} NonEmptyConcat(a: seq<string>, b: seq<string>)
    ensures NonEmpty(a + b) == NonEmpty(a) + NonEmpty(b)
  {
    if a == [] {
      assert a + b == b;
    } else {
      assert (a + b)[1..] == a[1..] + b;
      NonEmptyConcat(a[1..], b);
    }
  }

  /** `getfile` takes an empty part for a name, and so finds nothing beyond a doubled slash unless an entry has no name. */
  lemma DoubledSlashMissing(v: View, fuel: nat, p: Path, q: Path)
    requires WellFormed(v) && Normal(p) && Normal(q) && p != [] && q != [] && forall k | k in v :: "" !in k
    ensures var d := LookUpDir(v, fuel, Render(p));
            LookUp(v, true, fuel, Render(p) + "//" + Join(q)) == if d.Found? then Missing else d
  {
    RootIsNoLink(v);
    var path := Render(p) + "//" + Join(q);
    JoinNormalEnds(p);
    JoinNormalEnds(q);
    StripBoth(p, q);
    SplitRender(p);
    SplitJoinNormal(p);
    SplitJoinNormal(q);
    hide WellFormed, Split, Strip, Join, Walk, NonEmpty;
    var pieces := p + ([""] + q);
    assert Pieces(path) == pieces;
    LastIsIgnored(v, Last(pieces), "", fuel, [], pieces);
    WalkConcat(v, true, "", fuel, [], p, [""] + q);
    NamelessStep(v, fuel, Walk(v, true, "", fuel, [], p), q);
  }

  lemma SplitJoinNormal(p: Path)
    requires Normal(p) && p != []
    ensures Split(Join(p)) == p
  {
    SplitJoin(p);
  }

  lemma StripBoth(p: Path, q: Path)
    requires Normal(p) && Normal(q) && p != [] && q != []
    ensures var path := Render(p) + "//" + Join(q);
            path != "/" && Split(Strip(path)) == Split(Join(p)) + ([""] + Split(Join(q)))
  {
    JoinNormalEnds(p);
    JoinNormalEnds(q);
    var path, rest := Render(p) + "//" + Join(q), Join(p) + "//" + Join(q);
    assert path[1..] == rest;
    assert LStrip(path) == LStrip(rest) == rest;
    assert rest[|rest| - 1] == Join(q)[|Join(q)| - 1];
    assert RStrip(rest) == rest;
    assert rest == Join(p) + "/" + ("/" + Join(q)) && "" + "/" + Join(q) == "/" + Join(q);
    SplitConcat(Join(p), "/" + Join(q));
    SplitConcat("", Join(q));
  }

  lemma NamelessStep(v: View, fuel: nat, d: Look, q: Path)
    requires (d.Found? ==> d.path in v) && forall k | k in v :: "" !in k
    ensures d.Found? ==> Walk(v, true, "", fuel, d.path, [""] + q) == Missing
  {
    if d.Found? {
      var k := d.path + [""];
      assert k[|d.path|] == "";
      assert ([""] + q)[0] == "";
    }
  }

  /** A link leads where its target leads from the root, also where the target is relative. */
  lemma LinkLeadsFromRoot(v: View, fuel: nat, parent: Path, name: string, d: Path)
    requires WellFormed(v) && Normal(parent) && NormalName(name) && fuel > 0
    requires LookUpDir(v, fuel, Render(parent)) == Found(d) && IsLink(v, d + [name]) && v[d + [name]].target != ""
    ensures var t := v[d + [name]].target;
            && LookUp(v, true, fuel, Render(parent + [name])) == LookUp(v, true, fuel - 1, t)
            && (t[0] != '/' ==> LookUp(v, true, fuel, Render(parent + [name])) == LookUp(v, true, fuel - 1, "/" + t))
  {
    LookUpThrough(v, fuel, parent, name, d);
    RawTarget(v, true, fuel - 1, v[d + [name]].target);
    hide LookUp, LookUpDir, Render, WellFormed;
  }

  // ---------------------------------------------------------------- removing

  /** On any normalised path, links included, `remove` succeeds exactly when `getfile` finds the node, and
      takes away that node and what is below it. */
  lemma RemoveMeaning(s: FlatState, fuel: nat, p: Path, name: string)
    requires WellFormed(s.view) && Normal(p) && NormalName(name)
    ensures var path := Render(p + [name]);
            var r := LookUp(s.view, false, fuel, path);
            RemoveOp(s, fuel, path) ==
              match r
              case Found(q) => Next(s.(view := Without(s.view, q)), Done)
              case Missing => Error(s, NotFound)
              case Endless => Error(s, Diverges)
  {
    DirnameBasename(p, name);
    if LookUp(s.view, false, fuel, Render(p + [name])).Found? {
      NoFollowChild(s.view, fuel, p, name);
      var d := LookUpDir(s.view, fuel, Render(p));
      assert Front(d.path + [name]) == d.path;
    }
  }

  /** On any normalised path, what `rmdir` removes is one childless directory, and nothing besides. */
  lemma RmDirMeaning(s: FlatState, fuel: nat, p: Path, name: string)
    requires WellFormed(s.view) && Normal(p) && NormalName(name)
    ensures var path := Render(p + [name]);
            var n := RmDirOp(s, fuel, path);
            var r := LookUp(s.view, false, fuel, path);
            && n.Next?
            && (n.outcome == Done <==> r.Found? && s.view[r.path].kind.Dir? && !HasChild(s.view, r.path))
            && (n.outcome == Done ==> n.state.view == s.view - {r.path})
            && (n.outcome != Done ==> n.state == s)
  {
    var q := p + [name];
    DirnameBasename(p, name);
    RStripRender(q);
    var r := LookUp(s.view, false, fuel, Render(q));
    if r.Found? {
      NoFollowChild(s.view, fuel, p, name);
      if s.view[r.path].kind.Dir? {
        StripRender(q);
        NoFollowAgrees(s.view, name, fuel, [], q);
        WalkersAgree(s.view, fuel, q);
        if !HasChild(s.view, r.path) {
          ChildlessWithout(s.view, r.path);
        }
      }
    }
  }

  lemma NoDescendants(v: View, q: Path, k: Path)
    requires WellFormed(v) && !HasChild(v, q) && k in v
    ensures q <= k ==> k == q
  {
    if |k| > |q| {
      PrefixPresent(v, k, |q| + 1);
      assert Front(k[..|q| + 1]) == k[..|q|];
    }
  }

  lemma ChildlessWithout(v: View, q: Path)
    requires WellFormed(v) && !HasChild(v, q)
    ensures Without(v, q) == v - {q}
  {
    forall k | k in v && q <= k ensures k == q {
      NoDescendants(v, q, k);
    }
  }

  /** A new leaf is found, has no children, and taking it away restores the map. */
  lemma LeafAdded(v: View, fuel: nat, p: Path, name: string, a: Attr)
    requires Plain(v, p, name) && !v[p].kind.Link? && p + [name] !in v && !a.kind.Link?
    ensures var q := p + [name];
            var t := v[q := a];
            && WellFormed(t) && LookUp(t, false, fuel, Render(q)) == Found(q)
            && !HasChild(t, q) && Without(t, q) == v && t - {q} == v
  {
    var q := p + [name];
    var t := v[q := a];
    assert WellFormed(t) && Without(v, q) == v by {
      FreshPut(v, q, a);
      PutWellFormed(v, p, name, a);
    }
    assert Without(t, q) == Without(v, q);
    assert t - {q} == v;
    assert LookUp(t, false, fuel, Render(q)) == Found(q) by {
      assert Normal(q) by { PlainParent(v, fuel, p, name); }
      assert forall k | 0 <= k < |q| :: |q[..k]| < |q|;
      LinkFreeLookUp(t, fuel, q);
    }
    forall k | k in t && k != [] ensures Front(k) != q {
      assert k == q || (k in v && Front(k) in v);
    }
  }

  /** `rmdir` undoes `mkdir` of a new name. */
  lemma MkDirRmDir(s: FlatState, fuel: nat, p: Path, name: string, a: Attr)
    requires Plain(s.view, p, name) && s.newcount <= NEW_LIMIT && !s.view[p].kind.Link?
    requires p + [name] !in s.view && a.kind.Dir?
    ensures var path := Render(p + [name]);
            var n := MkDirOp(s, fuel, path, a);
            n.Next? && RmDirOp(n.state, fuel, path) == Next(n.state.(view := s.view), Done)
  {
    PlainParent(s.view, fuel, p, name);
    MkDirMeaning(s, fuel, p, name, a);
    LeafAdded(s.view, fuel, p, name, a);
    var t := MkDirOp(s, fuel, Render(p + [name]), a).state;
    RmDirMeaning(t, fuel, p, name);
    assert RmDirOp(t, fuel, Render(p + [name])).outcome == Done;
    RmDirKeepsCount(t, fuel, Render(p + [name]));
  }

  lemma RmDirKeepsCount(s: FlatState, fuel: nat, path: string)
    ensures RmDirOp(s, fuel, path).state.newcount == s.newcount
  {
  }

  /** `remove` undoes `mkfile` of a new name. */
  lemma MkFileRemove(s: FlatState, fuel: nat, p: Path, name: string, a: Attr)
    requires Plain(s.view, p, name) && s.newcount <= NEW_LIMIT && !Special(Render(p)) && !s.view[p].kind.Link?
    requires p + [name] !in s.view && a.kind.File?
    ensures var path := Render(p + [name]);
            var n := MkFileOp(s, fuel, path, a);
            n.Next? && RemoveOp(n.state, fuel, path) == Next(n.state.(view := s.view), Done)
  {
    var q := p + [name];
    PlainParent(s.view, fuel, p, name);
    MkFileMeaning(s, fuel, p, name, a);
    var t := MkFileOp(s, fuel, Render(q), a).state;
    LeafAdded(s.view, fuel, p, name, a);
    FreshPut(s.view, q, a);
    assert t.view == s.view[q := a];
    RemoveMeaning(t, fuel, p, name);
  }

  // ---------------------------------------------------------------- attributes

  /** Only the entry found may change, and keeps its kind, its time and its target. */
  ghost predicate OnlyEntry(s: FlatState, n: Next, q: Path) {
    && q in s.view && n.Next? && n.outcome == Done && n.state.newcount == s.newcount && n.state.view.Keys == s.view.Keys
    && (forall k | k in s.view && k != q :: n.state.view[k] == s.view[k])
    && var a, a' := s.view[q], n.state.view[q]; a'.kind == a.kind && a'.ctime == a.ctime && a'.target == a.target
  }

  /** `chmod` sets the twelve permission bits as asked, keeps the four bits of the file type, and changes nothing else. */
  lemma ChmodMeaning(s: FlatState, fuel: nat, path: string, perm: bv32)
    requires perm < 0x1000
    ensures var n, r := Apply(s, fuel, Chmod(path, perm)), LookUp(s.view, true, fuel, path);
            && (r.Missing? ==> n == Error(s, NotFound))
            && (r.Found? ==>
                  && OnlyEntry(s, n, r.path)
                  && var a, a' := s.view[r.path], n.state.view[r.path];
                     && a'.mode & 0xFFF == perm && a'.mode & 0xF000 == a.mode & 0xF000 && a'.mode < 0x1_0000
                     && a'.uid == a.uid && a'.gid == a.gid && a'.size == a.size)
  {
    var r := LookUp(s.view, true, fuel, path);
    if r.Found? {
      ModeBits(s.view[r.path].mode, perm);
    }
    hide LookUp;
  }

  lemma ModeBits(m: bv32, perm: bv32)
    requires perm < 0x1000
    ensures var m' := (m & S_IFMT_MASK) | perm; m' & 0xFFF == perm && m' & 0xF000 == m & 0xF000 && m' < 0x1_0000
  {
  }

  /** `chown` sets owner and group, each but where -1 is asked for, and changes nothing else. */
  lemma ChownMeaning(s: FlatState, fuel: nat, path: string, uid: int, gid: int)
    ensures var n, r := Apply(s, fuel, Chown(path, uid, gid)), LookUp(s.view, true, fuel, path);
            && (r.Missing? ==> n == Error(s, NotFound))
            && (r.Found? ==>
                  && OnlyEntry(s, n, r.path)
                  && var a, a' := s.view[r.path], n.state.view[r.path];
                     && (uid == -1 ==> a'.uid == a.uid) && (uid != -1 ==> a'.uid == uid)
                     && (gid == -1 ==> a'.gid == a.gid) && (gid != -1 ==> a'.gid == gid)
                     && a'.mode == a.mode && a'.size == a.size)
  {
  }

  /** `update_size` sets the size of a regular file, leaves everything else alone, and passes over a missing path. */
  lemma UpdateSizeMeaning(s: FlatState, fuel: nat, path: string, size: int)
    ensures var n, r := Apply(s, fuel, UpdateSize(path, size)), LookUp(s.view, true, fuel, path);
            && (r.Missing? ==> n == Next(s, Done))
            && (r.Found? ==>
                  && OnlyEntry(s, n, r.path)
                  && var a, a' := s.view[r.path], n.state.view[r.path];
                     a'.size == (if a.kind.File? then size else a.size) && a'.uid == a.uid && a'.gid == a.gid && a'.mode == a.mode)
  {
  }

  // ---------------------------------------------------------------- renaming

  /** Both ends of a rename are normalised, with no link on the way or at the end. */
  ghost predicate PlainEnds(v: View, p: Path, name: string, p2: Path, name2: string) {
    && WellFormed(v) && Normal(p) && NormalName(name) && Normal(p2) && NormalName(name2)
    && LinkFree(v, p + [name]) && !IsLink(v, p + [name])
    && LinkFree(v, p2 + [name2]) && !IsLink(v, p2 + [name2])
  }

  /** `rename` between plain paths, in full. It moves exactly the keys at and under the old path, provided the
      new parent exists and does not lie inside the old path; otherwise the old subtree is lost. */
  lemma RenameMeaning(s: FlatState, fuel: nat, p: Path, name: string, p2: Path, name2: string)
    requires PlainEnds(s.view, p, name, p2, name2)
    ensures var from, to := p + [name], p2 + [name2];
            RenameOp(s, fuel, Render(from), Render(to)) ==
              if from !in s.view then Error(s, NotFound)
              else if to in s.view then Error(s, Exists)
              else if p2 in s.view && !(from <= p2) then Next(s.(view := Move(s.view, from, to)), Done)
              else Error(s.(view := Without(s.view, from)), NotFound)
  {
    var from, to := p + [name], p2 + [name2];
    PlainParent(s.view, fuel, p, name);
    PlainParent(s.view, fuel, p2, name2);
    LinkFreeLookUp(s.view, fuel, from);
    LinkFreeLookUp(s.view, fuel, to);
    if from in s.view && to !in s.view {
      assert Front(from) == p;
      var rest := Without(s.view, from);
      WithoutWellFormed(s.view, from);
      PlainParent(rest, fuel, p2, name2);
      assert p2 in rest <==> p2 in s.view && !(from <= p2);
    }
  }

  /** `rename` between any two normalised paths, in full. The walk to the new parent is made after the subtree has
      been taken out, so it fails also where it only passes through that subtree. */
  lemma RenameThroughLinks(s: FlatState, fuel: nat, p: Path, name: string, p2: Path, name2: string)
    requires WellFormed(s.view) && Normal(p) && NormalName(name) && Normal(p2) && NormalName(name2)
    ensures var from, to := Render(p + [name]), Render(p2 + [name2]);
            var o, n := LookUp(s.view, true, fuel, from), LookUp(s.view, true, fuel, to);
            var d, d2 := LookUpDir(s.view, fuel, Render(p)), LookUpDir(s.view, fuel, Render(p2));
            && (o.Found? ==> d.Found?)
            && RenameOp(s, fuel, from, to) ==
                 if !o.Found? then LookError(s, o)
                 else if n.Found? then Error(s, Exists)
                 else if n.Endless? then Error(s, Diverges)
                 else if o.path == [] || Front(o.path) != d.path then NotThere(s, o.path, d.path)
                 else if !d2.Found? || Passes(s.view, fuel, [], p2, o.path) then Error(s.(view := Without(s.view, o.path)), NotFound)
                 else if d2.path + [name2] in s.view then Duplicate(d2.path, name2)
                 else Next(s.(view := Move(s.view, o.path, d2.path + [name2])), Done)
  {
    hide WellFormed, MayTwin, Passes, Walk, Move, Normal;
    RootIsNoLink(s.view);
    PathEnds(s.view, fuel, p, name);
    PathEnds(s.view, fuel, p2, name2);
    var o, d2 := LookUp(s.view, true, fuel, Render(p + [name])), LookUpDir(s.view, fuel, Render(p2));
    if o.Found? && o.path != [] {
      var rest := Without(s.view, o.path);
      FoundIsNoLink(s.view, fuel, Render(p + [name]));
      WalkWithout(s.view, o.path, fuel, [], p2);
      PathEnds(rest, fuel, p2, name2);
      if d2.Found? {
        PrefixSnoc(o.path, d2.path, name2);
      }
    }
  }

  /** The failed rename that loses data, between any two normalised paths, told by what can be checked beforehand: the
      node hangs where the old path says, the new path leads nowhere, and its parent is missing or is come to only
      by way of the node. */
  lemma RenameKeepsTreeIff(s: FlatState, fuel: nat, p: Path, name: string, p2: Path, name2: string)
    requires WellFormed(s.view) && Normal(p) && NormalName(name) && Normal(p2) && NormalName(name2)
    ensures [] in s.view
    ensures var from, to := Render(p + [name]), Render(p2 + [name2]);
            var n := RenameOp(s, fuel, from, to);
            var o, d, d2 := LookUp(s.view, true, fuel, from), LookUpDir(s.view, fuel, Render(p)), LookUpDir(s.view, fuel, Render(p2));
            && (n.Next? && n.outcome != Done && n.state.view != s.view <==>
                  && o.Found? && d.Found? && o.path != [] && Front(o.path) == d.path && LookUp(s.view, true, fuel, to) == Missing
                  && (d2 == Missing || Passes(s.view, fuel, [], p2, o.path)))
  {
    RenameThroughLinks(s, fuel, p, name, p2, name2);
    PathEnds(s.view, fuel, p2, name2);
    hide RenameOp, Passes, LookUp, LookUpDir, WellFormed, MayTwin, Move;
    var o := LookUp(s.view, true, fuel, Render(p + [name]));
    assert o.Found? ==> o.path in s.view && o.path !in Without(s.view, o.path);
  }

  /** For plain paths: the new parent is missing, or lies inside the old path. */
  lemma PlainRenameKeepsTreeIff(s: FlatState, fuel: nat, p: Path, name: string, p2: Path, name2: string)
    requires PlainEnds(s.view, p, name, p2, name2)
    ensures var from, to := p + [name], p2 + [name2];
            var n := RenameOp(s, fuel, Render(from), Render(to));
            && n.Next?
            && (n.outcome != Done && n.state.view != s.view
                <==> from in s.view && to !in s.view && (p2 !in s.view || from <= p2))
  {
    RenameMeaning(s, fuel, p, name, p2, name2);
    assert p + [name] in s.view ==> p + [name] !in Without(s.view, p + [name]);
  }

  /** A key under the new path came from under the old one. */
  lemma MoveOrigin(v: View, from: Path, to: Path, k: Path)
    requires k in Move(v, from, to) && to <= k && k !in Without(v, from)
    ensures Moved(to, from, k) in v
  {
    var k0 :| k0 in v && from <= k0 && Moved(from, to, k0) == k;
    assert Moved(to, from, k) == k0;
  }

  lemma MoveBackKeeps(v: View, from: Path, to: Path, k: Path)
    requires k in v && !(to <= k)
    ensures k in Move(Move(v, from, to), to, from) && Move(Move(v, from, to), to, from)[k] == v[k]
  {
    var m := Move(v, from, to);
    if from <= k {
      MoveAt(v, from, to, k);
      MoveAt(m, to, from, Moved(from, to, k));
    } else {
      MoveElsewhere(v, from, to, k);
      MoveElsewhere(m, to, from, k);
    }
  }

  lemma MoveBackAddsNothing(v: View, from: Path, to: Path, k: Path)
    requires from in v && !(from <= to) && (forall x | x in v :: !(to <= x))
    requires k in Move(Move(v, from, to), to, from)
    ensures k in v
  {
    var m := Move(v, from, to);
    if from <= k {
      assert k !in Without(m, to) by { MoveElsewhere(v, from, to, k); assert to <= k ==> to <= from || from <= to; }
      MoveOrigin(m, to, from, k);
      MoveOrigin(v, from, to, Moved(from, to, k));
    } else {
      MoveElsewhere(m, to, from, k);
      MoveElsewhere(v, from, to, k);
    }
  }

  lemma SameMap(a: View, b: View)
    requires forall k | k in a :: k in b && b[k] == a[k]
    requires forall k | k in b :: k in a
    ensures a == b
  {
    assert a.Keys == b.Keys;
  }

  /** Moving away and back restores the map. */
  lemma MoveBack(v: View, from: Path, to: Path)
    requires WellFormed(v) && from in v && to !in v && !(from <= to)
    ensures Move(Move(v, from, to), to, from) == v
  {
    var back := Move(Move(v, from, to), to, from);
    forall k | k in v ensures !(to <= k) { NothingBelow(v, to, k); }
    forall k | k in v ensures k in back && back[k] == v[k] {
      MoveBackKeeps(v, from, to, k);
    }
    forall k | k in back ensures k in v {
      MoveBackAddsNothing(v, from, to, k);
    }
    SameMap(v, back);
  }

  /** Renaming there and back is no change at all. */
  lemma RenameThereAndBack(s: FlatState, fuel: nat, p: Path, name: string, p2: Path, name2: string)
    requires PlainEnds(s.view, p, name, p2, name2)
    requires p + [name] in s.view && p2 + [name2] !in s.view && p2 in s.view && !s.view[p2].kind.Link? && !(p + [name] <= p2)
    ensures var from, to := Render(p + [name]), Render(p2 + [name2]);
            var n := RenameOp(s, fuel, from, to);
            n.Next? && n.outcome == Done && RenameOp(n.state, fuel, to, from) == Next(s, Done)
  {
    var from, to := p + [name], p2 + [name2];
    RenameMeaning(s, fuel, p, name, p2, name2);
    var m := Move(s.view, from, to);
    assert Front(from) == p;
    PrefixSnoc(from, p2, name2);
    MoveBack(s.view, from, to);
    MoveWellFormed(s.view, from, p2, name2);
    MoveAt(s.view, from, to, from);
    assert Moved(from, to, from) == to;
    assert !(to <= p) by { FreshPut(s.view, to, s.view[from]); assert p !in s.view || p in Without(s.view, to); }
    assert !(to <= from) by { FreshPut(s.view, to, s.view[from]); assert from in Without(s.view, to); }
    forall k | 0 <= k < |to| && to[..k] in m ensures !m[to[..k]].kind.Link? {
      MoveElsewhere(s.view, from, to, to[..k]);
    }
    forall k | 0 <= k < |from| && from[..k] in m ensures !m[from[..k]].kind.Link? {
      assert !(to <= from[..k]);
      MoveElsewhere(s.view, from, to, from[..k]);
    }
    MoveElsewhere(s.view, from, to, from);
    MoveElsewhere(s.view, from, to, p);
    RenameMeaning(s.(view := m), fuel, p2, name2, p, name);
  }

  // ---------------------------------------------------------------- renaming through a link

  const PLAIN_DIR := Attr(Dir, 0, 0, 0, 0, 0, "")

  const A_FILE := Attr(File, 0, 0, 0, 0, 0, "")

  /** `/a/g` points at `/b/f`, and `/a/f` has the same fields as that. */
  const TWINS: View := map[[] := PLAIN_DIR, ["a"] := PLAIN_DIR, ["a", "f"] := A_FILE, ["a", "g"] := Attr(Link, 0, 0, 0, 0, 0, "/b/f"),
                           ["b"] := PLAIN_DIR, ["b", "f"] := A_FILE]

  lemma TwinsWellFormed()
    ensures WellFormed(TWINS) && MayTwin(TWINS, ["b", "f"], ["a", "f"])
  {
    assert Front(["a", "f"]) == ["a"] && Front(["a", "g"]) == ["a"] && Front(["b", "f"]) == ["b"];
    assert ["b", "f"][2..] == [] && ["a", "f"][2..] == [];
    assert ["a", "f"] + [] == ["a", "f"] && ["b", "f"] + [] == ["b", "f"];
    forall k | k in TWINS && ["b", "f"] <= k ensures k == ["b", "f"] {
      assert ["a", "f"][0] != "b" && ["a", "g"][0] != "b";
    }
    forall k | k in TWINS && ["a", "f"] <= k ensures k == ["a", "f"] {
      assert ["b", "f"][0] != "a" && ["a", "g"][1] != "f";
    }
  }

  /** What matters of such a tree. */
  ghost predicate LikeTwins(v: View) {
    && WellFormed(v) && LinkFree(v, ["b", "f"]) && LinkFree(v, ["c"]) && LinkFree(v, ["a"])
    && ["b", "f"] in v && !IsLink(v, ["b", "f"]) && ["c"] !in v && ["a"] in v && !IsLink(v, ["a"])
    && IsLink(v, ["a", "g"]) && v[["a", "g"]].target == "/b/f" && MayTwin(v, ["b", "f"], ["a", "f"])
  }

  lemma TwinsLook()
    ensures LikeTwins(TWINS)
  {
    TwinsWellFormed();
    assert ["b", "f"][..0] == [] && ["b", "f"][..1] == ["b"] && ["c"][..0] == [] && ["a"][..0] == [];
  }

  lemma TwinsPaths()
    ensures Render(["a"] + ["g"]) == "/a/g" && Render(["b", "f"]) == "/b/f" && Render(["c"]) == "/c"
    ensures Normal(["b", "f"]) && Normal(["c"]) && Normal(["a"]) && NormalName("g")
    ensures ["a"] + ["g"] == ["a", "g"] && ["a"] + ["f"] == ["a", "f"]
  {
    assert Join(["a", "g"]) == "a/g" by { assert ["a", "g"][1..] == ["g"]; }
    assert Join(["b", "f"]) == "b/f" by { assert ["b", "f"][1..] == ["f"]; }
  }

  /** Where `parent/name` leads when that is a link in a directory `get_path` finds. */
  lemma LookUpThrough(v: View, fuel: nat, parent: Path, name: string, d: Path)
    requires WellFormed(v) && Normal(parent) && NormalName(name) && fuel > 0
    requires LookUpDir(v, fuel, Render(parent)) == Found(d) && IsLink(v, d + [name])
    ensures LookUp(v, true, fuel, Render(parent + [name])) == LookUp(v, true, fuel - 1, LinkTarget(v[d + [name]].target))
  {
    var p := parent + [name];
    WalkersAgree(v, fuel, p);
    SplitRender(p);
    SplitRender(parent);
    WalkConcat(v, true, "", fuel, [], parent, [name]);
    assert [name][1..] == [];
    StepIs(v, true, "", fuel, d, name, v[d + [name]]);
  }

  lemma TwinsLookUps(v: View, fuel: nat)
    requires fuel > 0 && LikeTwins(v)
    ensures LookUp(v, true, fuel, "/a/g") == Found(["b", "f"])
    ensures LookUp(v, true, fuel, "/c") == Missing
    ensures LookUpDir(v, fuel, Dirname("/a/g")) == Found(["a"])
  {
    TwinsPaths();
    hide Walk, Step, LookUp, LookUpDir, LinkFree, Render, Dirname, Basename, WellFormed, MayTwin, Normal, NormalName;
    LinkFreeLookUp(v, fuel - 1, ["b", "f"]);
    LinkFreeLookUp(v, fuel, ["c"]);
    LinkFreeLookUp(v, fuel, ["a"]);
    DirnameBasename(["a"], "g");
    LookUpThrough(v, fuel, ["a"], "g", ["a"]);
  }

  lemma RenamingLikeTwins(s: FlatState, fuel: nat)
    requires fuel > 0 && LikeTwins(s.view)
    ensures RenameOp(s, fuel, "/a/g", "/c") == Twin(["a"], "f") && LookUp(s.view, true, fuel, "/a/g") == Found(["b", "f"])
  {
    TwinsPaths();
    TwinsLookUps(s.view, fuel);
    hide LookUp, LookUpDir, Render, RenameOp, Dirname, WellFormed, LinkFree, MayTwin;
    assert Front(["b", "f"]) == ["b"] && Last(["b", "f"]) == "f";
    RenameNotThere(s, fuel, "/a/g", "/c", ["b", "f"], ["a"]);
  }

  lemma RenameNotThere(s: FlatState, fuel: nat, from: string, to: string, q: Path, d: Path)
    requires LookUp(s.view, true, fuel, from) == Found(q) && LookUp(s.view, true, fuel, to) == Missing
    requires LookUpDir(s.view, fuel, Dirname(from)) == Found(d) && q != [] && Front(q) != d
    ensures RenameOp(s, fuel, from, to) == NotThere(s, q, d)
  {
  }

  /** What renaming a normalised path comes to when the node found hangs elsewhere, which only a link can bring about:
      an entry of the node's name beside the link may be equal to the node only if it looks like it on the map. */
  lemma RenameFindsTwinIff(s: FlatState, fuel: nat, p: Path, name: string, to: string)
    requires WellFormed(s.view) && Normal(p) && NormalName(name)
    ensures var from := Render(p + [name]);
            var o, n, d := LookUp(s.view, true, fuel, from), LookUp(s.view, true, fuel, to), LookUpDir(s.view, fuel, Render(p));
            var r := RenameOp(s, fuel, from, to);
            && (o.Found? ==> d.Found?)
            && (r.Twin? <==> o.Found? && n.Missing? && o.path != [] && Front(o.path) != d.path
                             && MayTwin(s.view, o.path, d.path + [Last(o.path)]))
            && (r.Twin? ==> r == Twin(d.path, Last(o.path)) && IsLink(s.view, d.path + [name]))
            && (r.Next? ==> r.outcome != Strayed)
  {
    RootIsNoLink(s.view);
    hide WellFormed, MayTwin, Walk, Render, Normal, ReinsertOp;
    PathEnds(s.view, fuel, p, name);
    NoStraying(s, fuel, Render(p + [name]), to);
  }

  lemma NoStraying(s: FlatState, fuel: nat, from: string, to: string)
    ensures var r := RenameOp(s, fuel, from, to); r.Next? ==> r.outcome != Strayed
  {
    hide MayTwin;
  }

  // ---------------------------------------------------------------- rename and link cycles

  /** `/a` points at `/b/k`, which is not there; `/c/k` points at `/a`. */
  const DANGLING: View := map[[] := PLAIN_DIR, ["a"] := Attr(Link, 0, 0, 0, 0, 0, "/b/k"),
                              ["c"] := PLAIN_DIR, ["c", "k"] := Attr(Link, 0, 0, 0, 0, 0, "/a")]

  /** `DANGLING` after `/c` became `/b`. */
  const LOOPING: View := map[[] := PLAIN_DIR, ["a"] := Attr(Link, 0, 0, 0, 0, 0, "/b/k"),
                             ["b"] := PLAIN_DIR, ["b", "k"] := Attr(Link, 0, 0, 0, 0, 0, "/a")]

  lemma PathStrings()
    ensures Render(["a"]) == "/a" && Pieces("/a") == ["a"]
    ensures Render(["b", "k"]) == "/b/k" && Pieces("/b/k") == ["b", "k"]
  {
    assert Join(["b", "k"]) == "b/k" by { assert ["b", "k"][1..] == ["k"]; }
    StripRender(["a"]);
    StripRender(["b", "k"]);
  }

  lemma {:induction false} LoopingWalks(fuel: nat)
    ensures LookUp(LOOPING, true, fuel, "/a") == Endless
    ensures LookUp(LOOPING, true, fuel, "/b/k") == Endless
  {
    PathStrings();
    assert [] + ["a"] == ["a"] && [] + ["b"] == ["b"] && ["b"] + ["k"] == ["b", "k"] && ["b", "k"][1..] == ["k"];
    if fuel > 0 {
      LoopingWalks(fuel - 1);
    }
    assert Step(LOOPING, true, "a", fuel, [], "a") == Endless;
    assert Step(LOOPING, true, "k", fuel, [], "b") == Found(["b"]);
    assert Step(LOOPING, true, "k", fuel, ["b"], "k") == Endless;
    assert Walk(LOOPING, true, "k", fuel, ["b"], ["k"]) == Endless;
  }

  lemma DanglingWalks()
    ensures WellFormed(DANGLING) && LinksSettle(DANGLING, true, 1)
  {
    PathStrings();
    assert Front(["c", "k"]) == ["c"];
    assert [] + ["a"] == ["a"] && [] + ["b"] == ["b"];
    assert LookUp(DANGLING, true, 0, "/b/k") == Missing;
    assert LookUp(DANGLING, true, 1, "/b/k") == Missing;
    assert Step(DANGLING, true, "a", 1, [], "a") == Missing;
    assert LookUp(DANGLING, true, 1, "/a") == Missing;
  }

  lemma DanglingKeysMove(k: Path)
    requires k in Move(DANGLING, ["c"], ["b"])
    ensures k in LOOPING
  {
    assert Moved(["c"], ["b"], ["c"]) == ["b"] && Moved(["c"], ["b"], ["c", "k"]) == ["b", "k"];
    if k in Without(DANGLING, ["c"]) {
      assert k in DANGLING && !(["c"] <= k);
    } else {
      var k0 :| k0 in DANGLING && ["c"] <= k0 && Moved(["c"], ["b"], k0) == k;
      assert k0 == ["c"] || k0 == ["c", "k"];
    }
  }

  lemma DanglingMoves()
    ensures Move(DANGLING, ["c"], ["b"]) == LOOPING
  {
    assert Moved(["c"], ["b"], ["c"]) == ["b"] && Moved(["c"], ["b"], ["c", "k"]) == ["b", "k"];
    MoveAt(DANGLING, ["c"], ["b"], ["c"]);
    MoveAt(DANGLING, ["c"], ["b"], ["c", "k"]);
    MoveElsewhere(DANGLING, ["c"], ["b"], []);
    assert "a"[0] != "b"[0] && ["a"][0] != ["b"][0];
    MoveElsewhere(DANGLING, ["c"], ["b"], ["a"]);
    hide Move, Moved;
    var m := Move(DANGLING, ["c"], ["b"]);
    forall k | k in m ensures k in LOOPING {
      DanglingKeysMove(k);
    }
  }

  /** Unlike every other operation, `rename` can turn links that settle into a cycle no walk gets out of. */
  lemma RenameCanCloseACycle(fuel: nat)
    ensures WellFormed(DANGLING) && LinksSettle(DANGLING, true, 1)
    ensures RenameOp(FlatState(DANGLING, 0), fuel, Render(["c"]), Render(["b"])) == Next(FlatState(LOOPING, 0), Done)
    ensures forall more: nat :: LookUp(LOOPING, true, more, Render(["a"])) == Endless
  {
    DanglingWalks();
    PathStrings();
    assert [] + ["c"] == ["c"] && [] + ["b"] == ["b"];
    RenameMeaning(FlatState(DANGLING, 0), fuel, [], "c", [], "b");
    DanglingMoves();
    forall more: nat ensures LookUp(LOOPING, true, more, Render(["a"])) == Endless {
      LoopingWalks(more);
    }
  }
}
