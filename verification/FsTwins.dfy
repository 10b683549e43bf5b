/** What `list.remove` by equality does to a `rename` that goes through a link, on the node tree. */
module FsTwins {
  import opened Wrappers

  import opened FlatFs
  import opened FlatLaws
  import opened FlatOps
  import opened Fs
  import opened Paths

  // ---------------------------------------------------------------- equal nodes

  /** What hangs at `q` has the same real files as what hangs at `t` and lists its entries in the same order, all the
      way down. */
  ghost predicate SameOrder(at: map<Path, Node>, root: Node, q: Path, t: Path)
    requires Shape(at, root)
    reads at.Values
  {
    forall k | k in at && q <= k && t + k[|q|..] in at :: SameInside(at[k], at[t + k[|q|..]])
  }

  ghost predicate SameInside(a: Node, b: Node)
    reads a, b, a.contents`name, b.contents`name
  {
    a.realfile == b.realfile && |a.contents| == |b.contents| && forall i | 0 <= i < |a.contents| :: a.contents[i].name == b.contents[i].name
  }

  lemma EqualIsSameOrder(at: map<Path, Node>, root: Node, bound: nat, q: Path, t: Path)
    requires Tree(at, root) && Bounded(at, bound) && q in at && t in at && q != t
    requires Equal(at[q], at[t], at, root, q, bound)
    ensures SameOrder(at, root, q, t)
  {
    hide Shape, Distinct, Equal;
    forall k | k in at && q <= k && t + k[|q|..] in at ensures SameInside(at[k], at[t + k[|q|..]]) {
      var r := k[|q|..];
      assert q + r == k;
      EqualBelow(at, root, bound, q, t, r);
      OtherEnds(q, t, r);
      assert at[k].realfile == at[t + r].realfile by { SameReal(at, root, bound, k, t + r); }
      EqualAt(at, root, bound, k, t + r, |at[k].contents|);
      forall i | 0 <= i < |at[k].contents| ensures at[k].contents[i].name == at[t + r].contents[i].name {
        EqualAt(at, root, bound, k, t + r, i);
      }
    }
  }

  lemma SameReal(at: map<Path, Node>, root: Node, bound: nat, q: Path, t: Path)
    requires Tree(at, root) && Bounded(at, bound) && q in at && t in at
    requires Equal(at[q], at[t], at, root, q, bound)
    ensures at[q].realfile == at[t].realfile
  {
  }

  lemma OtherEnds(q: Path, t: Path, r: Path)
    requires q != t
    ensures q + r != t + r
  {
    if |q| == |t| {
      assert (q + r)[..|q|] == q && (t + r)[..|t|] == t;
    } else {
      assert |q + r| != |t + r|;
    }
  }

  lemma AlikeBelow(at: map<Path, Node>, root: Node, q: Path, t: Path, x: string)
    requires Shape(at, root)
    requires MayTwin(ViewOf(at), q, t) && SameOrder(at, root, q, t) && q + [x] in at && t + [x] in at
    ensures MayTwin(ViewOf(at), q + [x], t + [x]) && SameOrder(at, root, q + [x], t + [x])
  {
    hide SameInside;
    var v, q1, t1 := ViewOf(at), q + [x], t + [x];
    OtherEnds(q, t, [x]);
    forall k | k in v && q1 <= k ensures t1 + k[|q1|..] in v && v[t1 + k[|q1|..]] == v[k] {
      Deeper(q, t, x, k);
    }
    forall k | k in v && t1 <= k ensures q1 + k[|t1|..] in v {
      Deeper(t, q, x, k);
    }
    forall k | k in at && q1 <= k && t1 + k[|q1|..] in at ensures SameInside(at[k], at[t1 + k[|q1|..]]) {
      Deeper(q, t, x, k);
    }
  }

  lemma Deeper(q: Path, t: Path, x: string, k: Path)
    requires q + [x] <= k
    ensures q <= k && t + [x] + k[|q + [x]|..] == t + k[|q|..]
  {
    assert k[..|q|] == (q + [x])[..|q|] == q;
    assert k[|q|] == (q + [x])[|q|] == x;
  }

  lemma {:induction false} AlikeIsEqual(at: map<Path, Node>, root: Node, bound: nat, q: Path, t: Path)
    requires Tree(at, root) && Bounded(at, bound) && q in at && t in at && at[q].name == at[t].name
    requires MayTwin(ViewOf(at), q, t) && SameOrder(at, root, q, t)
    ensures Equal(at[q], at[t], at, root, q, bound)
    decreases bound - |q|
  {
    assert q <= q && t + q[|q|..] == t;
    assert at[q].Attributes() == at[t].Attributes() && SameInside(at[q], at[t]);
    forall i | 0 <= i < |at[q].contents|
      ensures var c := at[q].contents[i];
              q + [c.name] in at && at[q + [c.name]] == c && at[t].contents[i] in at.Values
              && Equal(c, at[t].contents[i], at, root, q + [c.name], bound)
    {
      Children(at, root, q, i);
      Children(at, root, t, i);
      hide Shape, Distinct, Equal, MayTwin, SameOrder;
      var x := at[q].contents[i].name;
      AlikeBelow(at, root, q, t, x);
      AlikeIsEqual(at, root, bound, q + [x], t + [x]);
    }
  }

  /** Two nodes in different places are equal, as `list.remove` compares them, exactly if they have the same name, look
      alike on the map, and throughout have the same real files and list what they contain in the same order. */
  lemma EqualIff(at: map<Path, Node>, root: Node, bound: nat, q: Path, t: Path)
    requires Tree(at, root) && Bounded(at, bound) && q in at && t in at && q != t && q != [] && t != []
    ensures Equal(at[q], at[t], at, root, q, bound) <==>
            Last(q) == Last(t) && MayTwin(ViewOf(at), q, t) && SameOrder(at, root, q, t)
  {
    assert Front(q) in at && Front(t) in at && at[q].name == Last(q) && at[t].name == Last(t);
    OnlyAt(at, q);
    if Equal(at[q], at[t], at, root, q, bound) {
      EqualIsMayTwin(at, root, bound, q, t);
      EqualIsSameOrder(at, root, bound, q, t);
    } else if Last(q) == Last(t) && MayTwin(ViewOf(at), q, t) && SameOrder(at, root, q, t) {
      AlikeIsEqual(at, root, bound, q, t);
    }
  }

  // ---------------------------------------------------------------- renaming through a link

  /** Exactly when renaming a normalised path takes out another entry than the node it finds: something is found but
      hangs elsewhere, nothing is at the new path, and the directory has an entry of the node's name that is equal to
      it. Then the old path is that of a link. */
  lemma RenameStraysIff(h: HoneyPotFilesystem, fuel: nat, p: Path, name: string, to: string)
    requires h.Valid() && Normal(p) && NormalName(name)
    ensures var v, from := ViewOf(h.at), Render(p + [name]);
            var o, n, d := LookUp(v, true, fuel, from), LookUp(v, true, fuel, to), LookUpDir(v, fuel, Render(p));
            && (o.Found? ==> d.Found? && o.path in h.at)
            && (h.RenameOutcome(from, to, fuel) == Strayed <==>
                  && o.Found? && n.Missing? && o.path != [] && Front(o.path) != d.path
                  && d.path + [Last(o.path)] in h.at && h.AreEqual(o.path, d.path + [Last(o.path)]))
            && (h.RenameOutcome(from, to, fuel) == Strayed ==> IsLink(v, d.path + [name]))
  {
    hide Shape, Distinct, WellFormed, RenameOp, LookUp, LookUpDir, Render, MayTwin, Equal, Normal, NormalName;
    var v, from := ViewOf(h.at), Render(p + [name]);
    RenameFindsTwinIff(h.Abs(), fuel, p, name, to);
    var o, d := LookUp(v, true, fuel, from), LookUpDir(v, fuel, Render(p));
    if o.Found? && o.path != [] && Front(o.path) != d.path && d.path + [Last(o.path)] in h.at {
      var t := d.path + [Last(o.path)];
      assert Front(t) == d.path;
      if h.AreEqual(o.path, t) {
        EqualIsMayTwin(h.at, h.fs, BoundOf(h.at), o.path, t);
      }
    }
  }

  /** What looks like a node without children, with the same name and real file, is equal to it. */
  lemma ChildlessTwinsAreEqual(at: map<Path, Node>, root: Node, bound: nat, q: Path, t: Path)
    requires Tree(at, root) && Bounded(at, bound) && MayTwin(ViewOf(at), q, t)
    requires at[q].contents == [] && q != [] && t != [] && Last(q) == Last(t) && at[q].realfile == at[t].realfile
    ensures Equal(at[q], at[t], at, root, q, bound)
  {
    assert q <= q && q[|q|..] == [] && t + [] == t;
    if at[t].contents != [] {
      var c := at[t].contents[0];
      Children(at, root, t, 0);
      assert t <= t + [c.name] && (t + [c.name])[|t|..] == [c.name];
      ChildByName(at, root, q, c.name);
    }
    assert at[t].contents == [];
    assert Front(q) in at && Front(t) in at;
    assert at[q].name == at[t].name && at[q].Attributes() == at[t].Attributes();
  }

  lemma LookedAt(at: map<Path, Node>, q: Path, t: Path)
    requires MayTwin(ViewOf(at), q, t)
    ensures q in at && t in at && forall k | k in at :: k in ViewOf(at)
  {
  }

  lemma AloneIsChildless(at: map<Path, Node>, root: Node, q: Path)
    requires Tree(at, root) && q in at && forall k | k in at && q <= k :: k == q
    ensures at[q].contents == []
  {
    if at[q].contents != [] {
      var k := q + [at[q].contents[0].name];
      assert q <= k && |k| != |q|;
      Children(at, root, q, 0);
    }
  }

  ghost predicate NoRealFiles(at: map<Path, Node>)
    reads at.Values
  {
    forall k | k in at :: at[k].realfile == None
  }

  /** A childless look-alike of the same name is equal, and so taken. */
  lemma LookAlikeTaken(h: HoneyPotFilesystem, from: string, to: string, fuel: nat, q: Path, dir: Path)
    requires h.Valid() && q != [] && MayTwin(ViewOf(h.at), q, dir + [Last(q)])
    requires RenameOp(h.Abs(), fuel, from, to) == Twin(dir, Last(q)) && LookUp(ViewOf(h.at), true, fuel, from) == Found(q)
    requires forall k | k in ViewOf(h.at) && q <= k :: k == q
    requires NoRealFiles(h.at)
    ensures h.RenameOutcome(from, to, fuel) == Strayed
  {
    var t := dir + [Last(q)];
    LookedAt(h.at, q, t);
    hide Shape, Distinct, WellFormed, RenameOp, LookUp, MayTwin, Equal;
    AloneIsChildless(h.at, h.fs, q);
    ChildlessTwinsAreEqual(h.at, h.fs, BoundOf(h.at), q, t);
  }

  /** On every such tree, renaming the link takes out the file beside it. */
  lemma TwinsStray(h: HoneyPotFilesystem, fuel: nat)
    requires h.Valid() && LikeTwins(ViewOf(h.at)) && fuel > 0
    requires NoRealFiles(h.at) && forall k | k in ViewOf(h.at) && ["b", "f"] <= k :: k == ["b", "f"]
    ensures h.RenameOutcome("/a/g", "/c", fuel) == Strayed
  {
    RenamingLikeTwins(h.Abs(), fuel);
    assert MayTwin(ViewOf(h.at), ["b", "f"], ["a", "f"]);
    hide NoRealFiles, LikeTwins, RenameOp, LookUp, MayTwin, WellFormed, ViewOf, HoneyPotFilesystem.Valid, HoneyPotFilesystem.RenameOutcome;
    assert Last(["b", "f"]) == "f" && ["a"] + ["f"] == ["a", "f"];
    LookAlikeTaken(h, "/a/g", "/c", fuel, ["b", "f"], ["a"]);
  }

  /** Hangs a new entry into the directory `d`, where its path is `p`. */
  method Hang(h: HoneyPotFilesystem, d: Node, ghost dp: Path, name: string, a: Attr, ghost p: Path) returns (n: Node)
    requires Tree(h.at, h.fs) && dp in h.at && h.at[dp] == d && p == dp + [name] && p !in h.at
    modifies h`at, h`newcount, d`contents
    ensures fresh(n) && Tree(h.at, h.fs) && h.newcount == old(h.newcount) + 1 && n.realfile == None
    ensures h.at == old(h.at)[p := n] && ViewOf(h.at) == old(ViewOf(h.at))[p := a]
  {
    hide Shape, Distinct, ViewOf;
    n := new Node(name, a);
    h.AttachLeaf(d, n, dp);
  }

  /** An empty filesystem. */
  method PlantRoot() returns (h: HoneyPotFilesystem)
    ensures fresh(h) && fresh(h.fs) && Tree(h.at, h.fs) && h.newcount == 0
    ensures NoRealFiles(h.at) && h.at == map[[] := h.fs] && ViewOf(h.at) == map[[] := PLAIN_DIR]
  {
    var root := new Node("", PLAIN_DIR);
    LeafTree(root);
    RootWellFormed(root);
    hide Shape, Distinct, ViewOf, WellFormed;
    h := new HoneyPotFilesystem(root, "", map[[] := root]);
  }

  /** Two directories side by side. */
  method PlantDirs(x: string, y: string, ghost px: Path, ghost py: Path) returns (h: HoneyPotFilesystem, a: Node, b: Node)
    requires px == [x] && py == [y] && px != py
    ensures fresh(h) && fresh(h.fs) && fresh(a) && fresh(b) && Tree(h.at, h.fs) && h.newcount == 2 && NoRealFiles(h.at)
    ensures h.at == map[[] := h.fs][px := a][py := b]
    ensures ViewOf(h.at) == map[[] := PLAIN_DIR][px := PLAIN_DIR][py := PLAIN_DIR]
  {
    hide Tree, ViewOf, PLAIN_DIR;
    h := PlantRoot();
    assert [] + [x] == px && [] + [y] == py && px != [] && py != [];
    a := Hang(h, h.fs, [], x, PLAIN_DIR, px);
    b := Hang(h, h.fs, [], y, PLAIN_DIR, py);
  }

  function TwinsIn(px: Path, py: Path, pf: Path, pg: Path, qf: Path, link: Attr): View {
    map[[] := PLAIN_DIR][px := PLAIN_DIR][py := PLAIN_DIR][pf := A_FILE][pg := link][qf := A_FILE]
  }

  /** The same with a file of one name in each, and a link beside the first. */
  method PlantFiles(x: string, y: string, f: string, g: string, link: Attr,
      ghost px: Path, ghost py: Path, ghost pf: Path, ghost pg: Path, ghost qf: Path)
      returns (h: HoneyPotFilesystem)
    requires px == [x] && py == [y] && px != py && pf == px + [f] && pg == px + [g] && qf == py + [f]
    requires pf != pg && pg != qf && pf != qf
    requires pf !in {px, py, []} && pg !in {px, py, []} && qf !in {px, py, []}
    ensures fresh(h) && fresh(h.at.Values) && Tree(h.at, h.fs) && h.newcount == 5 && NoRealFiles(h.at)
    ensures ViewOf(h.at) == TwinsIn(px, py, pf, pg, qf, link)
  {
    hide Tree, ViewOf, PLAIN_DIR, A_FILE;
    var a, b;
    h, a, b := PlantDirs(x, y, px, py);
    var af := Hang(h, a, px, f, A_FILE, pf);
    var ag := Hang(h, a, px, g, link, pg);
    var bf := Hang(h, b, py, f, A_FILE, qf);
  }

  lemma TwinsAre()
    ensures TwinsIn(["a"], ["b"], ["a", "f"], ["a", "g"], ["b", "f"], TWINS[["a", "g"]]) == TWINS
  {
  }

  /** Builds the tree of `TWINS`. */
  method PlantTwins() returns (h: HoneyPotFilesystem)
    ensures fresh(h) && fresh(h.at.Values) && h.Valid() && ViewOf(h.at) == TWINS && NoRealFiles(h.at)
  {
    TwinsAre();
    TwinsWellFormed();
    assert "a"[0] != "b"[0] && "f"[0] != "g"[0];
    assert ["a"][0] != ["b"][0] && ["a", "f"][1] != ["a", "g"][1] && ["a", "f"][0] != ["b", "f"][0] && ["a", "g"][0] != ["b", "f"][0];
    assert ["a"] + ["f"] == ["a", "f"] && ["a"] + ["g"] == ["a", "g"] && ["b"] + ["f"] == ["b", "f"];
    hide Tree, ViewOf, WellFormed, MayTwin, TwinsIn, TWINS, NoRealFiles;
    h := PlantFiles("a", "b", "f", "g", TWINS[["a", "g"]], ["a"], ["b"], ["a", "f"], ["a", "g"], ["b", "f"]);
  }

  lemma RootWellFormed(root: Node)
    requires root.Attributes() == PLAIN_DIR
    ensures var at: map<Path, Node> := map[[] := root]; WellFormed(ViewOf(at)) && ViewOf(at) == map[[] := PLAIN_DIR]
  {
  }

  /** Renaming a link can take out the wrong entry: `/a/f` here. */
  method RenamingALinkTakesATwin() returns (h: HoneyPotFilesystem, o: Outcome)
    ensures o == Strayed
  {
    h := PlantTwins();
    hide TWINS, LookUp, LookUpDir, Without, Dirname, NoRealFiles;
    TwinsEnd(1);
    TwinsStray(h, 1);
    o := h.Rename("/a/g", "/c", 1);
  }

  /** All walks of that call end. */
  lemma TwinsEnd(fuel: nat)
    requires fuel > 0
    ensures LikeTwins(TWINS) && forall k | k in TWINS && ["b", "f"] <= k :: k == ["b", "f"]
    ensures LookUp(TWINS, true, fuel, "/a/g") == Found(["b", "f"]) && LookUp(TWINS, true, fuel, "/c") == Missing
    ensures LookUpDir(TWINS, fuel, Dirname("/a/g")) == Found(["a"])
    ensures LookUpDir(Without(TWINS, ["b", "f"]), fuel, Dirname("/c")) == Found([])
  {
    TwinsLook();
    assert ["a", "f"][0] != "b" && ["a", "g"][0] != "b" && forall k | k in TWINS && ["b", "f"] <= k :: k == ["b", "f"];
    assert [] in Without(TWINS, ["b", "f"]);
    hide LikeTwins, LookUp, MayTwin, WellFormed, LinkFree;
    TwinsLookUps(TWINS, fuel);
    TwinsPaths();
    DirnameBasename([], "c");
    assert [] + ["c"] == ["c"];
    RootFound(Without(TWINS, ["b", "f"]), fuel);
  }

  lemma RootFound(v: View, fuel: nat)
    requires [] in v
    ensures LookUpDir(v, fuel, "/") == Found([]) && Render([]) == "/"
  {
    SplitRender([]);
  }
}
