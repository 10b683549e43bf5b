/** `HoneyPotFilesystem`: a tree of nodes edited in place, refining the flat map of FlatOps. */
module Fs {
  import opened Wrappers

  import opened Paths
  import opened FlatFs
  import opened FlatOps

  /** One entry: the list `[name, type, uid, gid, size, mode, ctime, contents, target, realfile]`. */
  class Node {
    var name: string
    const kind: Kind
    var uid: int
    var gid: int
    var size: int
    var mode: bv32
    var ctime: int
    var contents: seq<Node>
    const target: string
    var realfile: Option<string>

    constructor (name: string, a: Attr)
      ensures this.name == name && Attributes() == a && contents == [] && realfile == None
    {
      this.name, kind, uid, gid := name, a.kind, a.uid, a.gid;
      size, mode, ctime, contents, target, realfile := a.size, a.mode, a.ctime, [], a.target, None;
    }

    function Attributes(): Attr
      reads this`uid, this`gid, this`size, this`mode, this`ctime
    {
      Attr(kind, uid, gid, size, mode, ctime, target)
    }
  }

  /** Whether some entry of the list is called `name`. */
  predicate HasName(list: seq<Node>, name: string)
    reads list`name
  {
    exists i :: 0 <= i < |list| && list[i].name == name
  }

  ghost predicate NoDup(list: seq<Node>) {
    forall i, j | 0 <= i < j < |list| :: list[i] != list[j]
  }

  /** `list.remove(c)` */
  function Minus(list: seq<Node>, c: Node): seq<Node> {
    if list == [] then [] else if list[0] == c then list[1..] else [list[0]] + Minus(list[1..], c)
  }

  lemma NoDupCons(x: Node, rest: seq<Node>)
    requires NoDup(rest) && x !in rest
    ensures NoDup([x] + rest)
  {
  }

  lemma {:induction false} MinusElements(list: seq<Node>, c: Node)
    requires NoDup(list)
    ensures NoDup(Minus(list, c))
    ensures forall x :: x in Minus(list, c) <==> x in list && x != c
  {
    if list != [] {
      assert NoDup(list[1..]);
      MinusElements(list[1..], c);
      assert forall x :: x in list <==> x == list[0] || x in list[1..];
      assert list[0] !in list[1..];
      if list[0] != c {
        NoDupCons(list[0], Minus(list[1..], c));
      }
    }
  }

  /** `at` names every node under `root` by its path: children are exactly the entries of the contents
      lists, each under its own name. */
  ghost predicate Shape(at: map<Path, Node>, root: Node)
    reads at.Values`contents, at.Values`name
  {
    && [] in at && at[[]] == root
    && (forall p, c | p in at && c in at[p].contents :: c in at.Values && p + [c.name] in at && at[p + [c.name]] == c)
    && (forall p {:trigger Front(p)} | p in at && p != [] ::
          Front(p) in at && at[p] in at[Front(p)].contents && at[p].name == Last(p))
  }

  /** The same of a tree in which the directory at `dp` is still, or already, taken to hold `list`. */
  ghost predicate ShapeWith(at: map<Path, Node>, root: Node, dp: Path, list: seq<Node>)
    reads at.Values`contents, at.Values`name
  {
    && [] in at && at[[]] == root
    && (forall p, c | p in at && c in (if p == dp then list else at[p].contents) ::
          c in at.Values && p + [c.name] in at && at[p + [c.name]] == c)
    && (forall p {:trigger Front(p)} | p in at && p != [] ::
          && Front(p) in at && at[p].name == Last(p)
          && at[p] in (if Front(p) == dp then list else at[Front(p)].contents))
  }

  ghost predicate SamePlace(p: Path, q: Path) {
    p == q
  }

  /** No node hangs in two places. */
  ghost predicate Distinct(at: map<Path, Node>)
    reads at.Values`contents
  {
    && (forall p, q {:trigger SamePlace(p, q)} | p in at && q in at && at[p] == at[q] :: SamePlace(p, q))
    && (forall p | p in at :: NoDup(at[p].contents))
  }

  lemma OnlyAt(at: map<Path, Node>, q: Path)
    requires Distinct(at) && q in at
    ensures forall p | p in at && p != q :: at[p] != at[q]
  {
    forall p | p in at && p != q ensures at[p] != at[q] {
      assert !SamePlace(p, q);
    }
  }

  ghost predicate Tree(at: map<Path, Node>, root: Node)
    reads at.Values`contents, at.Values`name
  {
    Shape(at, root) && Distinct(at)
  }

  ghost function ViewOf(at: map<Path, Node>): View
    reads at.Values`uid, at.Values`gid, at.Values`size, at.Values`mode, at.Values`ctime
  {
    map p | p in at :: at[p].Attributes()
  }

  ghost function RelKeys(at: map<Path, Node>, q: Path): set<Path> {
    set k | k in at && q <= k :: k[|q|..]
  }

  /** The nodes at and below `q`, by their path from `q`. */
  ghost function Sub(at: map<Path, Node>, q: Path): map<Path, Node> {
    map r | r in RelKeys(at, q) && q + r in at :: at[q + r]
  }

  ghost function Pruned(at: map<Path, Node>, q: Path): map<Path, Node> {
    map k | k in at && !(q <= k) :: at[k]
  }

  /** `at` with the tree `sub` hung in at `q`. */
  ghost function Graft(at: map<Path, Node>, q: Path, sub: map<Path, Node>): map<Path, Node> {
    at + (map k | k in (set r | r in sub :: q + r) && k[|q|..] in sub :: sub[k[|q|..]])
  }

  lemma PrefixChild(q: Path, p: Path, name: string)
    ensures q <= p + [name] <==> q <= p || q == p + [name]
    ensures Front(p + [name]) == p && Last(p + [name]) == name
  {
    assert |q| <= |p| ==> (p + [name])[..|q|] == p[..|q|];
  }

  lemma ChildByName(at: map<Path, Node>, root: Node, p: Path, name: string)
    requires Shape(at, root) && p in at
    ensures p + [name] in at <==> HasName(at[p].contents, name)
    ensures forall c | c in at[p].contents && c.name == name :: p + [name] in at && c == at[p + [name]]
  {
    PrefixChild([], p, name);
    if p + [name] in at {
      var c := at[p + [name]];
      assert c in at[Front(p + [name])].contents && c.name == name;
      var i :| 0 <= i < |at[p].contents| && at[p].contents[i] == c;
    }
  }

  lemma SubAt(at: map<Path, Node>, q: Path, r: Path)
    ensures r in Sub(at, q) <==> q + r in at
    ensures r in Sub(at, q) ==> Sub(at, q)[r] == at[q + r]
  {
    assert q <= q + r && (q + r)[|q|..] == r;
    if r in RelKeys(at, q) {
      var k :| k in at && q <= k && k[|q|..] == r;
      assert k == q + r;
    }
  }

  lemma GraftAt(at: map<Path, Node>, q: Path, sub: map<Path, Node>, k: Path)
    ensures k in Graft(at, q, sub) <==> k in at || (q <= k && k[|q|..] in sub)
    ensures k in Graft(at, q, sub) ==>
              Graft(at, q, sub)[k] == if q <= k && k[|q|..] in sub then sub[k[|q|..]] else at[k]
  {
    if q <= k && k[|q|..] in sub {
      assert k == q + k[|q|..];
    }
    forall r | r in sub ensures q <= q + r && (q + r)[|q|..] == r {}
  }

  /** What hangs at `q` is a tree of its own. */
  lemma SubTree(at: map<Path, Node>, root: Node, q: Path)
    requires Tree(at, root) && q in at
    ensures Tree(Sub(at, q), at[q])
    ensures Sub(at, q).Values !! Pruned(at, q).Values
  {
    var sub := Sub(at, q);
    assert q + [] == q;
    SubAt(at, q, []);
    forall r, c | r in sub && c in sub[r].contents
      ensures c in sub.Values && r + [c.name] in sub && sub[r + [c.name]] == c
    {
      SubAt(at, q, r);
      SubAt(at, q, r + [c.name]);
      assert q + r + [c.name] == q + (r + [c.name]);
    }
    forall r | r in sub && r != []
      ensures Front(r) in sub && sub[r] in sub[Front(r)].contents && sub[r].name == Last(r)
    {
      SubAt(at, q, r);
      SubAt(at, q, Front(r));
      assert Front(q + r) == q + Front(r) && Last(q + r) == Last(r);
    }
    forall r, r' | r in sub && r' in sub && sub[r] == sub[r'] ensures SamePlace(r, r') {
      SubAt(at, q, r);
      SubAt(at, q, r');
      assert SamePlace(q + r, q + r');
      assert (q + r)[|q|..] == r && (q + r')[|q|..] == r';
    }
    forall r | r in sub ensures NoDup(sub[r].contents) {
      SubAt(at, q, r);
    }
    forall r, k | r in sub && k in Pruned(at, q) ensures sub[r] != at[k] {
      SubAt(at, q, r);
      assert SamePlace(q + r, k) ==> q <= k;
    }
  }

  ghost predicate ParentsIn(keys: set<Path>) {
    forall p {:trigger Front(p)} | p in keys && p != [] :: Front(p) in keys
  }

  lemma RootsAt(at: map<Path, Node>, root: Node)
    requires Tree(at, root)
    ensures [] in at && at[[]] == root
  {
  }

  lemma TreeParents(at: map<Path, Node>, root: Node)
    requires Tree(at, root)
    ensures ParentsIn(at.Keys)
  {
  }

  lemma NoKeyBelow(at: map<Path, Node>, q: Path)
    requires ParentsIn(at.Keys) && q !in at
    ensures forall k | k in at :: !(q <= k)
  {
    forall k | k in at ensures !(q <= k) {
      assert q <= k ==> k[..|q|] == q;
      KeyPrefix(at.Keys, k, |q|);
    }
  }

  lemma {:induction false} KeyPrefix(keys: set<Path>, k: Path, n: nat)
    requires ParentsIn(keys) && k in keys
    ensures n <= |k| ==> k[..n] in keys
    decreases |k| - n
  {
    if n == |k| {
      assert k[..n] == k;
    } else if n < |k| {
      KeyPrefix(keys, k, n + 1);
      assert Front(k[..n + 1]) == k[..n];
    }
  }

  /** When only the list of the directory at `dp` changed, the rest of the shape stands. */
  twostate lemma OneListChanged(at: map<Path, Node>, new dp: Path)
    requires [] in at && old(Tree(at, at[[]])) && dp in at
    requires forall n | n in at.Values :: n.name == old(n.name)
    requires forall p | p in at && p != dp :: at[p].contents == old(at[p].contents)
    ensures ShapeWith(at, at[[]], dp, old(at[dp].contents))
  {
    var list := old(at[dp].contents);
    forall p, c | p in at && c in (if p == dp then list else at[p].contents)
      ensures c in at.Values && p + [c.name] in at && at[p + [c.name]] == c
    {
      assert c in old(at[p].contents);
    }
    forall p | p in at && p != []
      ensures Front(p) in at && at[p].name == Last(p)
      ensures at[p] in (if Front(p) == dp then list else at[Front(p)].contents)
    {
      assert at[p] in old(at[Front(p)].contents);
    }
  }

  lemma PrunedAt(at: map<Path, Node>, q: Path, k: Path)
    ensures k in Pruned(at, q) <==> k in at && !(q <= k)
    ensures k in Pruned(at, q) ==> Pruned(at, q)[k] == at[k]
  {
  }

  lemma PrunedChildren(at: map<Path, Node>, root: Node, dp: Path, list: seq<Node>, c: Node, p: Path, x: Node)
    requires ShapeWith(at, root, dp, list) && dp in at && c in list
    requires x in at[dp].contents ==> x in list && x != c
    requires p in Pruned(at, dp + [c.name]) && x in Pruned(at, dp + [c.name])[p].contents
    ensures var w := Pruned(at, dp + [c.name]); x in w.Values && p + [x.name] in w && w[p + [x.name]] == x
  {
    hide Pruned;
    var q, k := dp + [c.name], p + [x.name];
    PrunedAt(at, q, p);
    PrunedAt(at, q, k);
    PrefixChild(q, p, x.name);
    PrefixChild(q, dp, c.name);
    assert x in (if p == dp then list else at[p].contents);
    assert at[k] == x && at[q] == c;
  }

  lemma PrunedParents(at: map<Path, Node>, root: Node, dp: Path, list: seq<Node>, c: Node, p: Path)
    requires ShapeWith(at, root, dp, list) && dp in at && c in list
    requires forall x :: x in at[dp].contents <==> x in list && x != c
    requires p in Pruned(at, dp + [c.name]) && p != []
    ensures var w := Pruned(at, dp + [c.name]);
            Front(p) in w && w[p] in w[Front(p)].contents && w[p].name == Last(p)
  {
    hide Pruned;
    var q := dp + [c.name];
    PrunedAt(at, q, p);
    PrunedAt(at, q, Front(p));
    PrefixChild(q, Front(p), Last(p));
    assert Front(p) + [Last(p)] == p;
    assert Front(p) == dp && at[p] == c ==> p == q;
  }

  lemma PrunedShape(at: map<Path, Node>, root: Node, dp: Path, list: seq<Node>, c: Node)
    requires ShapeWith(at, root, dp, list) && dp in at && c in list
    requires forall x :: x in at[dp].contents <==> x in list && x != c
    ensures Shape(Pruned(at, dp + [c.name]), root)
  {
    var w := Pruned(at, dp + [c.name]);
    assert [] in at && at[[]] == root;
    hide ShapeWith, Pruned;
    PrunedAt(at, dp + [c.name], []);
    forall p, x | p in w && x in w[p].contents
      ensures x in w.Values && p + [x.name] in w && w[p + [x.name]] == x
    {
      PrunedChildren(at, root, dp, list, c, p, x);
    }
    forall p | p in w && p != []
      ensures Front(p) in w && w[p] in w[Front(p)].contents && w[p].name == Last(p)
    {
      PrunedParents(at, root, dp, list, c, p);
    }
  }

  /** Hanging `sub` in at `dp + [c.name]`: where every path of the result leads. */
  lemma GraftChildren(at: map<Path, Node>, root: Node, dp: Path, list: seq<Node>, c: Node, sub: map<Path, Node>, p: Path, x: Node)
    requires ShapeWith(at, root, dp, list) && dp in at && at[dp].contents == list + [c]
    requires Shape(sub, c) && (forall k | k in at :: !(dp + [c.name] <= k))
    requires p in Graft(at, dp + [c.name], sub) && x in Graft(at, dp + [c.name], sub)[p].contents
    ensures var g := Graft(at, dp + [c.name], sub); p + [x.name] in g && g[p + [x.name]] == x
  {
    var q := dp + [c.name];
    GraftAt(at, q, sub, p);
    GraftAt(at, q, sub, p + [x.name]);
    PrefixChild(q, p, x.name);
    if q <= p {
      assert (p + [x.name])[|q|..] == p[|q|..] + [x.name];
    } else if p == dp && x == c {
      assert p + [x.name] == q && q[|q|..] == [];
    } else {
      assert x in (if p == dp then list else at[p].contents);
    }
  }

  lemma GraftParents(at: map<Path, Node>, root: Node, dp: Path, list: seq<Node>, c: Node, sub: map<Path, Node>, p: Path)
    requires ShapeWith(at, root, dp, list) && dp in at && at[dp].contents == list + [c]
    requires Shape(sub, c) && (forall k | k in at :: !(dp + [c.name] <= k))
    requires p in Graft(at, dp + [c.name], sub) && p != []
    ensures var g := Graft(at, dp + [c.name], sub);
            Front(p) in g && g[p] in g[Front(p)].contents && g[p].name == Last(p)
  {
    var q := dp + [c.name];
    PrefixChild(q, dp, c.name);
    GraftAt(at, q, sub, p);
    GraftAt(at, q, sub, Front(p));
    if q <= p && p != q {
      assert Front(p)[|q|..] == Front(p[|q|..]) && Last(p) == Last(p[|q|..]);
      assert q <= Front(p);
    } else if p == q {
      assert q[|q|..] == [];
    }
  }

  lemma GraftShape(at: map<Path, Node>, root: Node, dp: Path, list: seq<Node>, c: Node, sub: map<Path, Node>)
    requires ShapeWith(at, root, dp, list) && dp in at && at[dp].contents == list + [c]
    requires Shape(sub, c) && (forall k | k in at :: !(dp + [c.name] <= k))
    ensures Shape(Graft(at, dp + [c.name], sub), root)
  {
    var g := Graft(at, dp + [c.name], sub);
    GraftAt(at, dp + [c.name], sub, []);
    forall p, x | p in g && x in g[p].contents
      ensures x in g.Values && p + [x.name] in g && g[p + [x.name]] == x
    {
      GraftChildren(at, root, dp, list, c, sub, p, x);
    }
    forall p | p in g && p != []
      ensures Front(p) in g && g[p] in g[Front(p)].contents && g[p].name == Last(p)
    {
      GraftParents(at, root, dp, list, c, sub, p);
    }
  }

  /** Nodes of two separate trees stay in one place each when one is hung into the other. */
  lemma AttachedDistinct(at: map<Path, Node>, q: Path, sub: map<Path, Node>)
    requires sub.Values !! at.Values && (forall k | k in at :: !(q <= k))
    requires forall p, p' {:trigger SamePlace(p, p')} | p in at && p' in at && at[p] == at[p'] :: SamePlace(p, p')
    requires forall p, p' {:trigger SamePlace(p, p')} | p in sub && p' in sub && sub[p] == sub[p'] :: SamePlace(p, p')
    requires forall p | p in Graft(at, q, sub) :: NoDup(Graft(at, q, sub)[p].contents)
    ensures Distinct(Graft(at, q, sub))
  {
    var g := Graft(at, q, sub);
    forall p, p' | p in g && p' in g && g[p] == g[p'] ensures SamePlace(p, p') {
      GraftAt(at, q, sub, p);
      GraftAt(at, q, sub, p');
      if q <= p && q <= p' {
        assert SamePlace(p[|q|..], p'[|q|..]);
        assert p == q + p[|q|..] && p' == q + p'[|q|..];
      } else {
        assert g[p] in (if q <= p then sub else at).Values && g[p'] in (if q <= p' then sub else at).Values;
      }
    }
  }

  twostate lemma SameAttributes(at: map<Path, Node>)
    requires forall n | n in at.Values :: n.Attributes() == old(n.Attributes())
    ensures ViewOf(at) == old(ViewOf(at))
  {
  }

  twostate lemma Detached(at: map<Path, Node>, new dp: Path, new c: Node)
    requires [] in at && old(Tree(at, at[[]])) && dp in at && c in old(at[dp].contents)
    requires forall n | n in at.Values :: n.name == old(n.name)
    requires forall p | p in at && p != dp :: at[p].contents == old(at[p].contents)
    requires at[dp].contents == Minus(old(at[dp].contents), c)
    ensures Tree(Pruned(at, dp + [c.name]), at[[]]) && dp in Pruned(at, dp + [c.name])
  {
    var list := old(at[dp].contents);
    MinusElements(list, c);
    PrefixChild(dp + [c.name], dp, c.name);
    OneListChanged(at, dp);
    PrunedShape(at, at[[]], dp, list, c);
    forall p | p in at ensures NoDup(at[p].contents) {
      assert old(NoDup(at[p].contents));
    }
  }

  /** The same for `sub`, the second of the two trees, hung into the first. */
  twostate lemma Attached(trees: (map<Path, Node>, map<Path, Node>), new dp: Path)
    requires [] in trees.0 && [] in trees.1 && dp in trees.0 && dp + [trees.1[[]].name] !in trees.0
    requires old(Tree(trees.0, trees.0[[]]) && Tree(trees.1, trees.1[[]]))
    requires trees.1.Values !! trees.0.Values && unchanged(trees.1.Values)
    requires forall n | n in trees.0.Values :: n.name == old(n.name)
    requires forall p | p in trees.0 && p != dp :: trees.0[p].contents == old(trees.0[p].contents)
    requires trees.0[dp].contents == old(trees.0[dp].contents) + [trees.1[[]]]
    ensures Tree(Graft(trees.0, dp + [trees.1[[]].name], trees.1), trees.0[[]])
  {
    var (at, sub) := trees;
    OneListChanged(at, dp);
    NoKeyBelow(at, dp + [sub[[]].name]);
    GraftShape(at, at[[]], dp, old(at[dp].contents), sub[[]], sub);
    hide Shape, ShapeWith;
    ListsStayDistinct(trees, dp);
    AttachedDistinct(at, dp + [sub[[]].name], sub);
  }

  /** No list holds a node twice when the root of a separate tree was appended to one. */
  twostate lemma ListsStayDistinct(trees: (map<Path, Node>, map<Path, Node>), new dp: Path)
    requires [] in trees.0 && [] in trees.1 && dp in trees.0
    requires old(Tree(trees.0, trees.0[[]]) && Distinct(trees.1))
    requires trees.1.Values !! trees.0.Values && unchanged(trees.1.Values)
    requires forall p | p in trees.0 && p != dp :: trees.0[p].contents == old(trees.0[p].contents)
    requires trees.0[dp].contents == old(trees.0[dp].contents) + [trees.1[[]]]
    ensures var g := Graft(trees.0, dp + [trees.1[[]].name], trees.1); forall p | p in g :: NoDup(g[p].contents)
  {
    var (at, sub) := trees;
    var q, list := dp + [sub[[]].name], old(at[dp].contents);
    assert forall x | x in list :: x in at.Values;
    assert sub[[]] !in list;
    forall p | p in Graft(at, q, sub) ensures NoDup(Graft(at, q, sub)[p].contents) {
      GraftAt(at, q, sub, p);
    }
  }

  /** Only the name of the root changed, which no path below it mentions. */
  twostate lemma RootRenamed(sub: map<Path, Node>)
    requires [] in sub && old(Tree(sub, sub[[]]))
    requires forall n | n in sub.Values :: n.contents == old(n.contents)
    requires forall n | n in sub.Values && n != sub[[]] :: n.name == old(n.name)
    ensures Tree(sub, sub[[]])
  {
    forall p, c | p in sub && c in sub[p].contents
      ensures c in sub.Values && p + [c.name] in sub && sub[p + [c.name]] == c
    {
      assert c in old(sub[p].contents);
      assert !SamePlace(p + [old(c.name)], []);
    }
    forall p | p in sub && p != []
      ensures Front(p) in sub && sub[p] in sub[Front(p)].contents && sub[p].name == Last(p)
    {
      assert sub[p] in old(sub[Front(p)].contents);
      assert !SamePlace(p, []);
    }
    forall p | p in sub ensures NoDup(sub[p].contents) {
      assert old(NoDup(sub[p].contents));
    }
  }

  /** The directory a subtree hangs in is no part of that subtree. */
  lemma SubAway(at: map<Path, Node>, root: Node, dp: Path, name: string)
    requires Tree(at, root) && dp in at && dp + [name] in at
    ensures var q := dp + [name];
            && Tree(Sub(at, q), at[q]) && Sub(at, q).Values !! Pruned(at, q).Values
            && at[q] in Sub(at, q).Values && at[dp] !in Sub(at, q).Values
  {
    var q := dp + [name];
    SubTree(at, root, q);
    assert q + [] == q;
    SubAt(at, q, []);
    assert Sub(at, q)[[]] == at[q];
    PrefixChild(q, dp, name);
    assert Pruned(at, q)[dp] == at[dp];
  }

  lemma PrunedView(at: map<Path, Node>, q: Path)
    ensures ViewOf(Pruned(at, q)) == Without(ViewOf(at), q)
  {
  }

  lemma SameNodes(a: map<Path, Node>, b: map<Path, Node>)
    requires forall k | k in b :: k in a && a[k] == b[k]
    requires forall k | k in a :: k in b
    ensures a == b
  {
    assert a.Keys == b.Keys;
  }

  lemma LeafView(at: map<Path, Node>, q: Path, n: Node)
    requires forall k | k in at :: !(q <= k)
    ensures var g := Graft(at, q, map[[] := n]);
            g == at[q := n] && g.Values <= at.Values + {n} && ViewOf(g) == ViewOf(at)[q := n.Attributes()]
  {
    var g := Graft(at, q, map[[] := n]);
    var w := at[q := n];
    assert q[|q|..] == [];
    GraftAt(at, q, map[[] := n], q);
    forall k | k in g ensures k in w && w[k] == g[k] {
      GraftAt(at, q, map[[] := n], k);
      assert q <= k && k[|q|..] == [] ==> k == q;
    }
    forall k | k in w ensures k in g {
      GraftAt(at, q, map[[] := n], k);
    }
    SameNodes(w, g);
  }

  lemma LeafTree(n: Node)
    requires n.contents == []
    ensures var leaf: map<Path, Node> := map[[] := n];
            Tree(leaf, n) && leaf.Values == {n}
  {
    var leaf: map<Path, Node> := map[[] := n];
    assert [] in leaf && leaf[[]] == n;
  }

  lemma MoveViewAt(at: map<Path, Node>, from: Path, to: Path, k: Path)
    requires from in at && (forall x | x in Pruned(at, from) :: !(to <= x))
    ensures k in Graft(Pruned(at, from), to, Sub(at, from)) <==> k in Move(ViewOf(at), from, to)
    ensures k in Move(ViewOf(at), from, to) ==>
              Move(ViewOf(at), from, to)[k] == Graft(Pruned(at, from), to, Sub(at, from))[k].Attributes()
  {
    var v, away := ViewOf(at), Pruned(at, from);
    GraftAt(away, to, Sub(at, from), k);
    if to <= k {
      assert k !in away;
      SubAt(at, from, k[|to|..]);
      MovedKeysAt(v, from, to, k);
      assert k in Without(v, from) <==> k in away;
      assert k in Move(v, from, to) <==> from + k[|to|..] in v;
    } else {
      MoveElsewhere(v, from, to, k);
    }
  }

  lemma MoveView(at: map<Path, Node>, from: Path, to: Path)
    requires from in at && (forall k | k in Pruned(at, from) :: !(to <= k))
    ensures ViewOf(Graft(Pruned(at, from), to, Sub(at, from))) == Move(ViewOf(at), from, to)
  {
    var g, m := Graft(Pruned(at, from), to, Sub(at, from)), Move(ViewOf(at), from, to);
    forall k ensures (k in g <==> k in m) && (k in g ==> m[k] == g[k].Attributes()) {
      MoveViewAt(at, from, to, k);
    }
    SameView(ViewOf(g), m);
  }

  lemma SameView(a: View, b: View)
    requires forall k | k in a :: k in b && b[k] == a[k]
    requires forall k | k in b :: k in a
    ensures a == b
  {
    assert a.Keys == b.Keys;
  }

  /** Pruning at `q` and grafting the same nodes elsewhere moves keys. */
  twostate lemma Replanted(was: map<Path, Node>, new q: Path, new dp: Path, new name: string)
    requires WellFormed(old(ViewOf(was))) && q in was && q != [] && !was[q].kind.Link?
    requires dp in Pruned(was, q) && !was[dp].kind.Link? && dp + [name] !in Pruned(was, q)
    requires ParentsIn(Pruned(was, q).Keys)
    requires forall n | n in was.Values :: n.Attributes() == old(n.Attributes())
    ensures var g := Graft(Pruned(was, q), dp + [name], Sub(was, q));
            ViewOf(g) == Move(old(ViewOf(was)), q, dp + [name]) && WellFormed(ViewOf(g))
  {
    SameAttributes(was);
    NoKeyBelow(Pruned(was, q), dp + [name]);
    MoveView(was, q, dp + [name]);
    MoveWellFormed(ViewOf(was), q, dp, name);
  }

  ghost predicate Bounded(at: map<Path, Node>, bound: nat) {
    forall k | k in at :: |k| <= bound
  }

  /** `==` on two entries: all fields, and their contents one by one. `a` is the node at `p`. */
  predicate Equal(a: Node, b: Node, ghost at: map<Path, Node>, ghost root: Node, ghost p: Path, ghost bound: nat)
    requires Shape(at, root) && Bounded(at, bound) && p in at && at[p] == a && b in at.Values
    reads at.Values
    decreases bound - |p|
  {
    || a == b
    || (&& a.name == b.name && a.Attributes() == b.Attributes() && a.realfile == b.realfile && |a.contents| == |b.contents|
        && forall i | 0 <= i < |a.contents| ::
             Children(at, root, p, i);
             Equal(a.contents[i], b.contents[i], at, root, p + [a.contents[i].name], bound))
  }

  lemma LongestKey(at: map<Path, Node>)
    ensures exists bound: nat :: Bounded(at, bound)
  {
    if at.Keys == {} {
      assert Bounded(at, 0);
    } else {
      var k := Longest(at.Keys);
      assert Bounded(at, |k|);
    }
  }

  /** How deep the tree is at most. */
  ghost function BoundOf(at: map<Path, Node>): (bound: nat)
    ensures Bounded(at, bound)
  {
    LongestKey(at);
    var bound: nat :| Bounded(at, bound);
    bound
  }

  lemma Children(at: map<Path, Node>, root: Node, p: Path, i: nat)
    requires Shape(at, root) && p in at && i < |at[p].contents|
    ensures var c := at[p].contents[i]; p + [c.name] in at && at[p + [c.name]] == c && c in at.Values
  {
    assert at[p].contents[i] in at[p].contents;
  }

  /** The `i`th children of two nodes in different places that are equal. */
  lemma EqualAt(at: map<Path, Node>, root: Node, bound: nat, q: Path, t: Path, i: nat)
    requires Tree(at, root) && Bounded(at, bound) && q in at && t in at && q != t
    requires Equal(at[q], at[t], at, root, q, bound)
    ensures |at[q].contents| == |at[t].contents|
    ensures i < |at[q].contents| ==>
              var x := at[q].contents[i].name;
              && at[t].contents[i].name == x && q + [x] in at && t + [x] in at
              && Equal(at[q + [x]], at[t + [x]], at, root, q + [x], bound)
  {
    OnlyAt(at, q);
    if i < |at[q].contents| {
      Children(at, root, q, i);
      Children(at, root, t, i);
      hide Shape, Distinct;
      var x := at[q].contents[i].name;
      assert Equal(at[q].contents[i], at[t].contents[i], at, root, q + [x], bound);
    }
  }

  /** So they have children of the same names, which are equal. */
  lemma EqualChild(at: map<Path, Node>, root: Node, bound: nat, q: Path, t: Path, x: string)
    requires Tree(at, root) && Bounded(at, bound) && q in at && t in at && q != t
    requires Equal(at[q], at[t], at, root, q, bound)
    ensures q + [x] in at <==> t + [x] in at
    ensures q + [x] in at ==> Equal(at[q + [x]], at[t + [x]], at, root, q + [x], bound)
  {
    ChildByName(at, root, q, x);
    ChildByName(at, root, t, x);
    EqualAt(at, root, bound, q, t, |at[q].contents|);
    hide Shape, Distinct, Equal;
    if q + [x] in at {
      var i :| 0 <= i < |at[q].contents| && at[q].contents[i].name == x;
      EqualAt(at, root, bound, q, t, i);
    }
    if t + [x] in at {
      var i :| 0 <= i < |at[t].contents| && at[t].contents[i].name == x;
      EqualAt(at, root, bound, q, t, i);
    }
  }

  lemma {:induction false} EqualBelow(at: map<Path, Node>, root: Node, bound: nat, q: Path, t: Path, k: Path)
    requires Tree(at, root) && Bounded(at, bound) && q in at && t in at && q != t
    requires Equal(at[q], at[t], at, root, q, bound)
    ensures q + k in at <==> t + k in at
    ensures q + k in at ==> Equal(at[q + k], at[t + k], at, root, q + k, bound)
    ensures q + k in at ==> at[q + k].Attributes() == at[t + k].Attributes()
    decreases |k|
  {
    if k == [] {
      assert q + k == q && t + k == t;
      OnlyAt(at, q);
    } else {
      var x, rest := k[0], k[1..];
      assert q + k == q + [x] + rest && t + k == t + [x] + rest;
      EqualChild(at, root, bound, q, t, x);
      if q + [x] in at {
        assert (q + [x])[|q|] == x && (q + [x])[..|q|] == q && (t + [x])[..|t|] == t;
        EqualBelow(at, root, bound, q + [x], t + [x], rest);
      } else {
        TreeParents(at, root);
        NoKeyBelow(at, q + [x]);
        NoKeyBelow(at, t + [x]);
      }
    }
  }

  /** Equal nodes in different places look alike on the map. */
  lemma EqualIsMayTwin(at: map<Path, Node>, root: Node, bound: nat, q: Path, t: Path)
    requires Tree(at, root) && Bounded(at, bound) && q in at && t in at && q != t
    requires Equal(at[q], at[t], at, root, q, bound)
    ensures MayTwin(ViewOf(at), q, t)
  {
    forall k | k in at && q <= k ensures t + k[|q|..] in at && at[t + k[|q|..]].Attributes() == at[k].Attributes() {
      EqualBelow(at, root, bound, q, t, k[|q|..]);
      assert q + k[|q|..] == k;
    }
    forall k | k in at && t <= k ensures q + k[|t|..] in at {
      EqualBelow(at, root, bound, q, t, k[|t|..]);
      assert t + k[|t|..] == k;
    }
  }

  /** Two entries of one list share the name `name`. */
  ghost predicate NameTwice(list: seq<Node>, name: string)
    reads list`name
  {
    exists i, j :: 0 <= i < j < |list| && list[i].name == name && list[j].name == name
  }

  lemma NamedTwice(list: seq<Node>, c: Node)
    requires HasName(list, c.name)
    ensures NameTwice(list + [c], c.name)
  {
    var i :| 0 <= i < |list| && list[i].name == c.name;
    var both := list + [c];
    assert both[i].name == c.name && both[|list|].name == c.name;
  }

  class HoneyPotFilesystem {
    var fs: Node
    var newcount: nat
    const home: string
    ghost var at: map<Path, Node>

    ghost predicate Valid()
      reads this, at.Values
    {
      Tree(at, fs) && Inv(Abs())
    }

    ghost function Abs(): FlatState
      reads this, at.Values
    {
      FlatState(ViewOf(at), newcount)
    }

    /** Builds the filesystem around a tree that was loaded from disk. */
    constructor (root: Node, home: string, ghost tree: map<Path, Node>)
      requires Tree(tree, root) && WellFormed(ViewOf(tree))
      ensures Valid() && at == tree && fs == root && newcount == 0 && this.home == home
    {
      fs, newcount, this.home, at := root, 0, home, tree;
    }

    // -------------------------------------------------------------- walking

    /** `None` where indexing the empty path raises IndexError. */
    method ResolvePath(pathspec: string, cwd: string) returns (r: Option<string>)
      ensures r == if Expand(pathspec, home) == "" then None else Some(Render(Resolved(pathspec, cwd, home)))
    {
      var path := if "~/" <= pathspec then home + pathspec[1..] else pathspec;
      if path == "" {
        return None;
      }
      var pieces := Split(RStrip(path));
      var cwdpieces := if path[0] == '/' then [] else NonEmpty(Split(cwd));
      ghost var start := cwdpieces;
      while pieces != []
        invariant Fold(cwdpieces, pieces) == Fold(start, Split(RStrip(path)))
        decreases |pieces|
      {
        var piece := pieces[0];
        pieces := pieces[1..];
        if piece == ".." {
          if cwdpieces != [] {
            cwdpieces := cwdpieces[..|cwdpieces| - 1];
          }
        } else if piece != "." && piece != "" {
          cwdpieces := cwdpieces + [piece];
        }
      }
      FoldRStrip(start, path);
      return Some("/" + Join(cwdpieces));
    }

    /** What the two walkers rely on: `v` is the tree as a map. Nothing they do changes it. */
    ghost predicate Walkable(v: View)
      reads this, at.Values
    {
      Shape(at, fs) && v == ViewOf(at) && WellFormed(v)
    }

    /** `f` is the node the lookup finds, or null. */
    ghost predicate Answers(r: Look, f: Node?)
      reads this
    {
      if r.Found? then r.path in at && f == at[r.path] else f == null
    }

    /** `getfile`: null for None. */
    method GetFile(path: string, follow: bool, ghost v: View, ghost fuel: nat) returns (f: Node?)
      requires Walkable(v)
      requires LookUp(v, follow, fuel, path) != Endless
      ensures Answers(LookUp(v, follow, fuel, path), f)
      decreases fuel, 1
    {
      if path == "/" {
        return fs;
      }
      var pieces := Split(Strip(path));
      f := fs;
      ghost var last, here: Path := Last(pieces), [];
      assert pieces[0..] == pieces;
      for k := 0 to |pieces|
        invariant here in at && f == at[here]
        invariant Walk(v, follow, last, fuel, here, pieces[k..]) == LookUp(v, follow, fuel, path)
      {
        var piece := pieces[k];
        WalkFrom(v, follow, last, fuel, here, pieces, k);
        ghost var r := Step(v, follow, last, fuel, here, piece);
        f := EnterByName(f, piece, piece == pieces[|pieces| - 1], follow, v, fuel, here, last);
        if f == null {
          return null;
        }
        here := r.path;
      }
    }

    /** One piece of `getfile`: the loop over the entries of `p`, in which the last match counts. */
    method EnterByName(p: Node, piece: string, isLast: bool, follow: bool,
                       ghost v: View, ghost fuel: nat, ghost here: Path, ghost last: string)
      returns (f: Node?)
      requires Walkable(v) && here in at && at[here] == p && isLast == (piece == last)
      requires Step(v, follow, last, fuel, here, piece) != Endless
      ensures Answers(Step(v, follow, last, fuel, here, piece), f)
      decreases fuel, 0, 1
    {
      ghost var r := Step(v, follow, last, fuel, here, piece);
      ChildByName(at, fs, here, piece);
      if !HasName(p.contents, piece) {
        return null;
      }
      var xs := p.contents;
      f := p;
      ghost var met := false;
      for i := 0 to |xs|
        invariant met || forall j | 0 <= j < i :: xs[j].name != piece
        invariant met ==> Answers(r, f)
      {
        var x := xs[i];
        if x.name == piece {
          assert x in at[here].contents;
          f := Enter(x, isLast, follow, v, fuel, here, last);
          if f == null {
            return null;
          }
          met := true;
        }
      }
    }

    /** What a matching entry `x` of the directory at `here` stands for. */
    method Enter(x: Node, isLast: bool, follow: bool, ghost v: View, ghost fuel: nat, ghost here: Path, ghost last: string)
      returns (f: Node?)
      requires Walkable(v) && isLast == (x.name == last)
      requires here in at && here + [x.name] in at && at[here + [x.name]] == x
      requires Step(v, follow, last, fuel, here, x.name) != Endless
      ensures Answers(Step(v, follow, last, fuel, here, x.name), f)
      decreases fuel, 0, 0
    {
      StepIs(v, follow, last, fuel, here, x.name, x.Attributes());
      if isLast && !follow {
        f := x;
      } else if x.kind.Link? {
        var target := if x.target[0] == '/' then x.target else "/" + x.target;
        f := GetFile(target, follow, v, fuel - 1);
      } else {
        f := x;
      }
    }

    /** `get_path`: the node whose contents list it returns; null where it raises FileNotFound. */
    method GetPath(path: string, ghost v: View, ghost fuel: nat) returns (d: Node?)
      requires Walkable(v)
      requires LookUpDir(v, fuel, path) != Endless
      ensures Answers(LookUpDir(v, fuel, path), d)
    {
      var parts := Split(path);
      d := fs;
      ghost var here: Path := [];
      assert parts[0..] == parts;
      for k := 0 to |parts|
        invariant here in at && d == at[here]
        invariant Walk(v, true, "", fuel, here, NonEmpty(parts[k..])) == LookUpDir(v, fuel, path)
      {
        var part := parts[k];
        WalkNonEmptyFrom(v, fuel, here, parts, k);
        if part != "" {
          ghost var r := Step(v, true, "", fuel, here, part);
          d := EnterFirst(d, part, v, fuel, here);
          if d == null {
            return null;
          }
          here := r.path;
        }
      }
    }

    /** One part of `get_path`: the loop over the entries of `p`, in which the first match counts. */
    method EnterFirst(p: Node, part: string, ghost v: View, ghost fuel: nat, ghost here: Path) returns (d: Node?)
      requires Walkable(v) && here in at && at[here] == p && part != ""
      requires Step(v, true, "", fuel, here, part) != Endless
      ensures Answers(Step(v, true, "", fuel, here, part), d)
    {
      ChildByName(at, fs, here, part);
      var xs := p.contents;
      for i := 0 to |xs|
        invariant forall j | 0 <= j < i :: xs[j].name != part
      {
        var c := xs[i];
        if c.name == part {
          assert c in at[here].contents;
          StepIs(v, true, "", fuel, here, part, c.Attributes());
          if c.kind.Link? {
            RawTarget(v, true, fuel - 1, c.target);
            d := GetFile(c.target, true, v, fuel - 1);
          } else {
            d := c;
          }
          return;
        }
      }
      d := null;
    }

    /** `exists`: a dangling link does not. */
    method PathExists(path: string, ghost fuel: nat) returns (b: bool)
      requires Valid()
      requires LookUp(ViewOf(at), true, fuel, path) != Endless
      ensures b <==> LookUp(ViewOf(at), true, fuel, path).Found?
    {
      var f := GetFile(path, true, ViewOf(at), fuel);
      return f != null;
    }

    // -------------------------------------------------------------- editing

    /** `list.remove(c)` on the contents of `d`: `c` and what hangs below it leave the tree. */
    method Detach(d: Node, c: Node, ghost dp: Path)
      requires Tree(at, fs) && dp in at && at[dp] == d && c in d.contents
      modifies this`at, d`contents
      ensures Tree(at, fs)
      ensures at == Pruned(old(at), dp + [c.name]) && dp in at
    {
      assert forall p | p in at && p != dp :: at[p] != d by { OnlyAt(at, dp); }
      at := Pruned(at, dp + [c.name]);
      d.contents := Minus(d.contents, c);
      Detached(old(at), dp, c);
    }

    /** `append(c)` on the contents of `d`; `made` entries are counted. Under a new name, `c` and what hangs
        below it join the tree; under a taken name the list holds the name twice from then on. */
    method Attach(d: Node, c: Node, made: nat, ghost dp: Path, ghost sub: map<Path, Node>)
      requires Tree(at, fs) && dp in at && at[dp] == d
      requires Tree(sub, c) && sub.Values !! at.Values
      modifies this`at, this`newcount, d`contents
      ensures newcount == old(newcount) + made
      ensures if dp + [c.name] in old(at) then at == old(at) && NameTwice(d.contents, c.name)
              else Tree(at, fs) && at == Graft(old(at), dp + [c.name], sub)
    {
      hide Shape, Distinct;
      assert forall p | p in at && p != dp :: at[p] != d by { OnlyAt(at, dp); }
      ghost var list := d.contents;
      ghost var isNew := dp + [c.name] !in at;
      assert isNew <==> !HasName(list, c.name) by { ChildByName(at, fs, dp, c.name); }
      RootsAt(at, fs);
      RootsAt(sub, c);
      newcount := newcount + made;
      at := if isNew then Graft(at, dp + [c.name], sub) else at;
      d.contents := d.contents + [c];
      if isNew {
        Attached((old(at), sub), dp);
      } else {
        NamedTwice(list, c);
      }
    }

    /** The same, told by the map. */
    method TakeOut(d: Node, c: Node, ghost dp: Path)
      requires Valid() && dp in at && at[dp] == d && c in d.contents
      modifies this`at, d`contents
      ensures Valid() && dp in at && at == Pruned(old(at), dp + [c.name])
      ensures Abs() == old(Abs()).(view := Without(old(ViewOf(at)), dp + [c.name]))
    {
      hide Shape, Distinct, WellFormed;
      Detach(d, c, dp);
      assert ViewOf(at) == Without(old(ViewOf(at)), dp + [c.name]) by {
        SameAttributes(old(at));
        PrunedView(old(at), dp + [c.name]);
      }
      WithoutWellFormed(old(ViewOf(at)), dp + [c.name]);
    }

    /** The first entry called `name`, or null. */
    method FirstNamed(list: seq<Node>, name: string) returns (c: Node?)
      ensures if HasName(list, name) then c in list && c.name == name else c == null
    {
      for i := 0 to |list|
        invariant forall j | 0 <= j < i :: list[j].name != name
      {
        if list[i].name == name {
          return list[i];
        }
      }
      return null;
    }

    /** Removes the child `name` of `d` if there is one. */
    method DropNamed(d: Node, name: string, ghost dp: Path) returns (dropped: bool)
      requires Valid() && dp in at && at[dp] == d
      modifies this`at, d`contents
      ensures Valid() && dp in at && at == Pruned(old(at), dp + [name])
      ensures Abs() == old(Abs()).(view := Without(old(ViewOf(at)), dp + [name]))
      ensures dropped == (dp + [name] in old(at)) && (!dropped ==> Abs() == old(Abs()))
    {
      hide Shape, Distinct, WellFormed;
      assert HasName(d.contents, name) <==> dp + [name] in at by { ChildByName(at, fs, dp, name); }
      var c := FirstNamed(d.contents, name);
      dropped := c != null;
      if dropped {
        TakeOut(d, c, dp);
      } else {
        assert at == Pruned(at, dp + [name]) by {
          TreeParents(at, fs);
          NoKeyBelow(at, dp + [name]);
          SameNodes(at, Pruned(at, dp + [name]));
        }
        assert ViewOf(at) == Without(ViewOf(at), dp + [name]) by {
          PrunedView(at, dp + [name]);
        }
      }
    }

    /** Appends the childless entry `n` to `d` and counts it. */
    method AttachLeaf(d: Node, n: Node, ghost dp: Path)
      requires Tree(at, fs) && dp in at && at[dp] == d
      requires n.contents == [] && n !in at.Values
      modifies this`at, this`newcount, d`contents
      ensures newcount == old(newcount) + 1 && at.Values <= old(at.Values) + {n}
      ensures if dp + [n.name] in old(at) then at == old(at) && NameTwice(d.contents, n.name)
              else Tree(at, fs) && at == old(at)[dp + [n.name] := n] && ViewOf(at) == old(ViewOf(at))[dp + [n.name] := n.Attributes()]
    {
      LeafTree(n);
      Attach(d, n, 1, dp, map[[] := n]);
      if dp + [n.name] !in old(at) {
        SameAttributes(old(at));
        NoKeyBelow(old(at), dp + [n.name]);
        LeafView(old(at), dp + [n.name], n);
      }
    }

    /** Appends a new childless entry `name` to `d`, and counts it. */
    method AppendNew(d: Node, name: string, a: Attr, ghost dp: Path)
      requires Valid() && newcount <= NEW_LIMIT && dp in at && at[dp] == d && d.kind != Link && a.kind != Link
      modifies this`at, this`newcount, d`contents
      ensures fresh(at.Values - old(at.Values))
      ensures if dp + [name] in old(at) then at == old(at) && NameTwice(d.contents, name)
              else Valid() && Abs() == FlatState(old(ViewOf(at))[dp + [name] := a], old(newcount) + 1)
    {
      hide Shape, Distinct, WellFormed;
      var n := new Node(name, a);
      AttachLeaf(d, n, dp);
      if dp + [name] !in old(at) {
        PutWellFormed(old(ViewOf(at)), dp, name, a);
        FreshPut(old(ViewOf(at)), dp + [name], a);
      }
    }

    /** Drops the child `outfile` of `dir`, if any, and appends a new one. */
    method ReplaceNamed(dir: Node, outfile: string, a: Attr, ghost dp: Path)
      requires Valid() && newcount <= NEW_LIMIT && dp in at && at[dp] == dir && dir.kind != Link && a.kind != Link
      modifies this`at, this`newcount, dir`contents
      ensures Valid() && Abs() == FlatState(Put(old(ViewOf(at)), dp + [outfile], a), old(newcount) + 1)
      ensures fresh(at.Values - old(at.Values))
    {
      hide Shape, Distinct, WellFormed;
      var dropped := DropNamed(dir, outfile, dp);
      AppendNew(dir, outfile, a, dp);
    }

    method MkFile(path: string, uid: int, gid: int, size: int, mode: bv32, ctime: int, ghost fuel: nat) returns (o: Outcome)
      requires Valid()
      requires LookUpDir(ViewOf(at), fuel, Dirname(path)) != Endless
      modifies this`at, this`newcount, at.Values`contents
      ensures Valid()
      ensures Next(Abs(), o) == old(MkFileOp(Abs(), fuel, path, Attr(File, uid, gid, size, mode, ctime, "")))
      ensures fresh(at.Values - old(at.Values))
    {
      hide Shape, Distinct, WellFormed;
      var a := Attr(File, uid, gid, size, mode, ctime, "");
      var parent := Dirname(path);
      if newcount > 10000 {
        return Full;
      }
      if Special(parent) {
        return Failed(Denied);
      }
      ghost var s := Abs();
      ghost var r := LookUpDir(s.view, fuel, parent);
      var dir := GetPath(parent, s.view, fuel);
      if dir == null {
        return Failed(NotFound);
      }
      assert !s.view[r.path].kind.Link? by { LookUpDirIsNoLink(s.view, fuel, parent); }
      ReplaceNamed(dir, Basename(path), a, r.path);
      return Done;
    }

    /** `mkdir` never looks whether the name is taken: then the directory ends up with two entries of it. */
    method MkDir(path: string, uid: int, gid: int, size: int, mode: bv32, ctime: int, ghost fuel: nat) returns (o: Outcome)
      requires Valid()
      requires LookUpDir(ViewOf(at), fuel, Dirname(Strip(path))) != Endless
      modifies this`at, this`newcount, at.Values`contents
      ensures match old(MkDirOp(Abs(), fuel, path, Attr(Dir, uid, gid, size, mode, ctime, "")))
              case Next(s, out) => Valid() && Abs() == s && o == out
              case Duplicate(dp, name) => dp in at && NameTwice(at[dp].contents, name) && o == Done
      ensures fresh(at.Values - old(at.Values))
    {
      hide Shape, Distinct, WellFormed;
      var a := Attr(Dir, uid, gid, size, mode, ctime, "");
      if newcount > 10000 {
        return Failed(Quota);
      }
      if Strip(path) == "" {
        return Failed(NotFound);
      }
      var parent := Dirname(Strip(path));
      ghost var s := Abs();
      ghost var r := LookUpDir(s.view, fuel, parent);
      var directory := GetPath(parent, s.view, fuel);
      if directory == null {
        return Failed(NotFound);
      }
      assert !s.view[r.path].kind.Link? by { LookUpDirIsNoLink(s.view, fuel, parent); }
      AppendNew(directory, Basename(path), a, r.path);
      return Done;
    }

    method MkDir2(path: string, ctime: int, ghost fuel: nat) returns (o: Outcome)
      requires Valid()
      requires LookUp(ViewOf(at), true, fuel, path) != Endless
      requires LookUpDir(ViewOf(at), fuel, Dirname(Strip(path))) != Endless
      modifies this`at, this`newcount, at.Values`contents
      ensures match old(MkDir2Op(Abs(), fuel, path, Attr(Dir, 0, 0, 4096, 16877, ctime, "")))
              case Next(s, out) => Valid() && Abs() == s && o == out
              case Duplicate(dp, name) => dp in at && NameTwice(at[dp].contents, name) && o == Done
      ensures fresh(at.Values - old(at.Values))
    {
      hide Shape, Distinct, WellFormed;
      var directory := GetFile(path, true, ViewOf(at), fuel);
      if directory != null {
        return Failed(Exists);
      }
      o := MkDir(path, 0, 0, 4096, 16877, ctime, fuel);
    }

    /** The list of the directory at `p` is empty exactly when no key lies right below it. */
    lemma EmptyList(p: Path)
      requires Shape(at, fs) && p in at
      ensures HasChild(ViewOf(at), p) <==> at[p].contents != []
    {
      if at[p].contents != [] {
        var c := at[p].contents[0];
        assert c in at[p].contents;
        PrefixChild([], p, c.name);
        assert p + [c.name] in ViewOf(at);
      }
    }

    method RmDir(path: string, ghost fuel: nat) returns (o: Outcome)
      requires Valid()
      requires LookUp(ViewOf(at), false, fuel, RStrip(path)) != Endless
      requires LookUpDir(ViewOf(at), fuel, RStrip(path)) != Endless
      requires LookUpDir(ViewOf(at), fuel, Dirname(RStrip(path))) != Endless
      modifies this`at, at.Values`contents
      ensures Valid()
      ensures Next(Abs(), o) == old(RmDirOp(Abs(), fuel, path))
    {
      hide Shape, Distinct, WellFormed, RmDirOp, LookUp, LookUpDir;
      var refusal, pdir, dp := FindForRmDir(path, Abs(), fuel);
      if refusal != Done {
        return refusal;
      }
      var dropped := DropNamed(pdir, Basename(RStrip(path)), dp);
      return if dropped then Done else Unremoved;
    }

    /** The lookups and refusals of `rmdir`: `Done` if it may go on, with the directory to look for the entry in. */
    method FindForRmDir(path: string, ghost s: FlatState, ghost fuel: nat) returns (o: Outcome, pdir: Node, ghost dp: Path)
      requires Valid() && s == Abs()
      requires LookUp(s.view, false, fuel, RStrip(path)) != Endless
      requires LookUpDir(s.view, fuel, RStrip(path)) != Endless
      requires LookUpDir(s.view, fuel, Dirname(RStrip(path))) != Endless
      ensures o != Done ==> RmDirOp(s, fuel, path) == Next(s, o)
      ensures o == Done ==>
                var q := dp + [Basename(RStrip(path))];
                && dp in at && pdir == at[dp]
                && RmDirOp(s, fuel, path) == if q !in s.view then Next(s, Unremoved) else Next(s.(view := Without(s.view, q)), Done)
    {
      hide Shape, Distinct, WellFormed, RStrip, Dirname, Basename, LookUp, LookUpDir;
      pdir, dp := fs, [];
      var p := RStrip(path);
      var directory := GetFile(p, false, s.view, fuel);
      if directory == null {
        return Failed(Exists), pdir, dp;
      }
      if !directory.kind.Dir? {
        return Failed(NotDir), pdir, dp;
      }
      var list := GetPath(p, s.view, fuel);
      if list == null {
        return Failed(NotFound), pdir, dp;
      }
      assert HasChild(s.view, LookUpDir(s.view, fuel, p).path) <==> list.contents != [] by {
        EmptyList(LookUpDir(s.view, fuel, p).path);
      }
      if |list.contents| > 0 {
        return Failed(NotEmpty), pdir, dp;
      }
      var parent := GetPath(Dirname(p), s.view, fuel);
      if parent == null {
        return Failed(NotFound), pdir, dp;
      }
      dp := LookUpDir(s.view, fuel, Dirname(p)).path;
      return Done, parent, dp;
    }

    /** The node at `q` and the one at `t` are equal in every field. */
    ghost predicate AreEqual(q: Path, t: Path)
      reads this, at.Values
      requires Tree(at, fs) && q in at && t in at
    {
      Equal(at[q], at[t], at, fs, q, BoundOf(at))
    }

    /** `x` is the entry of the directory at `dp` that equals the node at `q`, or null if there is none. */
    ghost predicate IsTwin(q: Path, dp: Path, x: Node?)
      reads this, at.Values
      requires Tree(at, fs) && q in at
    {
      var n := NotThere(Abs(), q, dp);
      x == if n.Twin? && AreEqual(q, dp + [n.name]) then at[dp + [n.name]] else null
    }

    /** `c`, the node at `q`, or the first other entry of `d` that equals it: what `list.remove(c)` takes. */
    method FirstEqual(d: Node, c: Node, ghost dp: Path, ghost q: Path) returns (x: Node?)
      requires Tree(at, fs) && dp in at && at[dp] == d && q in at && at[q] == c
      ensures x != null ==> x in d.contents && q != [] && x.name == c.name == Last(q)
      ensures q != [] && Front(q) == dp ==> x == c
      ensures !(q != [] && Front(q) == dp) ==> IsTwin(q, dp, x)
    {
      hide Equal, Distinct, Shape, MayTwin, NotThere;
      x := null;
      for i := 0 to |d.contents|
        invariant forall j | 0 <= j < i :: d.contents[j] in at.Values && !Equal(c, d.contents[j], at, fs, q, BoundOf(at))
      {
        Children(at, fs, dp, i);
        if Equal(c, d.contents[i], at, fs, q, BoundOf(at)) {
          x := d.contents[i];
          break;
        }
      }
      WhatIsTaken(d, c, dp, q, x);
    }

    /** Nothing, or an entry equal to `c` under its own name: `c` itself if it is there, else a twin. */
    lemma WhatIsTaken(d: Node, c: Node, dp: Path, q: Path, x: Node?)
      requires Tree(at, fs) && dp in at && at[dp] == d && q in at && at[q] == c
      requires if x == null then forall j | 0 <= j < |d.contents| :: d.contents[j] in at.Values && !Equal(c, d.contents[j], at, fs, q, BoundOf(at))
               else x in d.contents && x in at.Values && Equal(c, x, at, fs, q, BoundOf(at))
      ensures x != null ==> q != [] && x.name == c.name == Last(q)
      ensures q != [] && Front(q) == dp ==> x == c
      ensures !(q != [] && Front(q) == dp) ==> IsTwin(q, dp, x)
    {
      ChildByName(at, fs, dp, c.name);
      if q != [] {
        assert Front(q) in at && c.name == Last(q);
      }
      if x != null && x != c {
        assert at[dp + [x.name]] == x && x.name == c.name;
        EqualIsMayTwin(at, fs, BoundOf(at), q, dp + [x.name]);
        TwinsLieApart(ViewOf(at), q, dp + [x.name]);
      }
      EntryIffChild(q, dp);
    }

    /** `remove`. Where the node is not in the directory, an entry there that equals it is taken instead. */
    method Remove(path: string, ghost fuel: nat) returns (o: Outcome)
      requires Valid()
      requires LookUp(ViewOf(at), false, fuel, path) != Endless
      requires LookUpDir(ViewOf(at), fuel, Dirname(path)) != Endless
      modifies this`at, at.Values`contents
      ensures Valid()
      ensures var n := old(RemoveOp(Abs(), fuel, path));
              && (n.Next? ==> Abs() == n.state && o == n.outcome)
              && (n.Twin? ==>
                    && n.dir + [n.name] in old(at) && PathOf(old(LookUp(ViewOf(at), false, fuel, path))) in old(at)
                    && if old(AreEqual(PathOf(LookUp(ViewOf(at), false, fuel, path)), n.dir + [n.name]))
                       then Abs() == old(Abs()).(view := Without(old(ViewOf(at)), n.dir + [n.name])) && o == Done
                       else Abs() == old(Abs()) && o == Failed(BadValue))
              && !n.Duplicate?
    {
      hide Shape, Distinct, WellFormed, RemoveOp, LookUp, LookUpDir, MayTwin, AreEqual;
      var refusal, dir, x, dp := FindForRemove(path, Abs(), fuel);
      if refusal != Done {
        return refusal;
      }
      TakeOut(dir, x, dp);
      return Done;
    }

    /** The lookups and refusals of `remove`: `Done` if it may go on, with the directory and the entry to be taken out. */
    method FindForRemove(path: string, ghost s: FlatState, ghost fuel: nat)
      returns (o: Outcome, dir: Node, x: Node, ghost dp: Path)
      requires Valid() && s == Abs()
      requires LookUp(s.view, false, fuel, path) != Endless && LookUpDir(s.view, fuel, Dirname(path)) != Endless
      ensures o != Done ==>
                var n, q := RemoveOp(s, fuel, path), PathOf(LookUp(s.view, false, fuel, path));
                || n == Next(s, o)
                || (n.Twin? && n.dir + [n.name] in at && q in at && !AreEqual(q, n.dir + [n.name]) && o == Failed(BadValue))
      ensures o == Done ==>
                var n, q := RemoveOp(s, fuel, path), PathOf(LookUp(s.view, false, fuel, path));
                && dp in at && dir == at[dp] && x in dir.contents
                && (|| n == Next(s.(view := Without(s.view, dp + [x.name])), Done)
                    || (n == Twin(dp, x.name) && dp + [x.name] in at && q in at && AreEqual(q, dp + [x.name])))
    {
      hide Shape, Distinct, WellFormed, Dirname, LookUp, LookUpDir, MayTwin, AreEqual;
      dir, x := fs, fs;
      var p := GetFile(path, false, s.view, fuel);
      if p == null {
        return Failed(NotFound), dir, x, [];
      }
      var parent := GetPath(Dirname(path), s.view, fuel);
      if parent == null {
        return Failed(NotFound), dir, x, [];
      }
      dir := parent;
      ghost var q := LookUp(s.view, false, fuel, path).path;
      dp := LookUpDir(s.view, fuel, Dirname(path)).path;
      TwinIsThere(q, dp);
      var taken := FirstEqual(dir, p, dp, q);
      if taken == null {
        return Failed(BadValue), dir, x, dp;
      }
      x := taken;
      assert Front(q) == dp ==> dp + [x.name] == q;
      return Done, dir, x, dp;
    }

    /** The node at `q` is an entry of the directory at `dp` exactly when `dp` is its parent path. */
    lemma EntryIffChild(q: Path, dp: Path)
      requires Tree(at, fs) && q in at && dp in at
      ensures at[q] in at[dp].contents <==> q != [] && Front(q) == dp
      ensures at[q] in at[dp].contents ==> dp + [at[q].name] == q
    {
      if at[q] in at[dp].contents {
        PrefixChild([], dp, at[q].name);
        assert SamePlace(q, dp + [at[q].name]);
      }
    }

    /** Takes the node at `q` out of `d` and gives it its new name; it hangs free afterwards, as the tree `sub`. */
    method Uproot(d: Node, old_: Node, name: string, ghost dp: Path, ghost q: Path) returns (ghost sub: map<Path, Node>)
      requires Valid() && dp in at && at[dp] == d && q in at && at[q] == old_ && old_ in d.contents
      modifies this`at, d`contents, old_`name
      ensures Valid() && at == Pruned(old(at), q) && Abs() == old(Abs()).(view := Without(old(ViewOf(at)), q))
      ensures sub == Sub(old(at), q) && Tree(sub, old_) && sub.Values !! at.Values && old_.name == name
    {
      hide Shape, Distinct, WellFormed;
      sub := Sub(at, q);
      ghost var away := Pruned(at, q);
      assert dp + [old_.name] == q by { EntryIffChild(q, dp); }
      assert Tree(sub, old_) && sub.Values !! away.Values && old_ in sub.Values && d !in sub.Values by {
        SubAway(at, fs, dp, old_.name);
      }
      TakeOut(d, old_, dp);
      Christen(old_, name, sub);
    }

    /** `old[A_NAME] = name` on a node that hangs free. */
    method Christen(old_: Node, name: string, ghost sub: map<Path, Node>)
      requires Valid() && Tree(sub, old_) && sub.Values !! at.Values && old_ in sub.Values
      modifies old_`name
      ensures Valid() && Abs() == old(Abs()) && Tree(sub, old_) && old_.name == name
    {
      hide Shape, Distinct, Inv;
      RootsAt(sub, old_);
      old_.name := name;
      RootRenamed(sub);
    }

    /** Hangs the free tree `sub` into `d`. */
    method Replant(d: Node, c: Node, ghost dp: Path, ghost sub: map<Path, Node>, ghost was: map<Path, Node>, ghost q: Path)
      requires Valid() && dp in at && at[dp] == d && d.kind != Link && c.kind != Link
      requires q in was && q != [] && at == Pruned(was, q) && sub == Sub(was, q) && Tree(sub, c) && sub.Values !! at.Values
      requires WellFormed(ViewOf(was)) && was[q] == c
      modifies this`at, this`newcount, d`contents
      ensures if dp + [c.name] in old(at) then at == old(at) && NameTwice(d.contents, c.name)
              else Valid() && Abs() == old(Abs()).(view := Move(old(ViewOf(was)), q, dp + [c.name]))
    {
      hide Shape, Distinct, WellFormed;
      TreeParents(at, fs);
      Attach(d, c, 0, dp, sub);
      if dp + [c.name] !in old(at) {
        Replanted(was, q, dp, c.name);
      }
    }

    /** How `rename` ends, by the tree before the call. */
    ghost function RenameOutcome(oldpath: string, newpath: string, fuel: nat): Outcome
      reads this, at.Values
      requires Valid()
    {
      match RenameOp(Abs(), fuel, oldpath, newpath)
      case Next(_, o) => o
      case Duplicate(_, _) => Done
      case Twin(dir, name) =>
        var q := PathOf(LookUp(ViewOf(at), true, fuel, oldpath));
        if q in at && dir + [name] in at && AreEqual(q, dir + [name]) then Strayed else Failed(BadValue)
    }

    /** `rename`. Both lookups follow links, so the node found may hang elsewhere than where the old path ends. If an
        entry there equals it, that entry is taken out instead, and the node is renamed in its old place before it
        is hung in a second one: from there on this is no tree any more, and the method ends. */
    method Rename(oldpath: string, newpath: string, ghost fuel: nat) returns (o: Outcome)
      requires Valid()
      requires LookUp(ViewOf(at), true, fuel, oldpath) != Endless
      requires LookUp(ViewOf(at), true, fuel, newpath) != Endless
      requires LookUpDir(ViewOf(at), fuel, Dirname(oldpath)) != Endless
      requires LookUpDir(Without(ViewOf(at), PathOf(LookUp(ViewOf(at), true, fuel, oldpath))), fuel, Dirname(newpath)) != Endless
      modifies this`at, this`newcount, at.Values`contents, at.Values`name
      ensures var n := old(RenameOp(Abs(), fuel, oldpath, newpath));
              var q := PathOf(old(LookUp(ViewOf(at), true, fuel, oldpath)));
              && (n.Next? ==> Valid() && Abs() == n.state && o == n.outcome)
              && (n.Duplicate? ==> n.dir in at && NameTwice(at[n.dir].contents, n.name) && o == Done)
              && (n.Twin? ==>
                    && n.dir + [n.name] in old(at) && q in old(at)
                    && if old(AreEqual(q, n.dir + [n.name])) then Astray(old(at), q, n.dir + [n.name], Basename(newpath)) && o == Strayed
                       else Valid() && Abs() == old(Abs()) && o == Failed(BadValue))
      ensures o == old(RenameOutcome(oldpath, newpath, fuel))
    {
      hide Shape, Distinct, WellFormed, Dirname, Basename, LookUp, LookUpDir, MayTwin, AreEqual, ReinsertOp, RenameOp, Without, Sub;
      ghost var s := Abs();
      var refusal, old_, d, x := FindForRename(oldpath, newpath, s, fuel);
      if refusal != Done {
        return refusal;
      }
      ghost var q, dp := LookUp(s.view, true, fuel, oldpath).path, LookUpDir(s.view, fuel, Dirname(oldpath)).path;
      if x == old_ {
        o := MoveNode(d, old_, newpath, dp, q, s, fuel);
      } else {
        TwinsLieApart(s.view, q, dp + [x.name]);
        LeadAstray(d, old_, x, Basename(newpath), dp, q, dp + [x.name]);
        o := Strayed;
      }
    }

    /** Takes the node out, names it anew and hangs it in again. */
    method MoveNode(d: Node, old_: Node, newpath: string, ghost dp: Path, ghost q: Path, ghost s: FlatState, ghost fuel: nat)
      returns (o: Outcome)
      requires Valid() && s == Abs() && q in at && q != [] && at[q] == old_ && dp in at && at[dp] == d && old_ in d.contents
      requires old_.kind != Link && LookUpDir(Without(s.view, q), fuel, Dirname(newpath)) != Endless
      modifies this`at, this`newcount, at.Values`contents, at.Values`name
      ensures var n := ReinsertOp(s, fuel, q, newpath);
              && (n.Next? ==> Valid() && Abs() == n.state && o == n.outcome)
              && (n.Duplicate? ==> n.dir in at && NameTwice(at[n.dir].contents, n.name) && o == Done)
              && !n.Twin?
    {
      hide Shape, Distinct, WellFormed, Dirname, Basename, LookUpDir, ReinsertOp, Without, Sub;
      ghost var was := at;
      ghost var sub := Uproot(d, old_, Basename(newpath), dp, q);
      o := RenameInto(old_, newpath, sub, was, q, s, fuel);
    }

    /** The entry at `t` is gone, and the node at `q` still hangs where it did, under the name `name`. */
    ghost predicate Astray(was: map<Path, Node>, q: Path, t: Path, name: string)
      reads this, at.Values
    {
      && q in was && q != [] && at == Pruned(was, t) && q in at && Front(q) in at
      && at[q] in at[Front(q)].contents && at[q].name == name
    }

    method LeadAstray(d: Node, old_: Node, x: Node, name: string, ghost dp: Path, ghost q: Path, ghost t: Path)
      requires Valid() && dp in at && at[dp] == d && x in d.contents && q in at && q != [] && at[q] == old_
      requires t == dp + [x.name] && !(t <= q)
      modifies this`at, d`contents, old_`name
      ensures Astray(old(at), q, t, name)
    {
      hide Shape, Distinct, WellFormed, Inv, Without;
      TakeOut(d, x, dp);
      LeftHanging(old(at), q, t);
      hide Pruned, ViewOf;
      old_.name := name;
    }

    lemma LeftHanging(was: map<Path, Node>, q: Path, t: Path)
      requires Tree(at, fs) && q in was && q != [] && at == Pruned(was, t) && !(t <= q)
      ensures q in at && at[q] == was[q] && Front(q) in at && at[q] in at[Front(q)].contents
    {
      HangsAbove(q);
    }

    lemma HangsAbove(q: Path)
      requires Tree(at, fs) && q in at && q != []
      ensures Front(q) in at && at[q] in at[Front(q)].contents
    {
    }

    /** The lookups and refusals of `rename`: `Done` if it may go on, with the node, its directory, and the entry that
        is to be taken out there. */
    method FindForRename(oldpath: string, newpath: string, ghost s: FlatState, ghost fuel: nat)
      returns (o: Outcome, old_: Node, d: Node, x: Node)
      requires Valid() && s == Abs()
      requires LookUp(s.view, true, fuel, oldpath) != Endless && LookUp(s.view, true, fuel, newpath) != Endless
      requires LookUpDir(s.view, fuel, Dirname(oldpath)) != Endless
      ensures o != Done ==>
                var n, q := RenameOp(s, fuel, oldpath, newpath), PathOf(LookUp(s.view, true, fuel, oldpath));
                || n == Next(s, o)
                || (n.Twin? && n.dir + [n.name] in at && q in at && !AreEqual(q, n.dir + [n.name]) && o == Failed(BadValue))
      ensures o == Done ==>
                var r, rd := LookUp(s.view, true, fuel, oldpath), LookUpDir(s.view, fuel, Dirname(oldpath));
                && r.Found? && rd.Found? && old_ == at[r.path] && d == at[rd.path] && x in d.contents && r.path != []
                && old_.kind != Link
                && var n := RenameOp(s, fuel, oldpath, newpath);
                   if x == old_ then old_ in d.contents && n == ReinsertOp(s, fuel, r.path, newpath)
                   else n == Twin(rd.path, x.name) && MayTwin(s.view, r.path, rd.path + [x.name])
                        && rd.path + [x.name] in at && AreEqual(r.path, rd.path + [x.name])
    {
      hide Shape, Distinct, WellFormed, Dirname, LookUp, LookUpDir, MayTwin, AreEqual, ReinsertOp;
      x := fs;
      o, old_, d := EndsForRename(oldpath, newpath, s, fuel);
      if o != Done {
        return;
      }
      ghost var q, dp := LookUp(s.view, true, fuel, oldpath).path, LookUpDir(s.view, fuel, Dirname(oldpath)).path;
      TwinIsThere(q, dp);
      var taken := FirstEqual(d, old_, dp, q);
      if taken == null {
        o := Failed(BadValue);
        return;
      }
      x := taken;
      assert !s.view[q].kind.Link? by { FoundIsNoLink(s.view, fuel, oldpath); }
      assert q != [] && Front(q) != dp ==> x != old_ by { EntryIffChild(q, dp); }
    }

    method EndsForRename(oldpath: string, newpath: string, ghost s: FlatState, ghost fuel: nat)
      returns (o: Outcome, old_: Node, d: Node)
      requires Valid() && s == Abs()
      requires LookUp(s.view, true, fuel, oldpath) != Endless && LookUp(s.view, true, fuel, newpath) != Endless
      requires LookUpDir(s.view, fuel, Dirname(oldpath)) != Endless
      ensures o != Done ==> RenameOp(s, fuel, oldpath, newpath) == Next(s, o)
      ensures o == Done ==>
                var r, rd := LookUp(s.view, true, fuel, oldpath), LookUpDir(s.view, fuel, Dirname(oldpath));
                && r.Found? && rd.Found? && LookUp(s.view, true, fuel, newpath).Missing?
                && r.path in at && rd.path in at && old_ == at[r.path] && d == at[rd.path]
    {
      hide Shape, Distinct, WellFormed, Dirname, LookUp, LookUpDir, NotThere, ReinsertOp;
      old_, d := fs, fs;
      var found := GetFile(oldpath, true, s.view, fuel);
      if found == null {
        return Failed(NotFound), old_, d;
      }
      var new_ := GetFile(newpath, true, s.view, fuel);
      if new_ != null {
        return Failed(Exists), old_, d;
      }
      var parent := GetPath(Dirname(oldpath), s.view, fuel);
      if parent == null {
        return Failed(NotFound), old_, d;
      }
      return Done, found, parent;
    }

    lemma TwinIsThere(q: Path, dp: Path)
      requires q in at
      ensures var n := NotThere(Abs(), q, dp);
              n.Twin? ==> n.dir + [n.name] in at && n.dir == dp && MayTwin(Abs().view, q, n.dir + [n.name])
    {
    }

    /** The second half of `rename`: by now the node is out of the tree. */
    method RenameInto(old_: Node, newpath: string, ghost sub: map<Path, Node>, ghost was: map<Path, Node>, ghost q: Path,
                      ghost s: FlatState, ghost fuel: nat) returns (o: Outcome)
      requires Valid() && q in was && q != [] && at == Pruned(was, q) && s == FlatState(ViewOf(was), newcount) && Inv(s)
      requires sub == Sub(was, q) && Tree(sub, old_) && sub.Values !! at.Values && was[q] == old_
      requires old_.name == Basename(newpath) && old_.kind != Link
      requires LookUpDir(ViewOf(at), fuel, Dirname(newpath)) != Endless
      modifies this`at, this`newcount, at.Values`contents
      ensures var n := ReinsertOp(s, fuel, q, newpath);
              && (n.Next? ==> Valid() && Abs() == n.state && o == n.outcome)
              && (n.Duplicate? ==> n.dir in at && NameTwice(at[n.dir].contents, n.name) && o == Done)
              && !n.Twin?
    {
      hide Shape, Distinct, WellFormed;
      ghost var rest := Without(s.view, q);
      assert ViewOf(at) == rest by { PrunedView(was, q); }
      ghost var r := LookUpDir(rest, fuel, Dirname(newpath));
      var d2 := GetPath(Dirname(newpath), rest, fuel);
      if d2 == null {
        return Failed(NotFound);
      }
      assert !rest[r.path].kind.Link? by { LookUpDirIsNoLink(rest, fuel, Dirname(newpath)); }
      Replant(d2, old_, r.path, sub, was, q);
      return Done;
    }

    // -------------------------------------------------------------- attributes

    /** Only the node at `q` changed its attributes: only that key of the map did. */
    twostate lemma OneEntryEdited(q: Path)
      requires at == old(at) && q in at
      requires forall p | p in at && p != q :: at[p].Attributes() == old(at[p].Attributes())
      ensures ViewOf(at) == old(ViewOf(at))[q := at[q].Attributes()]
    {
      SameView(ViewOf(at), old(ViewOf(at))[q := at[q].Attributes()]);
    }

    /** Assigns the fields of the node at `q` that `chmod`, `chown` and `update_size` may touch. */
    method SetFields(p: Node, uid: int, gid: int, size: int, mode: bv32, ghost q: Path)
      requires Valid() && q in at && at[q] == p
      modifies p`uid, p`gid, p`size, p`mode
      ensures Valid()
      ensures Abs() == old(Abs()).(view := old(ViewOf(at))[q := old(p.Attributes()).(uid := uid, gid := gid, size := size, mode := mode)])
    {
      hide Shape, WellFormed;
      assert forall k | k in at && k != q :: at[k] != p by { OnlyAt(at, q); }
      p.uid, p.gid, p.size, p.mode := uid, gid, size, mode;
      assert Tree(at, fs);
      assert ViewOf(at) == old(ViewOf(at))[q := p.Attributes()] by { OneEntryEdited(q); }
      assert WellFormed(ViewOf(at)) by { EditWellFormed(old(ViewOf(at)), q, p.Attributes()); }
    }

    method Chmod(path: string, perm: bv32, ghost fuel: nat) returns (o: Outcome)
      requires Valid()
      requires LookUp(ViewOf(at), true, fuel, path) != Endless
      modifies at.Values
      ensures Valid()
      ensures Next(Abs(), o) == old(EditOp(Abs(), fuel, path, Failed(NotFound), ChmodEdit(perm)))
    {
      hide Shape, Distinct, WellFormed;
      ghost var r := LookUp(ViewOf(at), true, fuel, path);
      var p := GetFile(path, true, ViewOf(at), fuel);
      if p == null {
        return Failed(NotFound);
      }
      SetFields(p, p.uid, p.gid, p.size, (p.mode & S_IFMT_MASK) | perm, r.path);
      return Done;
    }

    method Chown(path: string, uid: int, gid: int, ghost fuel: nat) returns (o: Outcome)
      requires Valid()
      requires LookUp(ViewOf(at), true, fuel, path) != Endless
      modifies at.Values
      ensures Valid()
      ensures Next(Abs(), o) == old(EditOp(Abs(), fuel, path, Failed(NotFound), ChownEdit(uid, gid)))
    {
      hide Shape, Distinct, WellFormed;
      ghost var r := LookUp(ViewOf(at), true, fuel, path);
      var p := GetFile(path, true, ViewOf(at), fuel);
      if p == null {
        return Failed(NotFound);
      }
      SetFields(p, if uid != -1 then uid else p.uid, if gid != -1 then gid else p.gid, p.size, p.mode, r.path);
      return Done;
    }

    method UpdateSize(path: string, size: int, ghost fuel: nat) returns (o: Outcome)
      requires Valid()
      requires LookUp(ViewOf(at), true, fuel, path) != Endless
      modifies at.Values
      ensures Valid()
      ensures Next(Abs(), o) == old(EditOp(Abs(), fuel, path, Done, SizeEdit(size)))
    {
      hide Shape, Distinct, WellFormed;
      ghost var r := LookUp(ViewOf(at), true, fuel, path);
      var p := GetFile(path, true, ViewOf(at), fuel);
      if p == null {
        return Done;
      }
      SetFields(p, p.uid, p.gid, if p.kind.File? then size else p.size, p.mode, r.path);
      return Done;
    }
  }
}
