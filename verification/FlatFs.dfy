/** The virtual filesystem as a flat map from component sequences to attributes, and what path walking,
    link following and the editing operations mean on that map. */
module FlatFs {
  import opened Paths

  datatype Kind = Link | Dir | File | Blk | Chr | Sock | Fifo

  datatype Attr = Attr(kind: Kind, uid: int, gid: int, size: int, mode: bv32, ctime: int, target: string)

  type View = map<Path, Attr>

  /** Outcome of a walk. `Endless`: the nesting of links is deeper than the fuel allows. */
  datatype Look = Found(path: Path) | Missing | Endless

  /** Every path has a parent, links have no children and a non-empty target, and the root is no link. */
  ghost predicate WellFormed(v: View) {
    && [] in v && !v[[]].kind.Link?
    && (forall p {:trigger Front(p)} | p in v && p != [] :: Front(p) in v && !v[Front(p)].kind.Link?)
    && (forall p | p in v && v[p].kind.Link? :: v[p].target != "")
  }

  // ---------------------------------------------------------------- walking

  /** What `getfile` iterates over. */
  function Pieces(path: string): seq<string> {
    if path == "/" then [] else Split(Strip(path))
  }

  /** A relative target is taken from the root: the working directory never advances. */
  function LinkTarget(target: string): string {
    if Absolute(target) then target else "/" + target
  }

  /** The walk of `getfile` from `here` over `pieces`; with `follow` off, a piece equal to `last` is not followed. */
  function Walk(v: View, follow: bool, last: string, fuel: nat, here: Path, pieces: seq<string>): (r: Look)
    requires here in v
    ensures r.Found? ==> r.path in v
    decreases fuel, 1, |pieces|
  {
    if pieces == [] then Found(here)
    else
      var r := Step(v, follow, last, fuel, here, pieces[0]);
      if r.Found? then Walk(v, follow, last, fuel, r.path, pieces[1..]) else r
  }

  /** One piece of a walk: a child, or where the link of that name leads. */
  function Step(v: View, follow: bool, last: string, fuel: nat, here: Path, piece: string): (r: Look)
    requires here in v
    ensures r.Found? ==> r.path in v
    decreases fuel, 0, 0
  {
    var q := here + [piece];
    if q !in v then Missing
    else if piece == last && !follow then Found(q)
    else if v[q].kind.Link? then
      if fuel == 0 then Endless else LookUp(v, follow, fuel - 1, LinkTarget(v[q].target))
    else Found(q)
  }

  /** `getfile(path, follow)` */
  function LookUp(v: View, follow: bool, fuel: nat, path: string): (r: Look)
    ensures r.Found? ==> r.path in v
    decreases fuel, 2, 0
  {
    if [] !in v then Missing
    else if path == "/" then Found([])
    else Walk(v, follow, Last(Pieces(path)), fuel, [], Pieces(path))
  }

  /** `get_path(path)`: the directory whose contents it returns. Empty parts are skipped, links always followed. */
  function LookUpDir(v: View, fuel: nat, path: string): (r: Look)
    ensures r.Found? ==> r.path in v
  {
    if [] !in v then Missing else Walk(v, true, "", fuel, [], NonEmpty(Split(path)))
  }

  lemma StepIs(v: View, follow: bool, last: string, fuel: nat, here: Path, piece: string, a: Attr)
    requires here in v && here + [piece] in v && v[here + [piece]] == a
    ensures Step(v, follow, last, fuel, here, piece) ==
              if !(piece == last && !follow) && a.kind.Link? then
                if fuel == 0 then Endless else LookUp(v, follow, fuel - 1, LinkTarget(a.target))
              else Found(here + [piece])
  {
  }

  lemma WalkFrom(v: View, follow: bool, last: string, fuel: nat, here: Path, pieces: seq<string>, k: nat)
    requires here in v && k < |pieces|
    ensures Walk(v, follow, last, fuel, here, pieces[k..]) ==
              var r := Step(v, follow, last, fuel, here, pieces[k]);
              if r.Found? then Walk(v, follow, last, fuel, r.path, pieces[k + 1..]) else r
  {
    assert pieces[k..][0] == pieces[k] && pieces[k..][1..] == pieces[k + 1..];
  }

  /** The same for `get_path`, which passes over empty parts. */
  lemma WalkNonEmptyFrom(v: View, fuel: nat, here: Path, parts: seq<string>, k: nat)
    requires here in v && k < |parts|
    ensures Walk(v, true, "", fuel, here, NonEmpty(parts[k..])) ==
              if parts[k] == "" then Walk(v, true, "", fuel, here, NonEmpty(parts[k + 1..]))
              else
                var r := Step(v, true, "", fuel, here, parts[k]);
                if r.Found? then Walk(v, true, "", fuel, r.path, NonEmpty(parts[k + 1..])) else r
  {
    assert parts[k..][0] == parts[k] && parts[k..][1..] == parts[k + 1..];
    var rest := NonEmpty(parts[k + 1..]);
    assert [] + rest == rest;
    assert ([parts[k]] + rest)[1..] == rest;
  }

  /** With links followed, the name of the last piece plays no part. */
  lemma {:induction false} LastIsIgnored(v: View, a: string, b: string, fuel: nat, here: Path, pieces: seq<string>)
    requires here in v
    ensures Walk(v, true, a, fuel, here, pieces) == Walk(v, true, b, fuel, here, pieces)
    decreases |pieces|
  {
    if pieces != [] {
      var r := Step(v, true, a, fuel, here, pieces[0]);
      assert r == Step(v, true, b, fuel, here, pieces[0]);
      if r.Found? {
        LastIsIgnored(v, a, b, fuel, r.path, pieces[1..]);
      }
    }
  }

  /** The two walkers agree on every normalised path: same node, same failure, same non-termination. */
  lemma WalkersAgree(v: View, fuel: nat, p: Path)
    requires Normal(p) && [] in v
    ensures LookUp(v, true, fuel, Render(p)) == LookUpDir(v, fuel, Render(p))
  {
    SplitRender(p);
    if p == [] {
      assert Render(p) == "/";
    } else {
      StripRender(p);
      JoinNormalEnds(p);
      LastIsIgnored(v, Last(p), "", fuel, [], p);
    }
  }

  /** `get_path` hands the raw target to `getfile`; for a non-empty target that is the same walk. */
  lemma RawTarget(v: View, follow: bool, fuel: nat, target: string)
    requires target != ""
    ensures LookUp(v, follow, fuel, target) == LookUp(v, follow, fuel, LinkTarget(target))
  {
    if !Absolute(target) {
      assert ("/" + target)[1..] == target;
      assert LStrip("/" + target) == LStrip(target);
    }
  }

  lemma {:induction false} WalkConcat(v: View, follow: bool, last: string, fuel: nat, here: Path, a: seq<string>, b: seq<string>)
    requires here in v
    ensures var r := Walk(v, follow, last, fuel, here, a);
            Walk(v, follow, last, fuel, here, a + b) == if r.Found? then Walk(v, follow, last, fuel, r.path, b) else r
    decreases |a|
  {
    if a == [] {
      assert a + b == b;
    } else {
      assert (a + b)[1..] == a[1..] + b;
      var r := Step(v, follow, last, fuel, here, a[0]);
      if r.Found? {
        WalkConcat(v, follow, last, fuel, r.path, a[1..], b);
      }
    }
  }

  // ---------------------------------------------------------------- termination

  /** More fuel never changes an answer. */
  lemma {:induction false} MoreFuel(v: View, follow: bool, last: string, fuel: nat, more: nat, here: Path, pieces: seq<string>)
    requires here in v && fuel <= more
    requires Walk(v, follow, last, fuel, here, pieces) != Endless
    ensures Walk(v, follow, last, more, here, pieces) == Walk(v, follow, last, fuel, here, pieces)
    decreases fuel, 1, |pieces|
  {
    if pieces != [] {
      var q := here + [pieces[0]];
      if q in v && !(pieces[0] == last && !follow) && v[q].kind.Link? {
        MoreFuelLookUp(v, follow, fuel - 1, more - 1, LinkTarget(v[q].target));
      }
      var r := Step(v, follow, last, fuel, here, pieces[0]);
      assert r == Step(v, follow, last, more, here, pieces[0]);
      if r.Found? {
        MoreFuel(v, follow, last, fuel, more, r.path, pieces[1..]);
      }
    }
  }

  lemma {:induction false} MoreFuelLookUp(v: View, follow: bool, fuel: nat, more: nat, path: string)
    requires fuel <= more
    requires LookUp(v, follow, fuel, path) != Endless
    ensures LookUp(v, follow, more, path) == LookUp(v, follow, fuel, path)
    decreases fuel, 2, 0
  {
    if [] in v && path != "/" {
      MoreFuel(v, follow, Last(Pieces(path)), fuel, more, [], Pieces(path));
    }
  }

  /** Resolving any link needs fewer than `fuel` nested links. */
  ghost predicate LinksSettle(v: View, follow: bool, fuel: nat) {
    forall l | l in v && v[l].kind.Link? :: LookUp(v, follow, fuel, LinkTarget(v[l].target)) != Endless
  }

  /** When every link settles, every walk ends, from everywhere and over any pieces. */
  lemma {:induction false} SettledWalksEnd(v: View, follow: bool, last: string, fuel: nat, here: Path, pieces: seq<string>)
    requires here in v && LinksSettle(v, follow, fuel)
    ensures Walk(v, follow, last, fuel + 1, here, pieces) != Endless
    decreases |pieces|
  {
    if pieces != [] {
      var r := Step(v, follow, last, fuel + 1, here, pieces[0]);
      if r.Found? {
        SettledWalksEnd(v, follow, last, fuel, r.path, pieces[1..]);
      }
    }
  }

  /** The same walk, but it gives up on a link whose rank is not below `bound`: inside a link only
      links of lower rank may be met. */
  function RankedWalk(v: View, rank: map<Path, nat>, bound: nat, here: Path, pieces: seq<string>): (r: Look)
    requires here in v && [] in v
    requires forall l | l in v && v[l].kind.Link? :: l in rank
    ensures r.Found? ==> r.path in v
    decreases bound, |pieces|
  {
    if pieces == [] then Found(here)
    else
      var q := here + [pieces[0]];
      if q !in v then Missing
      else if v[q].kind.Link? then
        if rank[q] >= bound then Endless
        else
          var r := RankedWalk(v, rank, rank[q], [], Pieces(LinkTarget(v[q].target)));
          if r.Found? then RankedWalk(v, rank, bound, r.path, pieces[1..]) else r
      else RankedWalk(v, rank, bound, q, pieces[1..])
  }

  /** The link relation is well founded: `rank` drops from each link to the links its target runs into. */
  ghost predicate Ranked(v: View, rank: map<Path, nat>) {
    && [] in v
    && (forall l | l in v && v[l].kind.Link? :: l in rank)
    && (forall l | l in v && v[l].kind.Link? ::
          RankedWalk(v, rank, rank[l], [], Pieces(LinkTarget(v[l].target))) != Endless)
  }

  /** A walk that respects the ranks is the real walk; its measure is link rank, then pieces left. */
  lemma {:induction false} RankedIsWalk(v: View, rank: map<Path, nat>, bound: nat, here: Path, pieces: seq<string>)
    requires here in v && [] in v
    requires forall l | l in v && v[l].kind.Link? :: l in rank
    requires RankedWalk(v, rank, bound, here, pieces) != Endless
    ensures Walk(v, true, "", bound, here, pieces) == RankedWalk(v, rank, bound, here, pieces)
    decreases bound, |pieces|
  {
    if pieces != [] {
      var q := here + [pieces[0]];
      if q in v && v[q].kind.Link? {
        var t := LinkTarget(v[q].target);
        RankedIsWalk(v, rank, rank[q], [], Pieces(t));
        MoreFuel(v, true, "", rank[q], bound - 1, [], Pieces(t));
        if t != "/" {
          LastIsIgnored(v, Last(Pieces(t)), "", bound - 1, [], Pieces(t));
        }
        var r := Step(v, true, "", bound, here, pieces[0]);
        assert r == LookUp(v, true, bound - 1, t);
        assert t == "/" ==> RankedWalk(v, rank, rank[q], [], []) == Found([]);
        assert r == RankedWalk(v, rank, rank[q], [], Pieces(t));
        if r.Found? {
          RankedIsWalk(v, rank, bound, r.path, pieces[1..]);
        }
      } else if q in v {
        RankedIsWalk(v, rank, bound, q, pieces[1..]);
      }
    }
  }

  /** If the links can be ranked, `getfile` and `get_path` end on every path. */
  lemma RankedTerminates(v: View, rank: map<Path, nat>, top: nat)
    requires Ranked(v, rank)
    requires forall l | l in rank :: rank[l] < top
    ensures LinksSettle(v, true, top)
    ensures forall path, fuel: nat | fuel > top :: LookUp(v, true, fuel, path) != Endless
    ensures forall path, fuel: nat | fuel > top :: LookUpDir(v, fuel, path) != Endless
  {
    forall l | l in v && v[l].kind.Link?
      ensures LookUp(v, true, top, LinkTarget(v[l].target)) != Endless
    {
      var t := LinkTarget(v[l].target);
      RankedIsWalk(v, rank, rank[l], [], Pieces(t));
      MoreFuel(v, true, "", rank[l], top, [], Pieces(t));
      if t != "/" {
        LastIsIgnored(v, Last(Pieces(t)), "", top, [], Pieces(t));
      }
    }
    forall path, fuel: nat | fuel > top
      ensures LookUp(v, true, fuel, path) != Endless && LookUpDir(v, fuel, path) != Endless
    {
      if path != "/" {
        SettledWalksEnd(v, true, Last(Pieces(path)), top, [], Pieces(path));
        MoreFuel(v, true, Last(Pieces(path)), top + 1, fuel, [], Pieces(path));
      }
      SettledWalksEnd(v, true, "", top, [], NonEmpty(Split(path)));
      MoreFuel(v, true, "", top + 1, fuel, [], NonEmpty(Split(path)));
    }
  }

  /** The fuel below which a link does not settle: its rank. */
  ghost function LeastFuel(v: View, path: string, fuel: nat): (n: nat)
    requires LookUp(v, true, fuel, path) != Endless
    ensures n <= fuel && LookUp(v, true, n, path) != Endless
    ensures forall m: nat | m < n :: LookUp(v, true, m, path) == Endless
  {
    if fuel == 0 then 0
    else if LookUp(v, true, fuel - 1, path) != Endless then LeastFuel(v, path, fuel - 1)
    else
      assert forall m: nat | m < fuel :: LookUp(v, true, m, path) == Endless by {
        forall m: nat | m < fuel ensures LookUp(v, true, m, path) == Endless {
          if LookUp(v, true, m, path) != Endless {
            MoreFuelLookUp(v, true, m, fuel - 1, path);
          }
        }
      }
      fuel
  }

  ghost function LeastRanks(v: View, fuel: nat): map<Path, nat>
    requires LinksSettle(v, true, fuel)
  {
    map l | l in v && v[l].kind.Link? :: LeastFuel(v, LinkTarget(v[l].target), fuel)
  }

  /** A walk that ends within `bound` nested links meets only links of least rank below `bound`. */
  lemma {:induction false} LeastRanksWalk(v: View, fuel: nat, bound: nat, here: Path, pieces: seq<string>)
    requires here in v && [] in v && LinksSettle(v, true, fuel)
    requires Walk(v, true, "", bound, here, pieces) != Endless
    ensures RankedWalk(v, LeastRanks(v, fuel), bound, here, pieces) == Walk(v, true, "", bound, here, pieces)
    decreases bound, |pieces|
  {
    var rank := LeastRanks(v, fuel);
    if pieces != [] {
      var q := here + [pieces[0]];
      if q in v && v[q].kind.Link? {
        var t := LinkTarget(v[q].target);
        assert LookUp(v, true, bound - 1, t) != Endless;
        assert rank[q] <= bound - 1;
        MoreFuelLookUp(v, true, rank[q], bound - 1, t);
        if t != "/" {
          LastIsIgnored(v, Last(Pieces(t)), "", rank[q], [], Pieces(t));
        }
        LeastRanksWalk(v, fuel, rank[q], [], Pieces(t));
        var r := Step(v, true, "", bound, here, pieces[0]);
        if r.Found? {
          LeastRanksWalk(v, fuel, bound, r.path, pieces[1..]);
        }
      } else if q in v {
        LeastRanksWalk(v, fuel, bound, q, pieces[1..]);
      }
    }
  }

  /** Conversely, links that settle can be ranked: with `RankedTerminates`, ranking is exactly termination. */
  lemma TerminatesOnlyRanked(v: View, fuel: nat)
    requires [] in v && LinksSettle(v, true, fuel)
    ensures Ranked(v, LeastRanks(v, fuel))
  {
    forall l | l in v && v[l].kind.Link?
      ensures RankedWalk(v, LeastRanks(v, fuel), LeastRanks(v, fuel)[l], [], Pieces(LinkTarget(v[l].target))) != Endless
    {
      var t := LinkTarget(v[l].target);
      var n := LeastRanks(v, fuel)[l];
      if t != "/" {
        LastIsIgnored(v, Last(Pieces(t)), "", n, [], Pieces(t));
      }
      LeastRanksWalk(v, fuel, n, [], Pieces(t));
    }
  }

  // ---------------------------------------------------------------- where a walk can lead

  /** Following links never ends on a link. */
  lemma {:induction false} FollowedIsNoLink(v: View, last: string, fuel: nat, here: Path, pieces: seq<string>)
    requires WellFormed(v) && here in v && !v[here].kind.Link?
    ensures var r := Walk(v, true, last, fuel, here, pieces);
            r.Found? ==> !v[r.path].kind.Link?
    decreases fuel, |pieces|
  {
    if pieces != [] {
      var q := here + [pieces[0]];
      if q in v && v[q].kind.Link? && fuel > 0 {
        var t := LinkTarget(v[q].target);
        if t != "/" {
          FollowedIsNoLink(v, Last(Pieces(t)), fuel - 1, [], Pieces(t));
        }
        assert Step(v, true, last, fuel, here, pieces[0]) == LookUp(v, true, fuel - 1, t);
      }
      var r := Step(v, true, last, fuel, here, pieces[0]);
      if r.Found? {
        FollowedIsNoLink(v, last, fuel, r.path, pieces[1..]);
      }
    }
  }

  /** Links have no children, so a walk cannot go on from one. */
  lemma LinkIsDeadEnd(v: View, follow: bool, last: string, fuel: nat, here: Path, pieces: seq<string>)
    requires WellFormed(v) && here in v && v[here].kind.Link? && pieces != []
    ensures Walk(v, follow, last, fuel, here, pieces) == Missing
  {
    var q := here + [pieces[0]];
    assert Front(q) == here;
  }

  /** A walk that leaves links alone and still reaches something other than a link agrees with the walk
      that follows them, even though "last piece" is decided by name. */
  lemma {:induction false} NoFollowAgrees(v: View, last: string, fuel: nat, here: Path, pieces: seq<string>)
    requires WellFormed(v) && here in v && !v[here].kind.Link?
    requires var r := Walk(v, false, last, fuel, here, pieces); r.Found? && !v[r.path].kind.Link?
    ensures Walk(v, true, last, fuel, here, pieces) == Walk(v, false, last, fuel, here, pieces)
    decreases fuel, |pieces|
  {
    if pieces != [] {
      var q := here + [pieces[0]];
      var r := Step(v, false, last, fuel, here, pieces[0]);
      if v[r.path].kind.Link? && pieces[1..] != [] {
        LinkIsDeadEnd(v, false, last, fuel, r.path, pieces[1..]);
      }
      assert !v[r.path].kind.Link?;
      if v[q].kind.Link? {
        var t := LinkTarget(v[q].target);
        assert r == LookUp(v, false, fuel - 1, t);
        if t != "/" {
          NoFollowAgrees(v, Last(Pieces(t)), fuel - 1, [], Pieces(t));
        }
        assert Step(v, true, last, fuel, here, pieces[0]) == LookUp(v, true, fuel - 1, t);
      }
      NoFollowAgrees(v, last, fuel, r.path, pieces[1..]);
    }
  }

  /** `getfile` without following the last piece, on `parent/name`: the child `name` of the directory that
      `get_path` finds for `parent`. */
  lemma NoFollowChild(v: View, fuel: nat, parent: Path, name: string)
    requires WellFormed(v) && Normal(parent) && NormalName(name)
    requires LookUp(v, false, fuel, Render(parent + [name])).Found?
    ensures var d := LookUpDir(v, fuel, Render(parent));
            d.Found? && LookUp(v, false, fuel, Render(parent + [name])) == Found(d.path + [name])
  {
    var p := parent + [name];
    StripRender(p);
    JoinNormalEnds(p);
    SplitRender(parent);
    WalkConcat(v, false, name, fuel, [], parent, [name]);
    var d := Walk(v, false, name, fuel, [], parent);
    assert d.Found? && d.path + [name] in v;
    assert Front(d.path + [name]) == d.path;
    NoFollowAgrees(v, name, fuel, [], parent);
    LastIsIgnored(v, name, "", fuel, [], parent);
  }

  /** No link among the proper prefixes of `p`. */
  ghost predicate LinkFree(v: View, p: Path) {
    forall k | 0 <= k < |p| && p[..k] in v :: !v[p[..k]].kind.Link?
  }

  ghost predicate IsLink(v: View, p: Path) {
    p in v && v[p].kind.Link?
  }

  lemma {:induction false} LinkFreeWalk(v: View, follow: bool, last: string, fuel: nat, here: Path, pieces: seq<string>)
    requires WellFormed(v) && here in v && LinkFree(v, here + pieces)
    requires pieces != [] && IsLink(v, here + pieces) ==> !follow && last == Last(pieces)
    ensures Walk(v, follow, last, fuel, here, pieces) == if here + pieces in v then Found(here + pieces) else Missing
    decreases |pieces|
  {
    if pieces == [] {
      assert here + pieces == here;
    } else {
      var q := here + [pieces[0]];
      assert here + pieces == q + pieces[1..];
      assert (here + pieces)[..|q|] == q;
      if q in v {
        if pieces[1..] == [] {
          assert here + pieces == q;
        } else {
          LinkFreeWalk(v, follow, last, fuel, q, pieces[1..]);
        }
      } else {
        PrefixPresent(v, here + pieces, |q|);
      }
    }
  }

  lemma {:induction false} PrefixPresent(v: View, p: Path, k: nat)
    requires WellFormed(v) && k <= |p|
    ensures p in v ==> p[..k] in v
    decreases |p| - k
  {
    if k < |p| {
      PrefixPresent(v, p, k + 1);
      assert p[..k + 1] != [] && Front(p[..k + 1]) == p[..k];
    } else {
      assert p[..k] == p;
    }
  }

  /** With no link above it, looking up a normalised path is membership in the map. */
  lemma LinkFreeLookUp(v: View, fuel: nat, p: Path)
    requires WellFormed(v) && Normal(p) && LinkFree(v, p)
    ensures LookUp(v, false, fuel, Render(p)) == if p in v then Found(p) else Missing
    ensures !IsLink(v, p) ==> LookUp(v, true, fuel, Render(p)) == if p in v then Found(p) else Missing
    ensures !IsLink(v, p) ==> LookUpDir(v, fuel, Render(p)) == if p in v then Found(p) else Missing
  {
    SplitRender(p);
    assert [] + p == p;
    if !IsLink(v, p) {
      LinkFreeWalk(v, true, "", fuel, [], p);
      WalkersAgree(v, fuel, p);
    }
    if p == [] {
      assert Render(p) == "/";
    } else {
      StripRender(p);
      JoinNormalEnds(p);
      LinkFreeWalk(v, false, Last(p), fuel, [], p);
    }
  }

  /** The walk of `get_path` over `p` comes to a link at its piece `i`. */
  ghost predicate LinkMet(v: View, fuel: nat, p: Path, i: nat)
    requires [] in v && i < |p|
  {
    var r := Walk(v, true, "", fuel, [], p[..i]);
    r.Found? && IsLink(v, r.path + [p[i]])
  }

  /** That link. */
  ghost function MetAt(v: View, fuel: nat, p: Path, i: nat): (l: Path)
    requires [] in v && i < |p| && LinkMet(v, fuel, p, i)
    ensures IsLink(v, l)
  {
    Walk(v, true, "", fuel, [], p[..i]).path + [p[i]]
  }

  /** Where the link leads can be told without following a last link. */
  ghost predicate EndsOffLink(v: View, fuel: nat, l: Path)
    requires IsLink(v, l)
  {
    fuel > 0
    && var r := LookUp(v, false, fuel - 1, LinkTarget(v[l].target));
       r.Found? && !IsLink(v, r.path)
  }

  /** A link on the way that a lookup which leaves links alone gets past. */
  ghost predicate Passable(v: View, fuel: nat, p: Path, i: nat, name: string)
    requires [] in v && i < |p|
  {
    LinkMet(v, fuel, p, i) ==> p[i] != name && EndsOffLink(v, fuel, MetAt(v, fuel, p, i))
  }

  /** One piece of such a lookup, seen from the walk that follows links. */
  lemma NoFollowStep(v: View, last: string, fuel: nat, here: Path, pieces: seq<string>)
    requires WellFormed(v) && here in v && !v[here].kind.Link? && pieces != []
    requires Walk(v, true, "", fuel, here, pieces).Found?
    ensures var q := here + [pieces[0]];
            var next := Step(v, true, "", fuel, here, pieces[0]).path;
            && q in v && Step(v, true, "", fuel, here, pieces[0]).Found? && !v[next].kind.Link?
            && var r := Walk(v, false, last, fuel, here, pieces);
               (r.Found? && !IsLink(v, r.path)) <==>
               && (IsLink(v, q) ==> pieces[0] != last && EndsOffLink(v, fuel, q))
               && var r' := Walk(v, false, last, fuel, next, pieces[1..]); r'.Found? && !IsLink(v, r'.path)
  {
    var q := here + [pieces[0]];
    var next := Step(v, true, "", fuel, here, pieces[0]).path;
    FollowedIsNoLink(v, "", fuel, here, pieces[..1]);
    assert pieces[..1][1..] == [];
    assert Walk(v, true, "", fuel, here, pieces[..1]) == Step(v, true, "", fuel, here, pieces[0]);
    var step := Step(v, false, last, fuel, here, pieces[0]);
    if IsLink(v, q) {
      if pieces[0] != last && EndsOffLink(v, fuel, q) {
        var t := LinkTarget(v[q].target);
        if t != "/" {
          NoFollowAgrees(v, Last(Pieces(t)), fuel - 1, [], Pieces(t));
        }
        assert step == Found(next);
      } else if step.Found? {
        assert IsLink(v, step.path);
        if pieces[1..] != [] {
          LinkIsDeadEnd(v, false, last, fuel, step.path, pieces[1..]);
        }
      }
    } else {
      assert step == Found(next);
    }
  }

  lemma {:induction false} NoFollowFrom(v: View, name: string, fuel: nat, p: Path, k: nat, here: Path)
    requires WellFormed(v) && k <= |p| && here in v && !v[here].kind.Link?
    requires Walk(v, true, "", fuel, [], p[..k]) == Found(here) && Walk(v, true, "", fuel, here, p[k..]).Found?
    ensures var r := Walk(v, false, name, fuel, here, p[k..]);
            (r.Found? && !IsLink(v, r.path)) <==> forall i | k <= i < |p| :: Passable(v, fuel, p, i, name)
    decreases |p| - k
  {
    if k < |p| {
      hide Walk, Step, Passable, EndsOffLink, LinkMet, WellFormed;
      var next := Step(v, true, "", fuel, here, p[k]).path;
      assert p[k..][0] == p[k] && p[k..][1..] == p[k + 1..];
      NoFollowStep(v, name, fuel, here, p[k..]);
      PrefixWalk(v, fuel, p, k, here);
      NoFollowFrom(v, name, fuel, p, k + 1, next);
      AtPiece(v, fuel, p, k, here, name);
    }
  }

  lemma PrefixWalk(v: View, fuel: nat, p: Path, k: nat, here: Path)
    requires [] in v && k < |p| && here in v && Walk(v, true, "", fuel, [], p[..k]) == Found(here)
    requires Step(v, true, "", fuel, here, p[k]).Found?
    ensures var next := Step(v, true, "", fuel, here, p[k]).path;
            && Walk(v, true, "", fuel, [], p[..k + 1]) == Found(next)
            && Walk(v, true, "", fuel, here, p[k..]) == Walk(v, true, "", fuel, next, p[k + 1..])
  {
    WalkConcat(v, true, "", fuel, [], p[..k], [p[k]]);
    assert p[..k + 1] == p[..k] + [p[k]];
    assert [p[k]][1..] == [];
    WalkFrom(v, true, "", fuel, here, p, k);
  }

  lemma AtPiece(v: View, fuel: nat, p: Path, k: nat, here: Path, name: string)
    requires [] in v && k < |p| && Walk(v, true, "", fuel, [], p[..k]) == Found(here)
    ensures Passable(v, fuel, p, k, name) <==>
            (IsLink(v, here + [p[k]]) ==> p[k] != name && EndsOffLink(v, fuel, here + [p[k]]))
  {
  }

  /** With the last piece in its directory, all depends on the way there ending where following links does. */
  lemma NoFollowEnds(v: View, fuel: nat, parent: Path, name: string)
    requires WellFormed(v)
    requires var d := Walk(v, true, "", fuel, [], parent); d.Found? && d.path + [name] in v
    ensures var r := Walk(v, false, name, fuel, [], parent);
            Walk(v, false, name, fuel, [], parent + [name]).Found? <==> r.Found? && !IsLink(v, r.path)
  {
    RootIsNoLink(v);
    hide WellFormed;
    WalkConcat(v, false, name, fuel, [], parent, [name]);
    var r := Walk(v, false, name, fuel, [], parent);
    if r.Found? {
      if IsLink(v, r.path) {
        LinkIsDeadEnd(v, false, name, fuel, r.path, [name]);
      } else {
        NoFollowAgrees(v, name, fuel, [], parent);
        LastIsIgnored(v, name, "", fuel, [], parent);
        assert [name][1..] == [];
      }
    }
  }

  lemma RootIsNoLink(v: View)
    requires WellFormed(v)
    ensures [] in v && !v[[]].kind.Link?
  {
  }

  /** Exactly when `getfile` without following finds an entry that is there: `parent/name`, where `get_path` gets to
      `parent` and `name` is in it, is found if and only if no link met on the way is itself called `name`, and
      each leads to something other than a link even when its own last piece is not followed. */
  lemma NoFollowFindsIff(v: View, fuel: nat, parent: Path, name: string)
    requires WellFormed(v) && Normal(parent) && NormalName(name)
    requires var d := LookUpDir(v, fuel, Render(parent)); d.Found? && d.path + [name] in v
    ensures LookUp(v, false, fuel, Render(parent + [name])).Found? <==>
            forall i | 0 <= i < |parent| :: Passable(v, fuel, parent, i, name)
  {
    hide WellFormed, Walk, Passable;
    StripRender(parent + [name]);
    JoinNormalEnds(parent + [name]);
    SplitRender(parent);
    RootIsNoLink(v);
    assert LookUp(v, false, fuel, Render(parent + [name])) == Walk(v, false, name, fuel, [], parent + [name]);
    hide LookUp, Render;
    assert parent[..0] == [] && parent[0..] == parent;
    NothingToWalk(v, fuel);
    NoFollowFrom(v, name, fuel, parent, 0, []);
    NoFollowEnds(v, fuel, parent, name);
  }

  lemma NothingToWalk(v: View, fuel: nat)
    requires [] in v
    ensures Walk(v, true, "", fuel, [], []) == Found([])
  {
  }

  const ROOT_ATTR := Attr(Dir, 0, 0, 0, 0, 0, "")
  const LINK_TO_D := Attr(Link, 0, 0, 0, 0, 0, "/d")

  /** `/a` is a link to `/d`, and `/d/a` is a directory. */
  const BY_NAME: View := map[[] := ROOT_ATTR, ["a"] := LINK_TO_D, ["d"] := ROOT_ATTR, ["d", "a"] := ROOT_ATTR]

  lemma ByNameWellFormed()
    ensures WellFormed(BY_NAME)
  {
    assert Front(["d", "a"]) == ["d"];
  }

  lemma ByNameSteps(fuel: nat)
    requires fuel > 0
    ensures Step(BY_NAME, true, "a", fuel, [], "a") == Found(["d"])
    ensures Step(BY_NAME, true, "a", fuel, ["d"], "a") == Found(["d", "a"])
    ensures Step(BY_NAME, false, "a", fuel, [], "a") == Found(["a"])
  {
    assert [] + ["a"] == ["a"] && ["d"] + ["a"] == ["d", "a"];
    ByNameWellFormed();
    LinkFreeLookUp(BY_NAME, fuel - 1, ["d"]);
    assert Render(["d"]) == "/d";
  }

  /** With `follow_symlinks=False` "the last piece" is recognised by its name, so a link higher up that shares the
      name is left alone too: `/a/a` is reported missing though it exists. */
  lemma LastPieceByName(fuel: nat)
    requires fuel > 0
    ensures WellFormed(BY_NAME)
    ensures LookUp(BY_NAME, true, fuel, Render(["a", "a"])) == Found(["d", "a"])
    ensures LookUp(BY_NAME, false, fuel, Render(["a", "a"])) == Missing
  {
    var p := ["a", "a"];
    StripRender(p);
    JoinNormalEnds(p);
    assert p[1..] == ["a"] && ["a"][1..] == [];
    ByNameSteps(fuel);
    ByNameWellFormed();
    LinkIsDeadEnd(BY_NAME, false, "a", fuel, ["a"], ["a"]);
    assert Walk(BY_NAME, true, "a", fuel, ["d"], ["a"]) == Found(["d", "a"]);
  }

  /** `/a` is a link to `/b`, `/b` one to `/c`, and `/c/x` is a directory. */
  const CHAINED: View := map[[] := ROOT_ATTR, ["a"] := Attr(Link, 0, 0, 0, 0, 0, "/b"), ["b"] := Attr(Link, 0, 0, 0, 0, 0, "/c"),
                             ["c"] := ROOT_ATTR, ["c", "x"] := ROOT_ATTR]

  /** A path of one component is one step from the root. */
  lemma OnePiece(v: View, follow: bool, fuel: nat, name: string)
    requires NormalName(name) && [] in v
    ensures LookUp(v, follow, fuel, Render([name])) == Step(v, follow, name, fuel, [], name)
    ensures LookUpDir(v, fuel, Render([name])) == Step(v, true, "", fuel, [], name)
  {
    StripRender([name]);
    JoinNormalEnds([name]);
    SplitRender([name]);
    assert |Render([name])| > 1;
    OneStep(v, follow, name, fuel, name);
    OneStep(v, true, "", fuel, name);
  }

  lemma OneStep(v: View, follow: bool, last: string, fuel: nat, piece: string)
    requires [] in v
    ensures Walk(v, follow, last, fuel, [], [piece]) == Step(v, follow, last, fuel, [], piece)
  {
    assert [piece][1..] == [];
  }

  lemma ChainedWellFormed()
    ensures WellFormed(CHAINED)
  {
    assert Front(["c", "x"]) == ["c"];
  }

  lemma ChainedSteps(fuel: nat)
    requires fuel > 1
    ensures LookUp(CHAINED, false, fuel - 1, "/b") == Found(["b"])
    ensures LookUpDir(CHAINED, fuel, Render(["a"])) == Found(["c"])
  {
    hide LookUp, LookUpDir;
    assert Render(["b"]) == "/b" && Render(["c"]) == "/c";
    assert [] + ["a"] == ["a"] && [] + ["b"] == ["b"] && [] + ["c"] == ["c"];
    OnePiece(CHAINED, true, fuel - 2, "c");
    OnePiece(CHAINED, true, fuel - 1, "b");
    OnePiece(CHAINED, false, fuel - 1, "b");
    OnePiece(CHAINED, true, fuel, "a");
  }

  /** The other way to miss: no name repeats, but `/a` leads to a link that is left alone inside, so `/a/x` is
      reported missing though it exists. */
  lemma ChainedLinksStop(fuel: nat)
    requires fuel > 1
    ensures LookUpDir(CHAINED, fuel, Render(["a"])) == Found(["c"]) && ["c", "x"] in CHAINED
    ensures !LookUp(CHAINED, false, fuel, Render(["a", "x"])).Found?
  {
    ChainedSteps(fuel);
    ChainedWellFormed();
    hide Walk, LookUpDir, Render, WellFormed;
    assert ["c"] + ["x"] == ["c", "x"] && ["a"] + ["x"] == ["a", "x"] && [] + ["a"] == ["a"];
    NoFollowFindsIff(CHAINED, fuel, ["a"], "x");
    assert ["a"][..0] == [];
    assert !Passable(CHAINED, fuel, ["a"], 0, "x");
  }
}
