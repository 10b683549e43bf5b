/** When path walks end: exactly when no cycle of links exists, and what a rename has to do to make one. */
module FlatLinks {
  import opened FlatFs
  import opened FlatOps
  import opened Paths

  function TargetPieces(v: View, l: Path): seq<string>
    requires IsLink(v, l)
  {
    Pieces(LinkTarget(v[l].target))
  }

  lemma LinkLookUp(v: View, fuel: nat, l: Path)
    requires [] in v && IsLink(v, l)
    ensures LookUp(v, true, fuel, LinkTarget(v[l].target)) == Walk(v, true, "", fuel, [], TargetPieces(v, l))
  {
    var t := LinkTarget(v[l].target);
    if t != "/" {
      LastIsIgnored(v, Last(Pieces(t)), "", fuel, [], Pieces(t));
    }
  }

  /** The walk over `ps` from the root comes to the path `m` at its piece `i`. */
  ghost predicate ComesTo(v: View, fuel: nat, ps: seq<string>, i: nat, m: Path)
    requires [] in v
  {
    i < |ps| && var r := Walk(v, true, "", fuel, [], ps[..i]); r.Found? && r.path + [ps[i]] == m
  }

  /** Following `l` comes to `m`, whether or not that is there. */
  ghost predicate Meets(v: View, l: Path, m: Path)
    requires [] in v && IsLink(v, l)
  {
    exists fuel: nat, i: nat :: ComesTo(v, fuel, TargetPieces(v, l), i, m)
  }

  /** Links each of which meets the next, back to the first. */
  ghost predicate IsCycle(v: View, c: seq<Path>)
    requires [] in v
  {
    && |c| >= 2 && c[0] == c[|c| - 1]
    && IsLinkChain(v, c)
  }

  ghost predicate IsLinkChain(v: View, c: seq<Path>)
    requires [] in v
  {
    && (forall i | 0 <= i < |c| :: IsLink(v, c[i]))
    && (forall i | 0 <= i < |c| - 1 :: Meets(v, c[i], c[i + 1]))
  }

  // ---------------------------------------------------------------- settled links have no cycle

  ghost function RankOf(v: View, fuel: nat, l: Path): nat
    requires LinksSettle(v, true, fuel) && IsLink(v, l)
  {
    LeastFuel(v, LinkTarget(v[l].target), fuel)
  }

  /** A link that is met has a smaller rank. */
  lemma MeetingLowersRank(v: View, fuel: nat, l: Path, m: Path)
    requires [] in v && LinksSettle(v, true, fuel) && IsLink(v, l) && IsLink(v, m) && Meets(v, l, m)
    ensures RankOf(v, fuel, m) < RankOf(v, fuel, l)
  {
    hide Walk;
    var ps := TargetPieces(v, l);
    var n := RankOf(v, fuel, l);
    var f: nat, i: nat :| ComesTo(v, f, ps, i, m);
    LinkLookUp(v, n, l);
    var here := SameWayThere(v, ps, i, n, f);
    MetIsFollowed(v, n, here, ps[i], m);
  }

  /** A walk that ends passes a place that it comes to with some fuel, with its own fuel too. */
  lemma SameWayThere(v: View, ps: seq<string>, i: nat, n: nat, f: nat) returns (here: Path)
    requires [] in v && i < |ps| && Walk(v, true, "", n, [], ps) != Endless && Walk(v, true, "", f, [], ps[..i]).Found?
    ensures Walk(v, true, "", f, [], ps[..i]) == Found(here) && here in v && Step(v, true, "", n, here, ps[i]) != Endless
  {
    hide Step;
    assert ps == ps[..i] + ps[i..];
    WalkConcat(v, true, "", n, [], ps[..i], ps[i..]);
    var big := if f < n then n else f;
    MoreFuel(v, true, "", n, big, [], ps[..i]);
    MoreFuel(v, true, "", f, big, [], ps[..i]);
    here := Walk(v, true, "", n, [], ps[..i]).path;
    WalkFrom(v, true, "", n, here, ps, i);
  }

  lemma MetIsFollowed(v: View, n: nat, here: Path, piece: string, m: Path)
    requires here in v && here + [piece] == m && IsLink(v, m) && Step(v, true, "", n, here, piece) != Endless
    ensures n > 0 && LookUp(v, true, n - 1, LinkTarget(v[m].target)) != Endless
  {
  }

  lemma {:induction false} ChainLowersRank(v: View, fuel: nat, c: seq<Path>)
    requires [] in v && LinksSettle(v, true, fuel) && c != [] && IsLinkChain(v, c)
    ensures RankOf(v, fuel, c[|c| - 1]) + |c| - 1 <= RankOf(v, fuel, c[0])
  {
    hide RankOf, Meets, LinksSettle;
    if |c| > 1 {
      var front := c[..|c| - 1];
      ChainLowersRank(v, fuel, front);
      assert Meets(v, c[|c| - 2], c[|c| - 2 + 1]);
      MeetingLowersRank(v, fuel, c[|c| - 2], c[|c| - 1]);
    }
  }

  // ---------------------------------------------------------------- and without a cycle they settle

  /** Following the link never ends, however deep links may nest. */
  ghost predicate Never(v: View, l: Path)
    requires IsLink(v, l)
  {
    forall n: nat :: LookUp(v, true, n, LinkTarget(v[l].target)) == Endless
  }

  ghost predicate NeverFrom(v: View, here: Path, pieces: seq<string>)
    requires here in v
  {
    forall n: nat :: Walk(v, true, "", n, here, pieces) == Endless
  }

  /** A walk that never ends is past a step that does. */
  lemma NeverAfterStep(v: View, base: nat, here: Path, pieces: seq<string>, next: Path)
    requires here in v && pieces != [] && NeverFrom(v, here, pieces)
    requires Step(v, true, "", base, here, pieces[0]) == Found(next)
    ensures NeverFrom(v, next, pieces[1..])
  {
    forall n: nat ensures Walk(v, true, "", n, next, pieces[1..]) == Endless {
      var big := if n < base then base else n;
      var one := pieces[..1];
      assert one[0] == pieces[0] && one[1..] == [];
      assert Walk(v, true, "", base, here, one) == Found(next);
      MoreFuel(v, true, "", base, big, here, one);
      assert Step(v, true, "", big, here, pieces[0]) == Found(next);
      assert Walk(v, true, "", big, here, pieces) == Endless;
      if Walk(v, true, "", n, next, pieces[1..]) != Endless {
        MoreFuel(v, true, "", n, big, next, pieces[1..]);
      }
    }
  }

  /** The first link on a walk that never ends whose own walk never ends. */
  lemma {:induction false} NeverMeetsNever(v: View, ps: seq<string>, i: nat, here: Path, base: nat) returns (m: Path, f: nat, j: nat)
    requires [] in v && i <= |ps| && here in v
    requires Walk(v, true, "", base, [], ps[..i]) == Found(here) && NeverFrom(v, here, ps[i..])
    ensures ComesTo(v, f, ps, j, m) && IsLink(v, m) && Never(v, m)
    decreases |ps| - i
  {
    assert Walk(v, true, "", 0, here, ps[i..]) == Endless;
    assert i < |ps|;
    WalkFrom(v, true, "", 0, here, ps, i);
    var c := here + [ps[i]];
    assert c in v;
    if IsLink(v, c) && Never(v, c) {
      return c, base, i;
    }
    var b, next := base, c;
    if IsLink(v, c) {
      var n0: nat :| LookUp(v, true, n0, LinkTarget(v[c].target)) != Endless;
      b := if base < n0 + 1 then n0 + 1 else base;
      MoreFuelLookUp(v, true, n0, b - 1, LinkTarget(v[c].target));
      var r := Step(v, true, "", b, here, ps[i]);
      WalkFrom(v, true, "", b, here, ps, i);
      assert Walk(v, true, "", b, here, ps[i..]) == Endless;
      assert r.Found?;
      next := r.path;
    }
    MoreFuel(v, true, "", base, b, [], ps[..i]);
    assert ps[i..][0] == ps[i] && ps[i..][1..] == ps[i + 1..];
    NeverAfterStep(v, b, here, ps[i..], next);
    PrefixStep(v, b, ps, i, here, next);
    m, f, j := NeverMeetsNever(v, ps, i + 1, next, b);
  }

  lemma PrefixStep(v: View, fuel: nat, ps: seq<string>, i: nat, here: Path, next: Path)
    requires [] in v && i < |ps| && here in v
    requires Walk(v, true, "", fuel, [], ps[..i]) == Found(here) && Step(v, true, "", fuel, here, ps[i]) == Found(next)
    ensures Walk(v, true, "", fuel, [], ps[..i + 1]) == Found(next)
  {
    WalkConcat(v, true, "", fuel, [], ps[..i], [ps[i]]);
    assert ps[..i + 1] == ps[..i] + [ps[i]];
    assert [ps[i]][1..] == [];
  }

  lemma NeverLeadsOn(v: View, l: Path) returns (m: Path)
    requires [] in v && IsLink(v, l) && Never(v, l)
    ensures IsLink(v, m) && Never(v, m) && Meets(v, l, m)
  {
    var ps := TargetPieces(v, l);
    forall n: nat ensures Walk(v, true, "", n, [], ps[0..]) == Endless {
      LinkLookUp(v, n, l);
      assert ps[0..] == ps;
    }
    assert ps[..0] == [];
    var f, j;
    m, f, j := NeverMeetsNever(v, ps, 0, [], 0);
    assert ComesTo(v, f, TargetPieces(v, l), j, m);
  }

  lemma {:induction false} NeverChain(v: View, l: Path, k: nat) returns (c: seq<Path>)
    requires [] in v && IsLink(v, l) && Never(v, l)
    ensures |c| == k + 1 && IsLinkChain(v, c) && Never(v, c[k])
  {
    if k == 0 {
      c := [l];
    } else {
      var before := NeverChain(v, l, k - 1);
      var m := NeverLeadsOn(v, before[k - 1]);
      c := before + [m];
    }
  }

  ghost function Links(v: View): set<Path> {
    set l | l in v && v[l].kind.Link?
  }

  /** More entries than members: two are equal. */
  lemma {:induction false} Pigeonhole(c: seq<Path>, all: set<Path>) returns (i: nat, j: nat)
    requires (forall k | 0 <= k < |c| :: c[k] in all) && |c| > |all|
    ensures i < j < |c| && c[i] == c[j]
    decreases |c|
  {
    var last := |c| - 1;
    if k :| 0 <= k < last && c[k] == c[last] {
      i, j := k, last;
    } else {
      i, j := Pigeonhole(c[..last], all - {c[last]});
    }
  }

  lemma NeverMakesCycle(v: View, l: Path) returns (c: seq<Path>)
    requires [] in v && IsLink(v, l) && Never(v, l)
    ensures IsCycle(v, c)
  {
    var chain := NeverChain(v, l, |Links(v)|);
    hide Meets, Never;
    assert forall k | 0 <= k < |chain| :: chain[k] in Links(v);
    var i, j := Pigeonhole(chain, Links(v));
    c := chain[i..j + 1];
    assert forall k | 0 <= k < |c| :: c[k] == chain[i + k];
    forall k | 0 <= k < |c| - 1 ensures Meets(v, c[k], c[k + 1]) {
      assert Meets(v, chain[i + k], chain[i + k + 1]);
    }
  }

  lemma {:induction false} CommonFuel(v: View, ls: set<Path>) returns (n: nat)
    requires forall l | l in ls :: IsLink(v, l) && !Never(v, l)
    ensures forall l | l in ls :: IsLink(v, l) && LookUp(v, true, n, LinkTarget(v[l].target)) != Endless
    decreases |ls|
  {
    if ls == {} {
      n := 0;
    } else {
      var l :| l in ls;
      var a: nat :| LookUp(v, true, a, LinkTarget(v[l].target)) != Endless;
      var b := CommonFuel(v, ls - {l});
      n := if a < b then b else a;
      forall m | m in ls ensures LookUp(v, true, n, LinkTarget(v[m].target)) != Endless {
        MoreFuelLookUp(v, true, if m == l then a else b, n, LinkTarget(v[m].target));
      }
    }
  }

  ghost predicate Settles(v: View) {
    exists n: nat :: LinksSettle(v, true, n)
  }

  /** Exactly when every walk ends: when no links lead round in a circle. */
  lemma SettlesIffNoCycle(v: View)
    requires [] in v
    ensures Settles(v) <==> forall c: seq<Path> :: !IsCycle(v, c)
  {
    if Settles(v) {
      var n: nat :| LinksSettle(v, true, n);
      forall c: seq<Path> ensures !IsCycle(v, c) {
        if IsCycle(v, c) {
          ChainLowersRank(v, n, c);
        }
      }
    } else if l :| l in Links(v) && Never(v, l) {
      var c := NeverMakesCycle(v, l);
    } else {
      var n := CommonFuel(v, Links(v));
      assert LinksSettle(v, true, n);
    }
  }

  // ---------------------------------------------------------------- renaming

  /** Following `l` stops at `to`, which is not there. */
  ghost predicate DanglesAt(v: View, l: Path, to: Path)
    requires [] in v && IsLink(v, l)
  {
    to !in v && Meets(v, l, to)
  }

  ghost predicate MovesLink(v: View, from: Path) {
    exists l :: l in v && from <= l && IsLink(v, l)
  }

  ghost predicate SomeDangleAt(v: View, to: Path)
    requires [] in v
  {
    exists l :: l in Links(v) && DanglesAt(v, l, to)
  }

  /** If nothing is moved to where some link's walk stopped, every link leads where it led, or nowhere. */
  lemma {:induction false} NewWalk(v: View, from: Path, to: Path, fuel: nat, ps: seq<string>, i: nat, here: Path)
    requires WellFormed(v) && from != [] && to !in v && to != [] && !SomeDangleAt(v, to)
    requires i <= |ps| && here in v && !(from <= here) && Walk(v, true, "", fuel, [], ps[..i]) == Found(here)
    requires forall f: nat, j: nat :: !ComesTo(v, f, ps, j, to)
    ensures var w := Move(v, from, to);
            here in w && var r := Walk(w, true, "", fuel, here, ps[i..]);
            (r.Found? ==> r.path in v && !(from <= r.path)) && (r.Missing? || r == Walk(v, true, "", fuel, here, ps[i..]))
    decreases fuel, |ps| - i
  {
    var w := Move(v, from, to);
    NothingBelow(v, to, here);
    MoveElsewhere(v, from, to, here);
    if i < |ps| {
      var c := here + [ps[i]];
      WalkFrom(v, true, "", fuel, here, ps, i);
      WalkFrom(w, true, "", fuel, here, ps, i);
      assert !ComesTo(v, fuel, ps, i, to);
      assert !(to <= c) by { PrefixSnoc(to, here, ps[i]); }
      MoveElsewhere(v, from, to, c);
      if c in w {
        var next := c;
        if w[c].kind.Link? && fuel > 0 {
          NewLookUp(v, from, to, fuel - 1, c);
        }
        var r := Step(w, true, "", fuel, here, ps[i]);
        if r.Found? {
          assert Step(v, true, "", fuel, here, ps[i]) == r;
          PrefixStep(v, fuel, ps, i, here, r.path);
          NewWalk(v, from, to, fuel, ps, i + 1, r.path);
        }
      }
    }
  }

  lemma {:induction false} NewLookUp(v: View, from: Path, to: Path, fuel: nat, l: Path)
    requires WellFormed(v) && from != [] && to !in v && to != [] && !SomeDangleAt(v, to)
    requires IsLink(v, l)
    ensures var w := Move(v, from, to);
            var t := LinkTarget(v[l].target);
            var r := LookUp(w, true, fuel, t);
            (r.Found? ==> r.path in v && !(from <= r.path)) && (r.Missing? || r == LookUp(v, true, fuel, t))
    decreases fuel, |TargetPieces(v, l)| + 1
  {
    var ps := TargetPieces(v, l);
    var w := Move(v, from, to);
    forall f: nat, j: nat ensures !ComesTo(v, f, ps, j, to) {
      assert l in Links(v);
      assert !DanglesAt(v, l, to);
    }
    assert ps[..0] == [] && ps[0..] == ps;
    NewWalk(v, from, to, fuel, ps, 0, []);
    LinkLookUp(v, fuel, l);
    var t := LinkTarget(v[l].target);
    if t != "/" {
      LastIsIgnored(w, Last(Pieces(t)), "", fuel, [], Pieces(t));
    }
  }

  lemma UndanglingMoveSettles(v: View, from: Path, to: Path, depth: nat)
    requires WellFormed(v) && from != [] && to !in v && to != [] && !SomeDangleAt(v, to) && LinksSettle(v, true, depth)
    ensures LinksSettle(Move(v, from, to), true, depth)
  {
    var w := Move(v, from, to);
    forall l | l in w && w[l].kind.Link? ensures LookUp(w, true, depth, LinkTarget(w[l].target)) != Endless {
      var l0 := l;
      if to <= l {
        MovedKeysAt(v, from, to, l);
        l0 := from + l[|to|..];
        NothingBelow(v, to, if l in v then l else []);
        assert w[l] == v[l0];
      } else {
        MoveElsewhere(v, from, to, l);
      }
      NewLookUp(v, from, to, depth, l0);
    }
  }

  /** Moving a subtree without links settles no worse. */
  lemma LinkFreeMoveSettles(v: View, from: Path, to: Path, follow: bool, depth: nat)
    requires WellFormed(v) && from in v && from != [] && to !in v && !MovesLink(v, from) && LinksSettle(v, follow, depth)
    ensures LinksSettle(Move(v, from, to), follow, depth)
  {
    forall k | k in Without(v, from) ensures !(to <= k) {
      NothingBelow(v, to, k);
    }
    MoveIsSubtreeEdit(v, from, to);
    SubtreeEditSettles(v, Move(v, from, to), to, follow, depth);
  }

  /** A rename makes walks endless exactly when it closes a circle of links; it can do so only by moving a link to
      where, or to below where, another link's walk stopped. */
  lemma MoveClosesCycleIff(v: View, from: Path, to: Path)
    requires WellFormed(v) && from in v && from != [] && to !in v && to != [] && Settles(v)
    ensures !(from <= []) && [] in Move(v, from, to)
    ensures !Settles(Move(v, from, to)) <==> exists c: seq<Path> :: IsCycle(Move(v, from, to), c)
    ensures !Settles(Move(v, from, to)) ==> MovesLink(v, from) && SomeDangleAt(v, to)
  {
    MoveElsewhere(v, from, to, []);
    SettlesIffNoCycle(Move(v, from, to));
    var n: nat :| LinksSettle(v, true, n);
    if !MovesLink(v, from) {
      LinkFreeMoveSettles(v, from, to, true, n);
    }
    if !SomeDangleAt(v, to) {
      UndanglingMoveSettles(v, from, to, n);
    }
  }

  // ---------------------------------------------------------------- taking a subtree out

  /** The walk comes to `q`, on its own or while a link is followed. */
  ghost predicate Passes(v: View, fuel: nat, here: Path, pieces: seq<string>, q: Path)
    requires [] in v && here in v
    decreases fuel, |pieces|
  {
    && pieces != []
    && var c := here + [pieces[0]];
       || c == q
       || (IsLink(v, c) && fuel > 0 && Passes(v, fuel - 1, [], TargetPieces(v, c), q))
       || var r := Step(v, true, "", fuel, here, pieces[0]);
          r.Found? && Passes(v, fuel, r.path, pieces[1..], q)
  }

  /** Without the subtree at `q`, walks that come to `q` fail, and all others are as before. */
  lemma {:induction false} WalkWithout(v: View, q: Path, fuel: nat, here: Path, pieces: seq<string>)
    requires WellFormed(v) && q in v && q != [] && here in v && !(q <= here)
    ensures [] in v && here in Without(v, q)
    ensures Walk(Without(v, q), true, "", fuel, here, pieces) ==
              if Passes(v, fuel, here, pieces, q) then Missing else Walk(v, true, "", fuel, here, pieces)
    ensures var r := Walk(v, true, "", fuel, here, pieces);
            r.Found? && !Passes(v, fuel, here, pieces, q) ==> !(q <= r.path)
    decreases fuel, |pieces|
  {
    var w := Without(v, q);
    if pieces != [] {
      var c := here + [pieces[0]];
      PrefixSnoc(q, here, pieces[0]);
      if c != q && c in v {
        if IsLink(v, c) && fuel > 0 {
          WalkWithout(v, q, fuel - 1, [], TargetPieces(v, c));
          LinkLookUp(v, fuel - 1, c);
          LinkLookUp(w, fuel - 1, c);
        }
        var r := Step(v, true, "", fuel, here, pieces[0]);
        if r.Found? && !(q <= r.path) {
          WalkWithout(v, q, fuel, r.path, pieces[1..]);
        }
      }
    }
  }

  // ---------------------------------------------------------------- a move, told on the tree before it

  /** Where `c`, reached by its name after `from` became `to`, hung before. */
  function Before(from: Path, to: Path, c: Path): Path {
    if c == to then from else c
  }

  /** The name at `c` is there after `from` became `to`: something hung there before, and it was not moved away. */
  predicate Stands(v: View, from: Path, to: Path, c: Path) {
    Before(from, to, c) in v && (c == from ==> c == to)
  }

  /** A walk after `from` became `to`, told by where things hung before: coming to `to` it goes on from `from`, and
      the name of `from` is gone. */
  ghost function WalkAfter(v: View, from: Path, to: Path, fuel: nat, here: Path, pieces: seq<string>): (r: Look)
    requires here in v
    ensures r.Found? ==> r.path in v
    decreases fuel, 1, |pieces|
  {
    if pieces == [] then Found(here)
    else
      var r := StepAfter(v, from, to, fuel, here, pieces[0]);
      if r.Found? then WalkAfter(v, from, to, fuel, r.path, pieces[1..]) else r
  }

  ghost function StepAfter(v: View, from: Path, to: Path, fuel: nat, here: Path, piece: string): (r: Look)
    requires here in v
    ensures r.Found? ==> r.path in v
    decreases fuel, 0, 0
  {
    var c := here + [piece];
    var k := Before(from, to, c);
    if !Stands(v, from, to, c) then Missing
    else if !v[k].kind.Link? then Found(k)
    else if fuel == 0 || [] !in v then Endless
    else WalkAfter(v, from, to, fuel - 1, [], TargetPieces(v, k))
  }

  /** After the move, following `l` comes to `m`; both told by where they hung before. */
  ghost predicate MeetsAfter(v: View, from: Path, to: Path, l: Path, m: Path)
    requires [] in v && IsLink(v, l)
  {
    exists fuel: nat, i: nat :: ComesToAfter(v, from, to, fuel, TargetPieces(v, l), i, m)
  }

  ghost predicate ComesToAfter(v: View, from: Path, to: Path, fuel: nat, ps: seq<string>, i: nat, m: Path)
    requires [] in v
  {
    && i < |ps|
    && var r := WalkAfter(v, from, to, fuel, [], ps[..i]);
       r.Found? && Stands(v, from, to, r.path + [ps[i]]) && Before(from, to, r.path + [ps[i]]) == m
  }

  /** Links of the tree before the move, each of which meets the next after it, back to the first. */
  ghost predicate IsCycleAfter(v: View, from: Path, to: Path, c: seq<Path>)
    requires [] in v
  {
    && |c| >= 2 && c[0] == c[|c| - 1] && (forall i | 0 <= i < |c| :: IsLink(v, c[i]))
    && (forall i | 0 <= i < |c| - 1 :: MeetsAfter(v, from, to, c[i], c[i + 1]))
  }

  /** What a rename makes of the tree: the new name is free, or the old one again, and not inside what is moved. */
  ghost predicate Movable(v: View, from: Path, to: Path) {
    && WellFormed(v) && from in v && from != [] && to != []
    && (to == from || (to !in v && !(from <= to)))
  }

  function New(from: Path, to: Path, k: Path): Path {
    if from <= k then to + k[|from|..] else k
  }

  function NewLook(from: Path, to: Path, r: Look): Look {
    if r.Found? then Found(New(from, to, r.path)) else r
  }

  /** Nothing that was there and not moved lies at or under the new path. */
  lemma UnderNew(v: View, from: Path, to: Path, k: Path)
    requires Movable(v, from, to) && k in v
    ensures to <= k ==> from == to
  {
    if to !in v {
      NothingBelow(v, to, k);
    }
  }

  lemma NewIsThere(v: View, from: Path, to: Path, k: Path)
    requires Movable(v, from, to) && k in v
    ensures var w := Move(v, from, to); New(from, to, k) in w && w[New(from, to, k)] == v[k]
  {
    if from <= k {
      MoveAt(v, from, to, k);
    } else {
      UnderNew(v, from, to, k);
      MoveElsewhere(v, from, to, k);
    }
  }

  /** One more name, after the move and before. */
  lemma NewSnoc(v: View, from: Path, to: Path, here: Path, x: string)
    requires Movable(v, from, to) && here in v
    ensures var c, c' := here + [x], New(from, to, here) + [x];
            && (c' in Move(v, from, to) <==> Stands(v, from, to, c))
            && (Stands(v, from, to, c) ==> c' == New(from, to, Before(from, to, c)))
  {
    var c := here + [x];
    UnderNew(v, from, to, here);
    PrefixSnoc(from, here, x);
    PrefixSnoc(to, here, x);
    if from <= here {
      assert c != from && c != to && from + (to + c[|from|..])[|to|..] == c;
      assert New(from, to, here) + [x] == to + c[|from|..];
      MovedKeysAt(v, from, to, to + c[|from|..]);
      MoveUnder(v, from, to, to + c[|from|..]);
    } else if c == to {
      assert from + to[|to|..] == from && New(from, to, from) == to;
      MovedKeysAt(v, from, to, to);
      MoveUnder(v, from, to, to);
    } else {
      MoveElsewhere(v, from, to, c);
    }
  }

  /** Under the new path is what was moved, and nothing else. */
  lemma MoveUnder(v: View, from: Path, to: Path, k: Path)
    requires Movable(v, from, to) && to <= k
    ensures k in Move(v, from, to) <==> k in MovedKeys(v, from, to)
  {
    if k in v {
      UnderNew(v, from, to, k);
    }
  }

  /** The walk on the moved map, told on the map before. */
  lemma {:induction false} WalkAfterIsWalk(v: View, from: Path, to: Path, fuel: nat, here: Path, pieces: seq<string>)
    requires Movable(v, from, to) && here in v
    ensures var w := Move(v, from, to);
            && New(from, to, here) in w && [] in v
            && Walk(w, true, "", fuel, New(from, to, here), pieces) == NewLook(from, to, WalkAfter(v, from, to, fuel, here, pieces))
    decreases fuel, |pieces|
  {
    var w := Move(v, from, to);
    NewIsThere(v, from, to, here);
    if pieces != [] {
      StepAfterIsStep(v, from, to, fuel, here, pieces);
      var r := StepAfter(v, from, to, fuel, here, pieces[0]);
      if r.Found? {
        WalkAfterIsWalk(v, from, to, fuel, r.path, pieces[1..]);
      }
    }
  }

  lemma {:induction false} StepAfterIsStep(v: View, from: Path, to: Path, fuel: nat, here: Path, pieces: seq<string>)
    requires Movable(v, from, to) && here in v && pieces != []
    ensures var w := Move(v, from, to);
            && New(from, to, here) in w
            && Step(w, true, "", fuel, New(from, to, here), pieces[0]) == NewLook(from, to, StepAfter(v, from, to, fuel, here, pieces[0]))
    decreases fuel, |pieces| - 1, 1
  {
    hide Move, WellFormed;
    var w, x := Move(v, from, to), pieces[0];
    NewIsThere(v, from, to, here);
    NewSnoc(v, from, to, here, x);
    var c := here + [x];
    if Stands(v, from, to, c) {
      var k := Before(from, to, c);
      NewIsThere(v, from, to, k);
      if v[k].kind.Link? && fuel > 0 {
        RootStays(v, from, to);
        WalkAfterIsWalk(v, from, to, fuel - 1, [], TargetPieces(v, k));
        LinkLookUp(w, fuel - 1, New(from, to, k));
      }
    }
  }

  lemma RootStays(v: View, from: Path, to: Path)
    requires Movable(v, from, to)
    ensures [] in v && [] in Move(v, from, to) && New(from, to, []) == []
  {
    MoveElsewhere(v, from, to, []);
  }

  /** Every key of the moved map was a key before. */
  lemma NewFrom(v: View, from: Path, to: Path, k: Path) returns (old_: Path)
    requires Movable(v, from, to) && k in Move(v, from, to)
    ensures old_ in v && k == New(from, to, old_)
  {
    if to <= k {
      MoveUnder(v, from, to, k);
      MovedKeysAt(v, from, to, k);
      old_ := from + k[|to|..];
    } else {
      MoveElsewhere(v, from, to, k);
      old_ := k;
    }
  }

  lemma NewInjective(v: View, from: Path, to: Path, k: Path, m: Path)
    requires Movable(v, from, to) && k in v && m in v && New(from, to, k) == New(from, to, m)
    ensures k == m
  {
    assert from <= k ==> to <= New(from, to, k) && New(from, to, k)[|to|..] == k[|from|..] && k == from + k[|from|..];
    assert from <= m ==> to <= New(from, to, m) && New(from, to, m)[|to|..] == m[|from|..] && m == from + m[|from|..];
    UnderNew(v, from, to, k);
    UnderNew(v, from, to, m);
  }

  lemma MeetsAfterIsMeets(v: View, from: Path, to: Path, l: Path, m: Path)
    requires Movable(v, from, to) && IsLink(v, l) && IsLink(v, m)
    ensures var w := Move(v, from, to);
            && [] in v && [] in w && IsLink(w, New(from, to, l))
            && (Meets(w, New(from, to, l), New(from, to, m)) <==> MeetsAfter(v, from, to, l, m))
  {
    hide Move, WellFormed, Walk, WalkAfter;
    var w, ps := Move(v, from, to), TargetPieces(v, l);
    RootStays(v, from, to);
    NewIsThere(v, from, to, l);
    assert TargetPieces(w, New(from, to, l)) == ps;
    if fuel: nat, i: nat :| ComesTo(w, fuel, ps, i, New(from, to, m)) {
      ComesToSame(v, from, to, fuel, ps, i, m);
    }
    if fuel: nat, i: nat :| ComesToAfter(v, from, to, fuel, ps, i, m) {
      ComesToSame(v, from, to, fuel, ps, i, m);
    }
  }

  lemma ComesToSame(v: View, from: Path, to: Path, fuel: nat, ps: seq<string>, i: nat, m: Path)
    requires Movable(v, from, to) && m in v && i < |ps|
    ensures var w := Move(v, from, to);
            [] in v && [] in w && (ComesTo(w, fuel, ps, i, New(from, to, m)) <==> ComesToAfter(v, from, to, fuel, ps, i, m))
  {
    hide Move, WellFormed, Walk, WalkAfter;
    RootStays(v, from, to);
    WalkAfterIsWalk(v, from, to, fuel, [], ps[..i]);
    var r := WalkAfter(v, from, to, fuel, [], ps[..i]);
    NewIsThere(v, from, to, m);
    if r.Found? {
      NewSnoc(v, from, to, r.path, ps[i]);
      var c := r.path + [ps[i]];
      if Stands(v, from, to, c) && New(from, to, Before(from, to, c)) == New(from, to, m) {
        NewInjective(v, from, to, Before(from, to, c), m);
      }
    }
  }

  /** The links of a cycle of the moved map, by where they hung before. */
  lemma {:induction false} CycleFrom(v: View, from: Path, to: Path, c: seq<Path>) returns (b: seq<Path>)
    requires Movable(v, from, to) && forall i | 0 <= i < |c| :: IsLink(Move(v, from, to), c[i])
    ensures |b| == |c| && forall i | 0 <= i < |c| :: IsLink(v, b[i]) && c[i] == New(from, to, b[i])
  {
    if c == [] {
      b := [];
    } else {
      var front := CycleFrom(v, from, to, c[..|c| - 1]);
      var l := NewFrom(v, from, to, c[|c| - 1]);
      NewIsThere(v, from, to, l);
      b := front + [l];
    }
  }

  lemma CycleAfterIff(v: View, from: Path, to: Path)
    requires Movable(v, from, to)
    ensures [] in v && [] in Move(v, from, to)
    ensures (exists c: seq<Path> :: IsCycle(Move(v, from, to), c)) <==> exists c: seq<Path> :: IsCycleAfter(v, from, to, c)
  {
    hide Move, WellFormed, Meets, MeetsAfter;
    RootStays(v, from, to);
    var w := Move(v, from, to);
    if c: seq<Path> :| IsCycle(w, c) {
      var b := CycleFrom(v, from, to, c);
      NewInjective(v, from, to, b[0], b[|b| - 1]);
      forall i | 0 <= i < |b| - 1 ensures MeetsAfter(v, from, to, b[i], b[i + 1]) {
        MeetsAfterIsMeets(v, from, to, b[i], b[i + 1]);
        assert Meets(w, c[i], c[i + 1]);
      }
      assert IsCycleAfter(v, from, to, b);
    }
    if b: seq<Path> :| IsCycleAfter(v, from, to, b) {
      var c := seq(|b|, i requires 0 <= i < |b| => New(from, to, b[i]));
      forall i | 0 <= i < |c| ensures IsLink(w, c[i]) {
        NewIsThere(v, from, to, b[i]);
      }
      forall i | 0 <= i < |c| - 1 ensures Meets(w, c[i], c[i + 1]) {
        assert MeetsAfter(v, from, to, b[i], b[i + 1]);
        MeetsAfterIsMeets(v, from, to, b[i], b[i + 1]);
      }
      assert IsCycle(w, c);
    }
  }

  /** Where `rename` puts what it takes out. */
  function NewPlace(v: View, fuel: nat, q: Path, to: string): Path {
    PathOf(LookUpDir(Without(v, q), fuel, Dirname(to))) + [Basename(to)]
  }

  /** A call of `rename` on a tree where all walks end makes some walk endless exactly if it succeeds and, told on the
      tree before the call, links then lead round in a circle. For that it has to move a link, and some link has to
      have stopped at the new path. */
  lemma RenameClosesCycleIff(s: FlatState, fuel: nat, from: string, to: string)
    requires Inv(s) && Settles(s.view)
    ensures [] in s.view
    ensures var n, q := RenameOp(s, fuel, from, to), PathOf(LookUp(s.view, true, fuel, from));
            var place := NewPlace(s.view, fuel, q, to);
            && (n.Next? && !Settles(n.state.view) <==>
                  n.Next? && n.outcome == Done && exists c: seq<Path> :: IsCycleAfter(s.view, q, place, c))
            && (n.Next? && !Settles(n.state.view) ==> MovesLink(s.view, q) && SomeDangleAt(s.view, place))
  {
    var n, q := RenameOp(s, fuel, from, to), PathOf(LookUp(s.view, true, fuel, from));
    var place := NewPlace(s.view, fuel, q, to);
    if n.Next? && n.outcome == Done {
      DoneIsMove(s, fuel, from, to);
      hide RenameOp, Move, NewPlace;
      CycleAfterIff(s.view, q, place);
      SettlesIffNoCycle(n.state.view);
      if place == q {
        MoveToItself(s.view, q);
      } else {
        MoveClosesCycleIff(s.view, q, place);
      }
    } else if n.Next? && n.state.view != s.view {
      var d: nat :| LinksSettle(s.view, true, d);
      LostSettles(s, fuel, from, to, d);
    }
  }

  lemma DoneIsMove(s: FlatState, fuel: nat, from: string, to: string)
    requires Inv(s) && RenameOp(s, fuel, from, to).Next? && RenameOp(s, fuel, from, to).outcome == Done
    ensures var n, q := RenameOp(s, fuel, from, to), PathOf(LookUp(s.view, true, fuel, from));
            var place := NewPlace(s.view, fuel, q, to);
            Movable(s.view, q, place) && n.state.view == Move(s.view, q, place)
  {
    hide WellFormed, MayTwin, Move;
    var q := PathOf(LookUp(s.view, true, fuel, from));
    var d := LookUpDir(Without(s.view, q), fuel, Dirname(to)).path;
    PrefixSnoc(q, d, Basename(to));
  }

  lemma MoveToItself(v: View, q: Path)
    requires WellFormed(v) && q in v && q != []
    ensures Move(v, q, q) == v
  {
    forall k ensures k in Move(v, q, q) <==> k in v {
      if q <= k {
        MovedKeysAt(v, q, q, k);
        MoveUnder(v, q, q, k);
        assert q + k[|q|..] == k;
      } else {
        MoveElsewhere(v, q, q, k);
      }
    }
    forall k | k in v ensures Move(v, q, q)[k] == v[k] {
      NewIsThere(v, q, q, k);
      assert q <= k ==> New(q, q, k) == k;
    }
  }

  lemma LostSettles(s: FlatState, fuel: nat, from: string, to: string, depth: nat)
    requires Inv(s) && LinksSettle(s.view, true, depth)
    requires var n := RenameOp(s, fuel, from, to); n.Next? && n.outcome != Done && n.state.view != s.view
    ensures Settles(RenameOp(s, fuel, from, to).state.view)
  {
    hide WellFormed, MayTwin, LinksSettle;
    var q := LookUp(s.view, true, fuel, from).path;
    MakeSettles(s.view, q, Attr(Dir, 0, 0, 0, 0, 0, ""), true, depth);
  }
}
