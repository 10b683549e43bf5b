/** The editing operations of the filesystem on the flat map, and what they keep, undo and conserve. */
module FlatOps {
  import opened Paths
  import opened FlatFs

  datatype FsError = NotFound | Exists | NotDir | NotEmpty | Quota | Denied | BadValue | Diverges

  datatype Outcome = Done | Full | Unremoved | Failed(error: FsError) | Strayed

  /** The tree as a map, and `newcount`. */
  datatype FlatState = FlatState(view: View, newcount: nat)

  /** `Duplicate`: the call appends an entry whose name the directory already holds, so the tree is no map any more.
      `Twin`: the node found is not in the directory it is to be removed from, but an entry there looks like it;
      if it is equal in every field, the call removes that entry instead. */
  datatype Next =
    | Next(state: FlatState, outcome: Outcome)
    | Duplicate(dir: Path, name: string)
    | Twin(dir: Path, name: string)

  datatype Op =
    | MkFile(path: string, uid: int, gid: int, size: int, mode: bv32, ctime: int)
    | MkDir(path: string, uid: int, gid: int, size: int, mode: bv32, ctime: int)
    | MkDir2(path: string, ctime: int)
    | RmDir(path: string)
    | Remove(path: string)
    | Rename(old_: string, new_: string)
    | Chmod(path: string, perm: bv32)
    | Chown(path: string, uid: int, gid: int)
    | UpdateSize(path: string, size: int)

  const NEW_LIMIT := 10000
  const S_IFMT_MASK: bv32 := 0xF000

  /** Note that these are string prefixes: `/system` is special too. */
  predicate Special(dir: string) {
    "/sys" <= dir || "/proc" <= dir || "/dev/pts" <= dir
  }

  // ---------------------------------------------------------------- edits of the map

  /** `v` without `p` and everything below it. */
  function Without(v: View, p: Path): View {
    map k | k in v && !(p <= k) :: v[k]
  }

  /** `p` becomes a childless entry. */
  function Put(v: View, p: Path, a: Attr): View {
    Without(v, p)[p := a]
  }

  /** Where a key goes when `from` is renamed to `to`. */
  function Moved(from: Path, to: Path, k: Path): (r: Path)
    requires from <= k
    ensures to <= r && from + r[|to|..] == k
  {
    to + k[|from|..]
  }

  function MovedKeys(v: View, from: Path, to: Path): set<Path> {
    set k | k in v && from <= k :: Moved(from, to, k)
  }

  function Move(v: View, from: Path, to: Path): View {
    Without(v, from) + (map k | k in MovedKeys(v, from, to) :: v[from + k[|to|..]])
  }

  // ---------------------------------------------------------------- operations

  function Error(s: FlatState, e: FsError): Next {
    Next(s, Failed(e))
  }

  function LookError(s: FlatState, r: Look): Next
    requires !r.Found?
  {
    Error(s, if r.Missing? then NotFound else Diverges)
  }

  function MkFileOp(s: FlatState, fuel: nat, path: string, a: Attr): Next {
    if s.newcount > NEW_LIMIT then Next(s, Full)
    else if Special(Dirname(path)) then Error(s, Denied)
    else
      var d := LookUpDir(s.view, fuel, Dirname(path));
      if !d.Found? then LookError(s, d)
      else Next(FlatState(Put(s.view, d.path + [Basename(path)], a), s.newcount + 1), Done)
  }

  function MkDirOp(s: FlatState, fuel: nat, path: string, a: Attr): Next {
    if s.newcount > NEW_LIMIT then Error(s, Quota)
    else if Strip(path) == "" then Error(s, NotFound)
    else
      var d := LookUpDir(s.view, fuel, Dirname(Strip(path)));
      if !d.Found? then LookError(s, d)
      else if d.path + [Basename(path)] in s.view then Duplicate(d.path, Basename(path))
      else Next(FlatState(s.view[d.path + [Basename(path)] := a], s.newcount + 1), Done)
  }

  function MkDir2Op(s: FlatState, fuel: nat, path: string, a: Attr): Next {
    var r := LookUp(s.view, true, fuel, path);
    if r.Found? then Error(s, Exists)
    else if r.Endless? then Error(s, Diverges)
    else MkDirOp(s, fuel, path, a)
  }

  /** Some entry directly below `p`. */
  predicate HasChild(v: View, p: Path) {
    exists k {:trigger Front(k)} | k in v :: k != [] && Front(k) == p
  }

  function RmDirOp(s: FlatState, fuel: nat, path: string): Next {
    var p := RStrip(path);
    var r := LookUp(s.view, false, fuel, p);
    if !r.Found? then Error(s, if r.Missing? then Exists else Diverges)
    else if !s.view[r.path].kind.Dir? then Error(s, NotDir)
    else
      var c := LookUpDir(s.view, fuel, p);
      if !c.Found? then LookError(s, c)
      else if HasChild(s.view, c.path) then Error(s, NotEmpty)
      else
        var d := LookUpDir(s.view, fuel, Dirname(p));
        if !d.Found? then LookError(s, d)
        else if d.path + [Basename(p)] !in s.view then Next(s, Unremoved)
        else Next(s.(view := Without(s.view, d.path + [Basename(p)])), Done)
  }

  /** What hangs at `t` looks, as far as the map tells, like what hangs at `q`. */
  predicate MayTwin(v: View, q: Path, t: Path) {
    && q != t && q in v && t in v
    && (forall k | k in v && q <= k :: t + k[|q|..] in v && v[t + k[|q|..]] == v[k])
    && (forall k | k in v && t <= k :: q + k[|t|..] in v)
  }

  /** `directory.remove(node)` takes the first entry that equals the node and raises ValueError if there is none. */
  function NotThere(s: FlatState, q: Path, d: Path): Next {
    if q != [] && MayTwin(s.view, q, d + [Last(q)]) then Twin(d, Last(q)) else Error(s, BadValue)
  }

  function RemoveOp(s: FlatState, fuel: nat, path: string): Next {
    var r := LookUp(s.view, false, fuel, path);
    if !r.Found? then LookError(s, r)
    else
      var d := LookUpDir(s.view, fuel, Dirname(path));
      if !d.Found? then LookError(s, d)
      else if r.path == [] || Front(r.path) != d.path then NotThere(s, r.path, d.path)
      else Next(s.(view := Without(s.view, r.path)), Done)
  }

  /** The node is taken out before the new parent is looked up: if that fails, the subtree is gone. */
  function RenameOp(s: FlatState, fuel: nat, from: string, to: string): Next {
    var o := LookUp(s.view, true, fuel, from);
    if !o.Found? then LookError(s, o)
    else
      var n := LookUp(s.view, true, fuel, to);
      if n.Found? then Error(s, Exists)
      else if n.Endless? then Error(s, Diverges)
      else
        var d := LookUpDir(s.view, fuel, Dirname(from));
        if !d.Found? then LookError(s, d)
        else if o.path == [] || Front(o.path) != d.path then NotThere(s, o.path, d.path)
        else ReinsertOp(s, fuel, o.path, to)
  }

  /** The second half of `rename`: where the subtree at `q`, out of the tree by now, ends up. */
  function ReinsertOp(s: FlatState, fuel: nat, q: Path, to: string): Next {
    var rest := Without(s.view, q);
    var d := LookUpDir(rest, fuel, Dirname(to));
    if !d.Found? then LookError(s.(view := rest), d)
    else if d.path + [Basename(to)] in rest then Duplicate(d.path, Basename(to))
    else Next(s.(view := Move(s.view, q, d.path + [Basename(to)])), Done)
  }

  /** The operations that assign fields of the node a path leads to. */
  function EditOp(s: FlatState, fuel: nat, path: string, missing: Outcome, edit: Attr -> Attr): Next {
    var r := LookUp(s.view, true, fuel, path);
    if r.Found? then Next(s.(view := s.view[r.path := edit(s.view[r.path])]), Done)
    else if r.Missing? then Next(s, missing)
    else Error(s, Diverges)
  }

  function ChmodEdit(perm: bv32): Attr -> Attr {
    (a: Attr) => a.(mode := (a.mode & S_IFMT_MASK) | perm)
  }

  function ChownEdit(uid: int, gid: int): Attr -> Attr {
    (a: Attr) => a.(uid := if uid != -1 then uid else a.uid, gid := if gid != -1 then gid else a.gid)
  }

  function SizeEdit(size: int): Attr -> Attr {
    (a: Attr) => if a.kind.File? then a.(size := size) else a
  }

  function Apply(s: FlatState, fuel: nat, op: Op): Next {
    match op
    case MkFile(path, uid, gid, size, mode, ctime) => MkFileOp(s, fuel, path, Attr(File, uid, gid, size, mode, ctime, ""))
    case MkDir(path, uid, gid, size, mode, ctime) => MkDirOp(s, fuel, path, Attr(Dir, uid, gid, size, mode, ctime, ""))
    case MkDir2(path, ctime) => MkDir2Op(s, fuel, path, Attr(Dir, 0, 0, 4096, 16877, ctime, ""))
    case RmDir(path) => RmDirOp(s, fuel, path)
    case Remove(path) => RemoveOp(s, fuel, path)
    case Rename(from, to) => RenameOp(s, fuel, from, to)
    case Chmod(path, perm) => EditOp(s, fuel, path, Failed(NotFound), ChmodEdit(perm))
    case Chown(path, uid, gid) => EditOp(s, fuel, path, Failed(NotFound), ChownEdit(uid, gid))
    case UpdateSize(path, size) => EditOp(s, fuel, path, Done, SizeEdit(size))
  }

  // ---------------------------------------------------------------- what every operation keeps

  ghost predicate Inv(s: FlatState) {
    WellFormed(s.view) && s.newcount <= NEW_LIMIT + 1
  }

  lemma LookUpDirIsNoLink(v: View, fuel: nat, path: string)
    requires WellFormed(v)
    ensures var d := LookUpDir(v, fuel, path);
            d.Found? ==> !v[d.path].kind.Link?
  {
    FollowedIsNoLink(v, "", fuel, [], NonEmpty(Split(path)));
  }

  lemma FoundIsNoLink(v: View, fuel: nat, path: string)
    requires WellFormed(v)
    ensures var r := LookUp(v, true, fuel, path);
            r.Found? ==> !v[r.path].kind.Link?
  {
    if path != "/" {
      FollowedIsNoLink(v, Last(Pieces(path)), fuel, [], Pieces(path));
    }
  }

  lemma WithoutWellFormed(v: View, p: Path)
    requires WellFormed(v) && p != []
    ensures WellFormed(Without(v, p))
  {
    assert forall k: Path | k != [] && p <= Front(k) :: p <= k;
  }

  lemma PutWellFormed(v: View, d: Path, name: string, a: Attr)
    requires WellFormed(v) && d in v && !v[d].kind.Link? && !a.kind.Link?
    ensures WellFormed(Put(v, d + [name], a))
  {
    var q := d + [name];
    WithoutWellFormed(v, q);
    assert Front(q) == d;
    var w := Put(v, q, a);
    forall k | k in w && k != [] ensures Front(k) in w && !w[Front(k)].kind.Link? {
    }
  }

  /** Where a key under the new path comes from. */
  lemma MovedKeysAt(v: View, from: Path, to: Path, k: Path)
    requires to <= k
    ensures k in MovedKeys(v, from, to) <==> from + k[|to|..] in v
  {
    var k0 := from + k[|to|..];
    assert Moved(from, to, k0) == k;
  }

  /** Moved keys hold what they held before. */
  lemma MoveAt(v: View, from: Path, to: Path, k: Path)
    requires k in v && from <= k
    ensures Moved(from, to, k) in Move(v, from, to)
    ensures Move(v, from, to)[Moved(from, to, k)] == v[k]
  {
    assert Moved(from, to, k) in MovedKeys(v, from, to);
  }

  lemma MoveWellFormed(v: View, from: Path, d: Path, name: string)
    requires WellFormed(v) && from in v && from != [] && !v[from].kind.Link?
    requires d in Without(v, from) && !v[d].kind.Link? && d + [name] !in Without(v, from)
    ensures WellFormed(Move(v, from, d + [name]))
  {
    var to := d + [name];
    var w := Move(v, from, to);
    WithoutWellFormed(v, from);
    FreshPut(Without(v, from), to, v[from]);
    forall k | k in w && k != [] ensures Front(k) in w && !w[Front(k)].kind.Link? {
      if k in Without(v, from) {
        MoveElsewhere(v, from, to, Front(k));
      } else {
        var k0 :| k0 in v && from <= k0 && Moved(from, to, k0) == k;
        if k0 == from {
          assert k == to && Front(k) == d;
          MoveElsewhere(v, from, to, d);
        } else {
          MoveFront(v, from, to, k0);
        }
      }
    }
    MoveElsewhere(v, from, to, []);
  }

  lemma MoveFront(v: View, from: Path, to: Path, k: Path)
    requires WellFormed(v) && k in v && from <= k && k != from && to != []
    ensures var k' := Moved(from, to, k); k' != [] && Front(k') in Move(v, from, to) && !Move(v, from, to)[Front(k')].kind.Link?
  {
    assert from <= Front(k);
    assert Front(Moved(from, to, k)) == Moved(from, to, Front(k));
    MoveAt(v, from, to, Front(k));
  }

  lemma MoveElsewhere(v: View, from: Path, to: Path, k: Path)
    requires !(to <= k)
    ensures k in Move(v, from, to) <==> k in v && !(from <= k)
    ensures k in Move(v, from, to) ==> Move(v, from, to)[k] == v[k]
  {
  }

  lemma RmDirKeepsInv(s: FlatState, fuel: nat, path: string)
    requires Inv(s)
    ensures RmDirOp(s, fuel, path).Next? ==> Inv(RmDirOp(s, fuel, path).state)
  {
    var d := LookUpDir(s.view, fuel, Dirname(RStrip(path)));
    if d.Found? {
      WithoutWellFormed(s.view, d.path + [Basename(RStrip(path))]);
    }
  }

  lemma RemoveKeepsInv(s: FlatState, fuel: nat, path: string)
    requires Inv(s)
    ensures RemoveOp(s, fuel, path).Next? ==> Inv(RemoveOp(s, fuel, path).state)
  {
    var r := LookUp(s.view, false, fuel, path);
    if r.Found? && r.path != [] {
      WithoutWellFormed(s.view, r.path);
    }
  }

  /** Every operation keeps the map a tree whose links are leaves, and the file count bounded. */
  lemma ApplyKeepsInv(s: FlatState, fuel: nat, op: Op)
    requires Inv(s)
    ensures var n := Apply(s, fuel, op);
            n.Next? ==> Inv(n.state)
  {
    match op {
      case MkFile(path, uid, gid, size, mode, ctime) =>
        MakeKeepsInv(s, fuel, path, Dirname(path), Attr(File, uid, gid, size, mode, ctime, ""));
      case MkDir(path, uid, gid, size, mode, ctime) =>
        MakeKeepsInv(s, fuel, path, Dirname(Strip(path)), Attr(Dir, uid, gid, size, mode, ctime, ""));
      case MkDir2(path, ctime) =>
        MakeKeepsInv(s, fuel, path, Dirname(Strip(path)), Attr(Dir, 0, 0, 4096, 16877, ctime, ""));
      case RmDir(path) => RmDirKeepsInv(s, fuel, path);
      case Remove(path) => RemoveKeepsInv(s, fuel, path);
      case Rename(from, to) => RenameKeepsInv(s, fuel, from, to);
      case Chmod(path, perm) => EditKeepsInv(s, fuel, path, Failed(NotFound), ChmodEdit(perm));
      case Chown(path, uid, gid) => EditKeepsInv(s, fuel, path, Failed(NotFound), ChownEdit(uid, gid));
      case UpdateSize(path, size) => EditKeepsInv(s, fuel, path, Done, SizeEdit(size));
    }
  }

  lemma MakeKeepsInv(s: FlatState, fuel: nat, path: string, dir: string, a: Attr)
    requires Inv(s) && !a.kind.Link?
    ensures var d := LookUpDir(s.view, fuel, dir);
            d.Found? ==>
              && WellFormed(Put(s.view, d.path + [Basename(path)], a))
              && (d.path + [Basename(path)] !in s.view ==> WellFormed(s.view[d.path + [Basename(path)] := a]))
  {
    var d := LookUpDir(s.view, fuel, dir);
    if d.Found? {
      LookUpDirIsNoLink(s.view, fuel, dir);
      var q := d.path + [Basename(path)];
      PutWellFormed(s.view, d.path, Basename(path), a);
      if q !in s.view {
        FreshPut(s.view, q, a);
      }
    }
  }

  /** Putting a name that is not there removes nothing. */
  lemma FreshPut(v: View, q: Path, a: Attr)
    requires WellFormed(v) && q !in v
    ensures Put(v, q, a) == v[q := a]
    ensures Without(v, q) == v
  {
    forall k | k in v ensures !(q <= k) {
      assert q <= k ==> k[..|q|] == q;
      PrefixPresent(v, k, if q <= k then |q| else 0);
    }
  }

  lemma PrefixSnoc(q: Path, p: Path, name: string)
    ensures q <= p + [name] <==> q <= p || q == p + [name]
  {
    assert |q| <= |p| ==> (p + [name])[..|q|] == p[..|q|];
  }

  lemma NothingBelow(v: View, q: Path, k: Path)
    requires WellFormed(v) && q !in v && k in v
    ensures !(q <= k)
  {
    FreshPut(v, q, v[k]);
    assert k in Without(v, q);
  }

  lemma EditWellFormed(v: View, q: Path, a: Attr)
    requires WellFormed(v) && q in v && a.kind == v[q].kind && a.target == v[q].target
    ensures WellFormed(v[q := a])
  {
  }

  lemma EditKeepsInv(s: FlatState, fuel: nat, path: string, missing: Outcome, edit: Attr -> Attr)
    requires Inv(s)
    requires forall a: Attr :: edit(a).kind == a.kind && edit(a).target == a.target
    ensures Inv(EditOp(s, fuel, path, missing, edit).state)
  {
  }

  lemma RenameKeepsInv(s: FlatState, fuel: nat, from: string, to: string)
    requires Inv(s)
    ensures var n := RenameOp(s, fuel, from, to);
            n.Next? ==> Inv(n.state)
  {
    hide WellFormed, MayTwin, ReinsertOp;
    var o := LookUp(s.view, true, fuel, from);
    if o.Found? && o.path != [] {
      FoundIsNoLink(s.view, fuel, from);
      ReinsertKeepsInv(s, fuel, o.path, to);
    }
  }

  lemma ReinsertKeepsInv(s: FlatState, fuel: nat, q: Path, to: string)
    requires Inv(s) && q in s.view && q != [] && !s.view[q].kind.Link?
    ensures var n := ReinsertOp(s, fuel, q, to);
            n.Next? ==> Inv(n.state)
  {
    hide WellFormed, LookUpDir;
    var rest := Without(s.view, q);
    WithoutWellFormed(s.view, q);
    var d2 := LookUpDir(rest, fuel, Dirname(to));
    if d2.Found? && d2.path + [Basename(to)] !in rest {
      LookUpDirIsNoLink(rest, fuel, Dirname(to));
      MoveWellFormed(s.view, q, d2.path, Basename(to));
    }
  }

  // ---------------------------------------------------------------- twins

  lemma {:induction false} Longest(keys: set<Path>) returns (k: Path)
    requires keys != {}
    ensures k in keys && forall x | x in keys :: |x| <= |k|
  {
    k :| k in keys;
    if keys != {k} {
      var m := Longest(keys - {k});
      k := if |k| < |m| then m else k;
    }
  }

  /** Nothing looks like what hangs inside it. */
  lemma TwinsLieApart(v: View, q: Path, t: Path)
    requires MayTwin(v, q, t)
    ensures !(q <= t) && !(t <= q)
  {
    NoDeeper(v, q, t);
    NoDeeper(v, t, q);
  }

  /** Keys under `q` cannot all come back deeper inside it. */
  lemma NoDeeper(v: View, q: Path, t: Path)
    requires q != t && q in v && forall k | k in v && q <= k :: t + k[|q|..] in v
    ensures !(q <= t)
  {
    var below := set k | k in v && q <= k;
    assert q in below;
    var k := Longest(below);
    if q <= t {
      LongerBelow(q, t, k);
    }
  }

  lemma LongerBelow(q: Path, t: Path, k: Path)
    requires q != t && q <= t && q <= k
    ensures |t + k[|q|..]| > |k| && q <= t + k[|q|..]
  {
    assert |q| == |t| ==> q == t;
  }

  // ---------------------------------------------------------------- what editing does to walks

  ghost predicate SameEntry(v: View, w: View, k: Path) {
    k in v && k in w && w[k].kind == v[k].kind && w[k].target == v[k].target
  }

  /** `k` lies at or under `q`, where there is no link. */
  ghost predicate Inside(w: View, q: Path, k: Path) {
    q <= k && forall x | x in w && q <= x :: !w[x].kind.Link?
  }

  /** `w` keeps entries of `v`, drops some, and may have gained a subtree without links at `q`. */
  ghost predicate SubtreeEdit(v: View, w: View, q: Path) {
    [] in v && [] in w && (forall k | k in w :: SameEntry(v, w, k) || Inside(w, q, k))
  }

  /** A walk from inside stays inside, whatever it is told about links. */
  lemma {:induction false} InsideWalk(w: View, q: Path, follow: bool, last: string, fuel: nat, here: Path, pieces: seq<string>)
    requires here in w && Inside(w, q, here)
    ensures var r := Walk(w, follow, last, fuel, here, pieces);
            r.Missing? || (r.Found? && Inside(w, q, r.path))
    decreases |pieces|
  {
    if pieces != [] && here + [pieces[0]] in w {
      assert q <= here + [pieces[0]];
      InsideWalk(w, q, follow, last, fuel, here + [pieces[0]], pieces[1..]);
    }
  }

  /** After such an edit a walk ends in the new subtree, fails, or does what it did before. */
  lemma {:induction false} SubtreeEditWalk(v: View, w: View, q: Path, follow: bool, last: string, fuel: nat, here: Path, pieces: seq<string>)
    requires SubtreeEdit(v, w, q) && here in w && here in v
    ensures var r := Walk(w, follow, last, fuel, here, pieces);
            r.Missing? || (r.Found? && Inside(w, q, r.path)) || r == Walk(v, follow, last, fuel, here, pieces)
    decreases fuel, 1, |pieces|
  {
    if pieces != [] {
      var c := here + [pieces[0]];
      if c in w && Inside(w, q, c) {
        InsideWalk(w, q, follow, last, fuel, c, pieces[1..]);
      } else if c in w {
        if w[c].kind.Link? && fuel > 0 && !(pieces[0] == last && !follow) {
          SubtreeEditLookUp(v, w, q, follow, fuel - 1, LinkTarget(w[c].target));
        }
        var r := Step(w, follow, last, fuel, here, pieces[0]);
        if r.Found? && Inside(w, q, r.path) {
          InsideWalk(w, q, follow, last, fuel, r.path, pieces[1..]);
        } else if r.Found? {
          SubtreeEditWalk(v, w, q, follow, last, fuel, r.path, pieces[1..]);
        }
      }
    }
  }

  lemma {:induction false} SubtreeEditLookUp(v: View, w: View, q: Path, follow: bool, fuel: nat, path: string)
    requires SubtreeEdit(v, w, q)
    ensures var r := LookUp(w, follow, fuel, path);
            r.Missing? || (r.Found? && Inside(w, q, r.path)) || r == LookUp(v, follow, fuel, path)
    decreases fuel, 2, 0
  {
    if path != "/" {
      SubtreeEditWalk(v, w, q, follow, Last(Pieces(path)), fuel, [], Pieces(path));
    }
  }

  lemma SubtreeEditSettles(v: View, w: View, q: Path, follow: bool, fuel: nat)
    requires SubtreeEdit(v, w, q) && LinksSettle(v, follow, fuel)
    ensures LinksSettle(w, follow, fuel)
  {
    forall l | l in w && w[l].kind.Link? ensures LookUp(w, follow, fuel, LinkTarget(w[l].target)) != Endless {
      SubtreeEditLookUp(v, w, q, follow, fuel, LinkTarget(w[l].target));
    }
  }

  lemma PutIsSubtreeEdit(v: View, q: Path, a: Attr)
    requires WellFormed(v) && q != [] && !a.kind.Link?
    ensures SubtreeEdit(v, Put(v, q, a), q)
    ensures SubtreeEdit(v, Without(v, q), q)
  {
  }

  lemma MoveIsSubtreeEdit(v: View, from: Path, to: Path)
    requires WellFormed(v) && from in v && from != [] && to != []
    requires forall k | k in v && from <= k :: !v[k].kind.Link?
    requires forall k | k in Without(v, from) :: !(to <= k)
    ensures SubtreeEdit(v, Move(v, from, to), to)
  {
    var w := Move(v, from, to);
    MoveElsewhere(v, from, to, []);
    forall k | k in w && to <= k ensures !w[k].kind.Link? {
      MovedKeysAt(v, from, to, k);
      assert from <= from + k[|to|..];
    }
    forall k | k in w && !(to <= k) ensures SameEntry(v, w, k) {
      MoveElsewhere(v, from, to, k);
    }
  }

  /** A rename that moves no link, or any other operation. */
  ghost predicate MovesNoLink(s: FlatState, fuel: nat, op: Op) {
    op.Rename? ==>
      var r := LookUp(s.view, true, fuel, op.old_);
      r.Found? ==> forall k | k in s.view && r.path <= k :: !s.view[k].kind.Link?
  }

  lemma RenameSettles(s: FlatState, fuel: nat, from: string, to: string, follow: bool, depth: nat)
    requires Inv(s) && LinksSettle(s.view, follow, depth) && MovesNoLink(s, fuel, Rename(from, to))
    ensures var n := RenameOp(s, fuel, from, to);
            n.Next? ==> LinksSettle(n.state.view, follow, depth)
  {
    var n := RenameOp(s, fuel, from, to);
    if n.Next? && n.state.view != s.view {
      var q := LookUp(s.view, true, fuel, from).path;
      var rest := Without(s.view, q);
      WithoutWellFormed(s.view, q);
      if n.outcome == Done {
        var target := LookUpDir(rest, fuel, Dirname(to)).path + [Basename(to)];
        FreshPut(rest, target, s.view[q]);
        assert forall k | k in rest :: k in Without(rest, target);
        MoveIsSubtreeEdit(s.view, q, target);
        SubtreeEditSettles(s.view, n.state.view, target, follow, depth);
      } else {
        PutIsSubtreeEdit(s.view, q, Attr(Dir, 0, 0, 0, 0, 0, ""));
        SubtreeEditSettles(s.view, n.state.view, q, follow, depth);
      }
    }
  }

  lemma MakeSettles(v: View, q: Path, a: Attr, follow: bool, depth: nat)
    requires WellFormed(v) && q != [] && !a.kind.Link? && LinksSettle(v, follow, depth)
    ensures LinksSettle(Put(v, q, a), follow, depth) && LinksSettle(Without(v, q), follow, depth)
    ensures q !in v ==> LinksSettle(v[q := a], follow, depth)
  {
    hide LinksSettle, SubtreeEdit;
    PutIsSubtreeEdit(v, q, a);
    SubtreeEditSettles(v, Put(v, q, a), q, follow, depth);
    SubtreeEditSettles(v, Without(v, q), q, follow, depth);
    if q !in v {
      FreshPut(v, q, a);
    }
  }

  lemma EditSettles(v: View, q: Path, a: Attr, follow: bool, depth: nat)
    requires [] in v && q in v && a.kind == v[q].kind && a.target == v[q].target && LinksSettle(v, follow, depth)
    ensures LinksSettle(v[q := a], follow, depth)
  {
    assert SubtreeEdit(v, v[q := a], q);
    SubtreeEditSettles(v, v[q := a], q, follow, depth);
  }

  lemma MkFileSettles(s: FlatState, fuel: nat, path: string, a: Attr, follow: bool, depth: nat)
    requires Inv(s) && LinksSettle(s.view, follow, depth) && !a.kind.Link?
    ensures var n := MkFileOp(s, fuel, path, a); n.Next? ==> LinksSettle(n.state.view, follow, depth)
  {
    var d := LookUpDir(s.view, fuel, Dirname(path));
    if d.Found? {
      MakeSettles(s.view, d.path + [Basename(path)], a, follow, depth);
    }
  }

  lemma MkDirSettles(s: FlatState, fuel: nat, path: string, a: Attr, follow: bool, depth: nat)
    requires Inv(s) && LinksSettle(s.view, follow, depth) && !a.kind.Link?
    ensures var n := MkDirOp(s, fuel, path, a); n.Next? ==> LinksSettle(n.state.view, follow, depth)
    ensures var n := MkDir2Op(s, fuel, path, a); n.Next? ==> LinksSettle(n.state.view, follow, depth)
  {
    hide LinksSettle;
    var d := LookUpDir(s.view, fuel, Dirname(Strip(path)));
    if d.Found? {
      MakeSettles(s.view, d.path + [Basename(path)], a, follow, depth);
    }
  }

  lemma DropSettles(s: FlatState, fuel: nat, path: string, follow: bool, depth: nat)
    requires Inv(s) && LinksSettle(s.view, follow, depth)
    ensures var n := RmDirOp(s, fuel, path); n.Next? ==> LinksSettle(n.state.view, follow, depth)
    ensures var n := RemoveOp(s, fuel, path); n.Next? ==> LinksSettle(n.state.view, follow, depth)
  {
    hide LinksSettle, MayTwin, HasChild;
    var gone := Attr(Dir, 0, 0, 0, 0, 0, "");
    var d := LookUpDir(s.view, fuel, Dirname(RStrip(path)));
    if d.Found? {
      MakeSettles(s.view, d.path + [Basename(RStrip(path))], gone, follow, depth);
    }
    var r := LookUp(s.view, false, fuel, path);
    if r.Found? && r.path != [] {
      MakeSettles(s.view, r.path, gone, follow, depth);
    }
  }

  lemma EditOpSettles(s: FlatState, fuel: nat, path: string, missing: Outcome, edit: Attr -> Attr, follow: bool, depth: nat)
    requires Inv(s) && LinksSettle(s.view, follow, depth)
    requires forall a: Attr :: edit(a).kind == a.kind && edit(a).target == a.target
    ensures LinksSettle(EditOp(s, fuel, path, missing, edit).state.view, follow, depth)
  {
    hide LinksSettle;
    var r := LookUp(s.view, true, fuel, path);
    if r.Found? {
      EditSettles(s.view, r.path, edit(s.view[r.path]), follow, depth);
    }
  }

  /** Every operation but a `rename` that moves a link leaves the links settled: walks go on ending, with no more
      nesting than before. */
  lemma ApplySettles(s: FlatState, fuel: nat, op: Op, follow: bool, depth: nat)
    requires Inv(s) && LinksSettle(s.view, follow, depth) && MovesNoLink(s, fuel, op)
    ensures var n := Apply(s, fuel, op);
            n.Next? ==> LinksSettle(n.state.view, follow, depth)
  {
    hide LinksSettle, Inv, MovesNoLink, MkFileOp, MkDirOp, MkDir2Op, RmDirOp, RemoveOp, RenameOp, EditOp;
    match op {
      case MkFile(path, uid, gid, size, mode, ctime) =>
        MkFileSettles(s, fuel, path, Attr(File, uid, gid, size, mode, ctime, ""), follow, depth);
      case MkDir(path, uid, gid, size, mode, ctime) =>
        MkDirSettles(s, fuel, path, Attr(Dir, uid, gid, size, mode, ctime, ""), follow, depth);
      case MkDir2(path, ctime) => MkDirSettles(s, fuel, path, Attr(Dir, 0, 0, 4096, 16877, ctime, ""), follow, depth);
      case RmDir(path) => DropSettles(s, fuel, path, follow, depth);
      case Remove(path) => DropSettles(s, fuel, path, follow, depth);
      case Rename(from, to) => RenameSettles(s, fuel, from, to, follow, depth);
      case Chmod(path, perm) => EditOpSettles(s, fuel, path, Failed(NotFound), ChmodEdit(perm), follow, depth);
      case Chown(path, uid, gid) => EditOpSettles(s, fuel, path, Failed(NotFound), ChownEdit(uid, gid), follow, depth);
      case UpdateSize(path, size) => EditOpSettles(s, fuel, path, Done, SizeEdit(size), follow, depth);
    }
  }

  function PathOf(r: Look): Path {
    if r.Found? then r.path else []
  }

  // ---------------------------------------------------------------- runs

  /** The state after a sequence of calls; `Duplicate` stops the run. */
  function Run(s: FlatState, fuel: nat, ops: seq<Op>): Next
    decreases |ops|
  {
    if ops == [] then Next(s, Done)
    else
      var n := Apply(s, fuel, ops[0]);
      if n.Next? then Run(n.state, fuel, ops[1..]) else n
  }

  /** Over every run: the map stays a tree and at most 10001 files and directories are ever made. */
  lemma {:induction false} RunKeepsInv(s: FlatState, fuel: nat, ops: seq<Op>)
    requires Inv(s)
    ensures var n := Run(s, fuel, ops);
            n.Next? ==> Inv(n.state)
    decreases |ops|
  {
    if ops != [] {
      ApplyKeepsInv(s, fuel, ops[0]);
      var n := Apply(s, fuel, ops[0]);
      if n.Next? { RunKeepsInv(n.state, fuel, ops[1..]); }
    }
  }

  /** No call of the run moves a link. */
  ghost predicate RunMovesNoLink(s: FlatState, fuel: nat, ops: seq<Op>)
    decreases |ops|
  {
    ops == []
    || (MovesNoLink(s, fuel, ops[0]) && var n := Apply(s, fuel, ops[0]); n.Next? ==> RunMovesNoLink(n.state, fuel, ops[1..]))
  }

  /** Over every run in which no link is moved, no path walk ever starts to loop. */
  lemma {:induction false} RunSettles(s: FlatState, fuel: nat, ops: seq<Op>, follow: bool, depth: nat)
    requires Inv(s) && LinksSettle(s.view, follow, depth) && RunMovesNoLink(s, fuel, ops)
    ensures var n := Run(s, fuel, ops);
            n.Next? ==> LinksSettle(n.state.view, follow, depth)
    decreases |ops|
  {
    hide Inv, LinksSettle, Apply, MovesNoLink;
    if ops != [] {
      ApplyKeepsInv(s, fuel, ops[0]);
      ApplySettles(s, fuel, ops[0], follow, depth);
      var n := Apply(s, fuel, ops[0]);
      if n.Next? { RunSettles(n.state, fuel, ops[1..], follow, depth); }
    }
  }
}
