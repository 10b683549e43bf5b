/** `AuthRandom`: an address gets in after a random number of distinct attempts, and combinations that got in
    open the door for everyone while they are cached. */
module Auth {
  import opened Wrappers

  /** What is kept about one address; any field can be missing from the saved file. */
  datatype Info = Info(tries: Option<int>, max: Option<int>, tried: Option<seq<string>>, user: Option<string>, pw: Option<string>)

  datatype State = State(users: map<string, Info>, cache: seq<string>)

  const EMPTY := State(map[], [])

  datatype Bounds = Bounds(mintry: int, maxtry: int, maxcache: int)

  function MakeBounds(mintry: int, maxtry: int, maxcache: int): (b: Bounds)
    ensures b.mintry <= b.maxtry && b.mintry == mintry && b.maxcache == maxcache
    ensures mintry <= maxtry ==> b.maxtry == maxtry
  {
    Bounds(mintry, if maxtry < mintry then mintry + 1 else maxtry, maxcache)
  }

  /** A login as text, `str(login) + ":" + str(passwd)`. */
  function UserPass(login: string, passwd: string): string {
    login + ":" + passwd
  }

  /** Logins without a colon: two attempts count as the same combination exactly if login and password are the same. */
  lemma SameComboIff(a: string, p: string, b: string, q: string)
    requires ':' !in a && ':' !in b
    ensures UserPass(a, p) == UserPass(b, q) <==> a == b && p == q
  {
    var x, y := UserPass(a, p), UserPass(b, q);
    if x == y {
      assert x[|a|] == ':' && y[|b|] == ':';
      assert |a| == |b|;
      assert a == x[..|a|] && b == y[..|b|] && p == x[|a| + 1..] && q == y[|b| + 1..];
    }
  }

  /** With one they can be taken for each other. */
  lemma ColonsRunTogether(a: string, b: string, c: string)
    ensures UserPass(a + ":" + b, c) == UserPass(a, b + ":" + c)
  {
    assert a + ":" + b + ":" + c == a + ":" + (b + ":" + c);
  }

  function InfoOf(s: State, ip: string, draw: int): Info {
    if ip in s.users then s.users[ip] else Info(Some(0), Some(draw), None, None, None)
  }

  /** Missing variables filled in. */
  function Filled(i: Info, draw: int): (r: Info)
    ensures r.tries.Some? && r.max.Some? && r.tried.Some?
  {
    Info(if i.tries.Some? then i.tries else Some(0), if i.max.Some? then i.max else Some(draw),
         if i.tried.Some? then i.tried else Some([]), i.user, i.pw)
  }

  /** The combination joins the cache, whose oldest member leaves if there are too many. */
  function Cached(cache: seq<string>, userpass: string, maxcache: int): seq<string> {
    var c := cache + [userpass];
    if |c| > maxcache then c[1..] else c
  }

  /** `checklogin`; `draw` is what `randint` gives if it is asked. */
  function Check(s: State, b: Bounds, login: string, passwd: string, ip: string, draw: int): (State, bool) {
    var userpass := UserPass(login, passwd);
    if userpass in s.cache then
      var i := InfoOf(s, ip, 1).(max := Some(1), user := Some(login), pw := Some(passwd));
      (s.(users := s.users[ip := i]), true)
    else
      var i := Filled(InfoOf(s, ip, draw), draw);
      if userpass in i.tried.value then (s.(users := s.users[ip := i]), false)
      else
        var n := i.tries.value + 1;
        var i1 := i.(tries := Some(n));
        if n < i.max.value then (s.(users := s.users[ip := i1.(tried := Some(i.tried.value + [userpass]))]), false)
        else if n == i.max.value then
          (State(s.users[ip := i1.(user := Some(login), pw := Some(passwd))], Cached(s.cache, userpass, b.maxcache)), true)
        else if i.user.None? || i.pw.None? then
          (s.(users := s.users[ip := i1.(tries := Some(1), tried := Some(i.tried.value + [userpass]))]), false)
        else (s.(users := s.users[ip := i1]), false)
  }

  lemma Overwrite(users: map<string, Info>, ip: string, i: Info, j: Info)
    ensures users[ip := i][ip := j] == users[ip := j]
    ensures ip in users ==> users[ip := users[ip]] == users
  {
  }

  class AuthRandom {
    const bounds: Bounds
    var uservar: map<string, Info>
    var cache: seq<string>

    constructor (mintry: int, maxtry: int, maxcache: int)
      ensures bounds == MakeBounds(mintry, maxtry, maxcache) && Value() == EMPTY
    {
      bounds := Bounds(mintry, if maxtry < mintry then mintry + 1 else maxtry, maxcache);
      uservar, cache := map[], [];
    }

    ghost function Value(): State
      reads this
    {
      State(uservar, cache)
    }

    method CheckLogin(login: string, passwd: string, srcIp: string, draw: int) returns (auth: bool)
      requires bounds.mintry <= draw <= bounds.maxtry
      modifies this
      ensures (Value(), auth) == Check(old(Value()), bounds, login, passwd, srcIp, draw)
    {
      var userpass := UserPass(login, passwd);
      ghost var users := uservar;
      if srcIp !in uservar {
        uservar := uservar[srcIp := Info(Some(0), None, None, None, None)];
        if userpass in cache {
          Overwrite(users, srcIp, uservar[srcIp], InfoOf(old(Value()), srcIp, 1).(user := Some(login), pw := Some(passwd)));
          uservar := uservar[srcIp := uservar[srcIp].(max := Some(1), user := Some(login), pw := Some(passwd))];
          return true;
        }
        Overwrite(users, srcIp, uservar[srcIp], uservar[srcIp].(max := Some(draw)));
        uservar := uservar[srcIp := uservar[srcIp].(max := Some(draw))];
      } else {
        if userpass in cache {
          uservar := uservar[srcIp := uservar[srcIp].(max := Some(1), user := Some(login), pw := Some(passwd))];
          return true;
        }
        Overwrite(users, srcIp, uservar[srcIp], uservar[srcIp]);
      }
      var info := uservar[srcIp];
      ghost var start := info;
      assert uservar == users[srcIp := start];
      if info.max.None? {
        info := info.(max := Some(draw));
      }
      if info.tries.None? {
        info := info.(tries := Some(0));
      }
      if info.tried.None? {
        info := info.(tried := Some([]));
      }
      Overwrite(users, srcIp, start, info);
      uservar := uservar[srcIp := info];
      ghost var filled := info;
      assert uservar == users[srcIp := filled];
      if userpass in info.tried.value {
        return false;
      }
      info := info.(tries := Some(info.tries.value + 1));
      var attempts, need := info.tries.value, info.max.value;
      auth := false;
      if attempts < need {
        info := info.(tried := Some(info.tried.value + [userpass]));
      } else if attempts == need {
        info := info.(user := Some(login), pw := Some(passwd));
        cache := cache + [userpass];
        if |cache| > bounds.maxcache {
          cache := cache[1..];
        }
        auth := true;
      } else {
        if info.user.None? || info.pw.None? {
          info := info.(tried := Some(info.tried.value + [userpass]), tries := Some(1));
        }
        // Otherwise the bytes of the login are compared with a str, which never agrees.
      }
      Overwrite(users, srcIp, filled, info);
      uservar := uservar[srcIp := info];
      assert uservar == users[srcIp := info];
    }
  }

  // ---------------------------------------------------------------- runs

  datatype Attempt = Attempt(login: string, passwd: string, ip: string, draw: int)

  function Combo(a: Attempt): string {
    UserPass(a.login, a.passwd)
  }

  function After(s: State, b: Bounds, a: Attempt): (State, bool) {
    Check(s, b, a.login, a.passwd, a.ip, a.draw)
  }

  ghost predicate IsRun(states: seq<State>, run: seq<Attempt>, b: Bounds) {
    && |states| == |run| + 1 && states[0] == EMPTY
    && forall i | 0 <= i < |run| :: b.mintry <= run[i].draw <= b.maxtry && states[i + 1] == After(states[i], b, run[i]).0
  }

  /** Whether the `i`th attempt gets in. */
  ghost predicate Admitted(states: seq<State>, run: seq<Attempt>, b: Bounds, i: nat)
    requires i < |run| <= |states|
  {
    After(states[i], b, run[i]).1
  }

  /** The distinct combinations an address has presented in the first `n` attempts. */
  function Presented(run: seq<Attempt>, n: nat, ip: string): set<string>
    requires n <= |run|
  {
    set i | 0 <= i < n && run[i].ip == ip :: Combo(run[i])
  }

  lemma PresentedNext(run: seq<Attempt>, n: nat, ip: string)
    requires n < |run|
    ensures Presented(run, n + 1, ip) == Presented(run, n, ip) + if run[n].ip == ip then {Combo(run[n])} else {}
  {
    forall c | c in Presented(run, n, ip) ensures c in Presented(run, n + 1, ip) {
      var i :| 0 <= i < n && run[i].ip == ip && Combo(run[i]) == c;
    }
  }

  /** No attempt of the address among the first `n` finds its combination cached. */
  ghost predicate NeverCached(states: seq<State>, run: seq<Attempt>, n: nat, ip: string)
    requires n <= |run| <= |states|
  {
    forall i | 0 <= i < n && run[i].ip == ip :: Combo(run[i]) !in states[i].cache
  }

  /** The number drawn for the address at its first attempt. */
  function Goal(run: seq<Attempt>, n: nat, ip: string): int
    requires n <= |run|
  {
    if n == 0 then 0
    else if Presented(run, n - 1, ip) != {} then Goal(run, n - 1, ip)
    else if run[n - 1].ip == ip then run[n - 1].draw else 0
  }

  /** What is kept about an address that has presented `seen` without finding any of it cached. */
  ghost predicate Keeps(s: State, ip: string, seen: set<string>, goal: int) {
    if seen == {} then ip !in s.users
    else
      && ip in s.users
      && var i := s.users[ip];
         && i.max == Some(goal) && i.tried.Some? && i.tries.Some?
         && if goal < 1 then (set c | c in i.tried.value) == seen && i.tries.value == 1 && i.user.None?
            else if |seen| < goal then (set c | c in i.tried.value) == seen && i.tries.value == |seen|
            else i.tries.value >= goal && i.user.Some? && i.pw.Some? && forall c | c in i.tried.value :: c in seen
  }

  /** Attempts of others change nothing. */
  lemma OthersDoNotMatter(s: State, b: Bounds, a: Attempt, ip: string, seen: set<string>, goal: int)
    requires Keeps(s, ip, seen, goal) && a.ip != ip
    ensures Keeps(After(s, b, a).0, ip, seen, goal)
  {
  }

  /** An attempt of its own: in exactly if it makes the number of distinct combinations the one that was drawn. */
  lemma OwnAttempt(s: State, b: Bounds, a: Attempt, seen: set<string>, goal: int)
    requires Keeps(s, a.ip, seen, goal) && Combo(a) !in s.cache && (seen == {} ==> goal == a.draw)
    ensures var seen' := seen + {Combo(a)};
            && Keeps(After(s, b, a).0, a.ip, seen', goal)
            && (After(s, b, a).1 <==> |seen| == goal - 1 && |seen'| == goal)
  {
    var seen' := seen + {Combo(a)};
    var i := Filled(InfoOf(s, a.ip, a.draw), a.draw);
    assert Combo(a) in seen ==> seen' == seen;
    assert Combo(a) !in seen ==> |seen'| == |seen| + 1;
    if seen == {} {
      assert seen' == {Combo(a)};
    } else if |seen| < goal || goal < 1 {
      assert Combo(a) in seen <==> Combo(a) in i.tried.value;
      var longer := i.tried.value + [Combo(a)];
      assert (set c | c in longer) == seen';
    }
  }

  lemma Bounded(states: seq<State>, run: seq<Attempt>, b: Bounds, n: nat, ip: string)
    requires IsRun(states, run, b) && n <= |run| && Presented(run, n, ip) != {}
    ensures b.mintry <= Goal(run, n, ip) <= b.maxtry
    decreases n
  {
    PresentedNext(run, n - 1, ip);
    if Presented(run, n - 1, ip) != {} {
      Bounded(states, run, b, n - 1, ip);
    }
  }

  lemma {:induction false} KeepsAlways(states: seq<State>, run: seq<Attempt>, b: Bounds, n: nat, ip: string)
    requires IsRun(states, run, b) && n <= |run| && NeverCached(states, run, n, ip)
    ensures Keeps(states[n], ip, Presented(run, n, ip), Goal(run, n, ip))
    decreases n
  {
    hide Keeps;
    if n == 0 {
      NothingYet(run, ip);
    } else {
      KeepsAlways(states, run, b, n - 1, ip);
      var a, seen := run[n - 1], Presented(run, n - 1, ip);
      PresentedNext(run, n - 1, ip);
      if a.ip == ip {
        NothingKept(states[n - 1], ip, seen, Goal(run, n - 1, ip), Goal(run, n, ip));
        OwnAttempt(states[n - 1], b, a, seen, Goal(run, n, ip));
      } else {
        OthersDoNotMatter(states[n - 1], b, a, ip, seen, Goal(run, n - 1, ip));
        assert Presented(run, n, ip) == seen;
      }
    }
  }

  lemma NothingYet(run: seq<Attempt>, ip: string)
    ensures Keeps(EMPTY, ip, Presented(run, 0, ip), 0)
  {
    assert Presented(run, 0, ip) == {};
  }

  lemma NothingKept(s: State, ip: string, seen: set<string>, goal: int, goal': int)
    requires Keeps(s, ip, seen, goal) && (seen != {} ==> goal' == goal)
    ensures Keeps(s, ip, seen, goal')
  {
  }

  /** Under any interleaving with other addresses, an address none of whose combinations is cached gets in on the
      attempt that makes the number of its distinct combinations the number drawn for it, and on no other;
      that number lies between the bounds. A number below one is never reached. */
  lemma InOnTheDrawnAttempt(states: seq<State>, run: seq<Attempt>, b: Bounds, i: nat)
    requires IsRun(states, run, b) && i < |run|
    requires NeverCached(states, run, i + 1, run[i].ip)
    ensures var ip := run[i].ip;
            var goal := Goal(run, i + 1, ip);
            && b.mintry <= goal <= b.maxtry
            && (Admitted(states, run, b, i) <==> |Presented(run, i, ip)| == goal - 1 && |Presented(run, i + 1, ip)| == goal)
  {
    hide Keeps;
    var a, ip := run[i], run[i].ip;
    var seen := Presented(run, i, ip);
    KeepsAlways(states, run, b, i, ip);
    PresentedNext(run, i, ip);
    Bounded(states, run, b, i + 1, ip);
    NothingKept(states[i], ip, seen, Goal(run, i, ip), Goal(run, i + 1, ip));
    OwnAttempt(states[i], b, a, seen, Goal(run, i + 1, ip));
  }

  /** Exactly when such an address can get in at all: the number drawn for it must be at least one. Below that no
      attempt gets in, however many there are; from one on, the attempt that reaches the number does. */
  lemma DrawsBelowOneNeverGetIn(states: seq<State>, run: seq<Attempt>, b: Bounds, i: nat)
    requires IsRun(states, run, b) && i < |run|
    requires NeverCached(states, run, i + 1, run[i].ip)
    ensures var ip := run[i].ip;
            var goal := Goal(run, i + 1, ip);
            && (goal < 1 ==> !Admitted(states, run, b, i))
            && (goal >= 1 && |Presented(run, i + 1, ip)| == goal && Combo(run[i]) !in Presented(run, i, ip) ==> Admitted(states, run, b, i))
  {
    InOnTheDrawnAttempt(states, run, b, i);
    PresentedNext(run, i, run[i].ip);
  }

  // ---------------------------------------------------------------- the cache

  /** The combinations that got in by count, in order. */
  ghost function ByCount(states: seq<State>, run: seq<Attempt>, b: Bounds, n: nat): seq<string>
    requires n <= |run| <= |states|
  {
    if n == 0 then []
    else if Admitted(states, run, b, n - 1) && Combo(run[n - 1]) !in states[n - 1].cache
    then ByCount(states, run, b, n - 1) + [Combo(run[n - 1])]
    else ByCount(states, run, b, n - 1)
  }

  function LastOf(s: seq<string>, n: int): seq<string> {
    if n <= 0 then [] else if |s| <= n then s else s[|s| - n..]
  }

  ghost predicate Distinct(s: seq<string>) {
    forall i, j | 0 <= i < j < |s| :: s[i] != s[j]
  }

  lemma CachedIsLast(all: seq<string>, userpass: string, maxcache: int)
    ensures Cached(LastOf(all, maxcache), userpass, maxcache) == LastOf(all + [userpass], maxcache)
  {
    if 0 < maxcache < |all| {
      assert LastOf(all, maxcache) + [userpass] == (all + [userpass])[|all| - maxcache..];
    }
  }

  lemma CacheStep(s: State, b: Bounds, a: Attempt)
    ensures var (t, auth) := After(s, b, a);
            t.cache == if auth && Combo(a) !in s.cache then Cached(s.cache, Combo(a), b.maxcache) else s.cache
    ensures Distinct(s.cache) ==> Distinct(After(s, b, a).0.cache)
  {
  }

  lemma CacheNext(s: State, all: seq<string>, b: Bounds, a: Attempt)
    requires s.cache == LastOf(all, b.maxcache) && Distinct(s.cache)
    ensures var (t, auth) := After(s, b, a);
            && t.cache == LastOf(if auth && Combo(a) !in s.cache then all + [Combo(a)] else all, b.maxcache)
            && Distinct(t.cache)
  {
    hide LastOf, Check, Cached, Distinct, After;
    CacheStep(s, b, a);
    CachedIsLast(all, Combo(a), b.maxcache);
  }

  lemma ByCountNext(states: seq<State>, run: seq<Attempt>, b: Bounds, n: nat)
    requires 0 < n <= |run| <= |states|
    ensures var all, a := ByCount(states, run, b, n - 1), run[n - 1];
            ByCount(states, run, b, n) == if After(states[n - 1], b, a).1 && Combo(a) !in states[n - 1].cache then all + [Combo(a)] else all
  {
    hide After;
  }

  lemma NothingCached(states: seq<State>, run: seq<Attempt>, b: Bounds)
    requires IsRun(states, run, b)
    ensures states[0].cache == LastOf(ByCount(states, run, b, 0), b.maxcache) && Distinct(states[0].cache)
  {
  }

  /** The cache is always the most recent combinations admitted by count, at most `maxcache`, oldest first. */
  lemma {:induction false} CacheIsRecent(states: seq<State>, run: seq<Attempt>, b: Bounds, n: nat)
    requires IsRun(states, run, b) && n <= |run|
    ensures states[n].cache == LastOf(ByCount(states, run, b, n), b.maxcache) && Distinct(states[n].cache)
    decreases n
  {
    hide LastOf, Distinct, After, ByCount;
    if n == 0 {
      NothingCached(states, run, b);
    } else {
      CacheIsRecent(states, run, b, n - 1);
      CacheNext(states[n - 1], ByCount(states, run, b, n - 1), b, run[n - 1]);
      ByCountNext(states, run, b, n);
    }
  }

  /** A combination among the latest `maxcache` that got in by count gets in again, from whatever address and however
      long ago it was. */
  lemma CachedGetsIn(states: seq<State>, run: seq<Attempt>, b: Bounds, i: nat)
    requires IsRun(states, run, b) && i < |run|
    requires Combo(run[i]) in LastOf(ByCount(states, run, b, i), b.maxcache)
    ensures Admitted(states, run, b, i)
  {
    CacheIsRecent(states, run, b, i);
  }

  /** What got in by count lets everyone in right after it, if anything is cached at all. */
  lemma OpenForEveryone(s: State, b: Bounds, a: Attempt, other: Attempt)
    requires After(s, b, a).1 && Combo(a) !in s.cache && Combo(other) == Combo(a) && b.maxcache >= 1
    ensures After(After(s, b, a).0, b, other).1
  {
    var cache := After(s, b, a).0.cache;
    assert Combo(a) == cache[|cache| - 1];
  }

  /** A cached combination sets the goal to one: the next uncached combination of that address gets in by count
      exactly if nothing it tried was counted before. */
  lemma AfterACacheHit(s: State, b: Bounds, a: Attempt, next: Attempt)
    requires Combo(a) in s.cache && next.ip == a.ip && Combo(next) !in s.cache
    requires a.ip in s.users ==> s.users[a.ip].tries.Some? && s.users[a.ip].tries.value >= 0
    ensures var uncounted := a.ip !in s.users || s.users[a.ip].tries.value == 0;
            var tried := a.ip in s.users && s.users[a.ip].tried.Some? && Combo(next) in s.users[a.ip].tried.value;
            After(After(s, b, a).0, b, next).1 <==> uncounted && !tried
  {
  }

  // ---------------------------------------------------------------- what is remembered of a login

  /** The latest of the first `n` attempts with which `ip` got in, by count or from the cache. */
  ghost function LastIn(states: seq<State>, run: seq<Attempt>, b: Bounds, n: nat, ip: string): Option<Attempt>
    requires n <= |run| < |states|
  {
    if n == 0 then None
    else if run[n - 1].ip == ip && Admitted(states, run, b, n - 1) then Some(run[n - 1])
    else LastIn(states, run, b, n - 1, ip)
  }

  /** Login and password kept of `ip`, if any. */
  function Kept(s: State, ip: string): (Option<string>, Option<string>) {
    if ip in s.users then (s.users[ip].user, s.users[ip].pw) else (None, None)
  }

  lemma KeptStep(s: State, b: Bounds, a: Attempt, ip: string)
    ensures var (t, auth) := After(s, b, a);
            Kept(t, ip) == if auth && a.ip == ip then (Some(a.login), Some(a.passwd)) else Kept(s, ip)
  {
  }

  /** In every run, what is kept of an address is the login and password it last got in with. */
  lemma {:induction false} LastLoginKept(states: seq<State>, run: seq<Attempt>, b: Bounds, n: nat, ip: string)
    requires IsRun(states, run, b) && n <= |run|
    ensures var a := LastIn(states, run, b, n, ip);
            Kept(states[n], ip) == if a.Some? then (Some(a.value.login), Some(a.value.passwd)) else (None, None)
  {
    if n > 0 {
      LastLoginKept(states, run, b, n - 1, ip);
      KeptStep(states[n - 1], b, run[n - 1], ip);
      hide Check;
    }
  }
}
