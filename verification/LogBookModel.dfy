/** The AbuseIPDB plugin's log book on values: who has tried to log in when, and who has been reported. */
module LogBookModel {
  import opened Wrappers

  /** `Times` is the deque of an ip not reported yet, `Reported` the tuple `(None, t)`. */
  datatype Entry = Times(ts: seq<real>) | Reported(t: real)

  datatype Config = Config(attempts: int, window: real, rereportAfter: real)

  type Book = map<string, Entry>

  const REREPORT_MINIMUM := 900.0

  function MakeConfig(attempts: int, windowMinutes: int, rereportHours: real): (c: Config)
    ensures c.rereportAfter >= 900.0 && c.attempts == attempts && c.window == windowMinutes as real * 60.0
    ensures c.rereportAfter == if rereportHours >= 0.25 then rereportHours * 60.0 * 60.0 else 900.0
  {
    var after := 3600.0 * rereportHours;
    Config(attempts, (60 * windowMinutes) as real, if after < REREPORT_MINIMUM then REREPORT_MINIMUM else after)
  }

  /** `can_rereport`: a missing second element raises IndexError, which counts as yes. */
  predicate CanRereport(e: Entry, t: real, c: Config) {
    match e
    case Reported(r) => t > r + c.rereportAfter
    case Times(ts) =>
      if |ts| < 2 then true
      else t > ts[1] + c.rereportAfter || (ts[0] != 0.0 && c.attempts <= 1)
  }

  /** `clean_expired_timestamps` on a deque. */
  function Clean(ts: seq<real>, cutoff: real): seq<real> {
    if ts == [] || ts[0] == 0.0 || ts[0] >= cutoff then ts else Clean(ts[1..], cutoff)
  }

  function Cleaned(e: Entry, t: real, c: Config): Entry {
    if e.Times? then Times(Clean(e.ts, t - c.window)) else e
  }

  /** What a clean-up at `t` throws away. */
  predicate Stale(e: Entry, t: real, c: Config) {
    CanRereport(e, t, c) || Cleaned(e, t, c) == Times([])
  }

  function CleanUp(b: Book, t: real, c: Config): Book {
    map ip | ip in b && !Stale(b[ip], t, c) :: Cleaned(b[ip], t, c)
  }

  /** `deque(maxlen=n).append`: a full deque drops its first element. */
  function Append(ts: seq<real>, t: real, n: int): seq<real> {
    if 0 < |ts| && |ts| >= n then ts[1..] + [t] else ts + [t]
  }

  /** What one login makes of an ip's entry, and whether it is reported. */
  function Observe(e: Option<Entry>, t: real, c: Config): (Entry, bool) {
    if c.attempts <= 1 then ObserveIntolerant(e, t, c) else ObserveTolerant(e, t, c)
  }

  function ObserveIntolerant(e: Option<Entry>, t: real, c: Config): (Entry, bool) {
    if e.None? || CanRereport(e.value, t, c) then (Reported(t), true) else (e.value, false)
  }

  function ObserveTolerant(e: Option<Entry>, t: real, c: Config): (Entry, bool) {
    if e.None? then (Times([t]), false)
    else if e.value == Times([]) then (Times([t]), false)
    else if e.value.Times? && e.value.ts[0] != 0.0 then
      var ts := Clean(Append(e.value.ts, t, c.attempts), t - c.window);
      if |ts| >= c.attempts then (Reported(if ts == [] then t else ts[|ts| - 1]), true) else (Times(ts), false)
    else if CanRereport(e.value, t, c) then (Times([t]), false)
    else (e.value, false)
  }

  function Lookup(b: Book, ip: string): Option<Entry> {
    if ip in b then Some(b[ip]) else None
  }

  // ---------------------------------------------------------------- the plugin's state

  /** The call that `recall` refers to: none yet, one that is scheduled for `due`, or one that was made or cancelled,
      which cannot be cancelled (again): that raises. */
  datatype Recall = Absent | Pending(due: real) | Spent

  /** The log book, and what it has asked to be called back for: clean-ups (`ticks`) and waking up (`alarms`). */
  datatype Core = Core(
    book: Book, sleeping: bool, sleepUntil: real, recall: Recall, ticks: multiset<real>, alarms: multiset<real>)

  const CLEAN_DUMP_SCHED := 600.0

  const MAX_RETRY := 86340.0

  /** One login attempt; while asleep it is not looked at. */
  function LoginStep(k: Core, ip: string, t: real, c: Config): (Core, bool) {
    if k.sleeping then (k, false)
    else
      var (e, fired) := Observe(Lookup(k.book, ip), t, c);
      (k.(book := k.book[ip := e]), fired)
  }

  /** Asks for the next clean-up. */
  function Reschedule(k: Core, t: real): Core {
    k.(recall := Pending(t + CLEAN_DUMP_SCHED), ticks := k.ticks + multiset{t + CLEAN_DUMP_SCHED})
  }

  /** A clean-up judges by the time of waking when the plugin is asleep. */
  function CleanBook(k: Core, t: real, c: Config): Core {
    k.(book := CleanUp(k.book, if k.sleeping then k.sleepUntil else t, c))
  }

  /** `cleanup_and_dump_state` in its looping mode. */
  function LoopStep(k: Core, t: real, c: Config): Core {
    var k1 := CleanBook(k, t, c);
    if k.sleeping then k1 else Reschedule(k1, t)
  }

  /** The same in its stopping mode, which first cancels the scheduled clean-up. Where that raises, nothing is cleaned. */
  function StopStep(k: Core, t: real, c: Config): (r: (Core, bool))
    ensures r.1 <==> !k.recall.Spent?
  {
    match k.recall
    case Spent => (k, false)
    case Absent => (CleanBook(k, t, c), true)
    case Pending(due) => (CleanBook(k.(recall := Spent, ticks := k.ticks - multiset{due}), t, c), true)
  }

  /** The clean-up that was scheduled for `due` is called. */
  function TickStep(k: Core, due: real, t: real, c: Config): Core {
    LoopStep(k.(ticks := k.ticks - multiset{due}, recall := if k.recall == Pending(due) then Spent else k.recall), t, c)
  }

  /** The wake-up call for `alarm` comes. */
  function WakeStep(k: Core, alarm: real, t: real): Core {
    Reschedule(k.(alarms := k.alarms - multiset{alarm}, sleeping := false, sleepUntil := 0.0), t)
  }

  /** A 429 answer with a Retry-After header. */
  function RateLimitStep(k: Core, t: real, retry: real, c: Config): Core {
    StopStep(k.(sleeping := true, sleepUntil := t + retry, alarms := k.alarms + multiset{t + retry}), t, c).0
  }

  /** After `start` at time `t`, with nothing saved before. */
  function Started(t: real): Core {
    Reschedule(Core(map[], false, 0.0, Absent, multiset{}, multiset{}), t)
  }

  // ---------------------------------------------------------------- exact counting between clean-ups

  /** The times at or after `cutoff`, in order: what naive counting looks at. */
  function Within(ts: seq<real>, cutoff: real): seq<real> {
    if ts == [] then []
    else if ts[0] >= cutoff then [ts[0]] + Within(ts[1..], cutoff)
    else Within(ts[1..], cutoff)
  }

  predicate Sorted(ts: seq<real>) {
    forall i, j | 0 <= i < j < |ts| :: ts[i] <= ts[j]
  }

  predicate Positive(ts: seq<real>) {
    forall i | 0 <= i < |ts| :: ts[i] > 0.0
  }

  lemma {:induction false} AllWithin(ts: seq<real>, cutoff: real)
    requires forall i | 0 <= i < |ts| :: ts[i] >= cutoff
    ensures Within(ts, cutoff) == ts
  {
    if ts != [] {
      AllWithin(ts[1..], cutoff);
    }
  }

  /** Popping from the left while the front is expired is filtering, because times are in order. */
  lemma {:induction false} CleanIsFilter(ts: seq<real>, cutoff: real)
    requires Sorted(ts) && Positive(ts)
    ensures Clean(ts, cutoff) == Within(ts, cutoff)
  {
    if ts != [] {
      if ts[0] >= cutoff {
        AllWithin(ts, cutoff);
      } else {
        CleanIsFilter(ts[1..], cutoff);
      }
    }
  }

  lemma {:induction false} WithinSnoc(ts: seq<real>, t: real, cutoff: real)
    requires t >= cutoff
    ensures Within(ts + [t], cutoff) == Within(ts, cutoff) + [t]
  {
    if ts == [] {
      assert (ts + [t])[1..] == [];
    } else {
      assert (ts + [t])[1..] == ts[1..] + [t];
      WithinSnoc(ts[1..], t, cutoff);
    }
  }

  /** Filtering twice with a growing cutoff is filtering once. */
  lemma {:induction false} WithinTwice(ts: seq<real>, low: real, high: real)
    requires low <= high
    ensures Within(Within(ts, low), high) == Within(ts, high)
  {
    if ts != [] {
      WithinTwice(ts[1..], low, high);
      if ts[0] >= low {
        assert Within(ts, low)[1..] == Within(ts[1..], low);
      }
    }
  }

  lemma {:induction false} WithinKeeps(ts: seq<real>, cutoff: real)
    requires Sorted(ts) && Positive(ts)
    ensures Sorted(Within(ts, cutoff)) && Positive(Within(ts, cutoff))
    ensures forall x | x in Within(ts, cutoff) :: x in ts && x >= cutoff
  {
    if ts != [] {
      WithinKeeps(ts[1..], cutoff);
      var rest := Within(ts[1..], cutoff);
      forall i | 0 <= i < |rest| ensures ts[0] <= rest[i] {
        assert rest[i] in ts[1..];
        var j :| 0 <= j < |ts[1..]| && ts[1..][j] == rest[i];
        assert ts[j + 1] == rest[i];
      }
    }
  }

  /** The logins of one ip in a row, starting without an entry: the entry they leave, and whether the last one was reported. */
  function ObserveAll(ts: seq<real>, c: Config): (r: (Entry, bool))
    requires ts != []
  {
    if |ts| == 1 then Observe(None, ts[0], c)
    else Observe(Some(ObserveAll(ts[..|ts| - 1], c).0), ts[|ts| - 1], c)
  }

  /** How many of the logins are at most the window older than the last. */
  function NaiveCount(ts: seq<real>, c: Config): nat
    requires ts != []
  {
    |Within(ts, ts[|ts| - 1] - c.window)|
  }

  /** A login that joins a deque with room: the entry is what lies within its window, or the report. */
  lemma Joins(deque: seq<real>, t: real, c: Config)
    requires 0 < |deque| < c.attempts && c.attempts >= 2 && c.window >= 0.0
    requires Sorted(deque + [t]) && Positive(deque + [t])
    ensures var ts := Within(deque, t - c.window) + [t];
            Observe(Some(Times(deque)), t, c) == if |ts| >= c.attempts then (Reported(t), true) else (Times(ts), false)
  {
    assert (deque + [t])[0] == deque[0];
    CleanIsFilter(deque + [t], t - c.window);
    WithinSnoc(deque, t, t - c.window);
  }

  /** Before the threshold the deque of `ts` is not empty, in order, and has room. */
  lemma DequeIsFine(ts: seq<real>, next: real, c: Config)
    requires ts != [] && Sorted(ts) && Positive(ts) && c.window >= 0.0 && next >= ts[|ts| - 1]
    ensures var deque := Within(ts, ts[|ts| - 1] - c.window);
            deque != [] && Sorted(deque + [next]) && Positive(deque + [next])
  {
    hide Within, Sorted, Positive;
    var last := ts[|ts| - 1];
    assert ts == ts[..|ts| - 1] + [last];
    WithinSnoc(ts[..|ts| - 1], last, last - c.window);
    WithinKeeps(ts, last - c.window);
    var deque := Within(ts, last - c.window);
    LastIsLargest(ts, deque[|deque| - 1]);
    SortedSnoc(deque, next);
  }

  /** What naive counting makes of the latest of the logins `ts`: the report, or the logins within its window. */
  function Counted(ts: seq<real>, c: Config): (Entry, bool)
    requires ts != []
  {
    var last := ts[|ts| - 1];
    if NaiveCount(ts, c) >= c.attempts then (Reported(last), true) else (Times(Within(ts, last - c.window)), false)
  }

  /** The entry after logins `ts` that were not reported, if the deque was `deque` before them. */
  function Counting(deque: seq<real>, ts: seq<real>, c: Config): Option<Entry> {
    if ts == [] then (if deque == [] then None else Some(Times(deque))) else Some(Counted(deque + ts, c).0)
  }

  /** One more login is counted exactly as long as those before it did not reach the threshold. */
  lemma CountedStep(deque: seq<real>, ts: seq<real>, t: real, c: Config)
    requires Sorted(deque + ts + [t]) && Positive(deque + ts + [t]) && c.attempts >= 2 && c.window >= 0.0
    requires |deque| < c.attempts && (ts != [] ==> NaiveCount(deque + ts, c) < c.attempts)
    ensures Observe(Counting(deque, ts, c), t, c) == Counted(deque + ts + [t], c)
  {
    hide Observe, Within, Sorted, Positive;
    var all := deque + ts;
    WithinSnoc(all, t, t - c.window);
    if all == [] {
      FirstLogin(t, c);
    } else if ts == [] {
      assert all == deque;
      Joins(deque, t, c);
    } else {
      var prev := all[|all| - 1];
      SortedFront(all, t);
      DequeIsFine(all, t, c);
      Joins(Within(all, prev - c.window), t, c);
      WithinTwice(all, prev - c.window, t - c.window);
    }
  }

  lemma FirstLogin(t: real, c: Config)
    requires c.attempts >= 2 && c.window >= 0.0
    ensures Observe(None, t, c) == (Times([t]), false) && Within([t], t - c.window) == [t]
    ensures [] + [t] == [t] && Within([], t - c.window) == []
  {
  }

  lemma SortedFront(ts: seq<real>, t: real)
    requires Sorted(ts + [t]) && Positive(ts + [t])
    ensures Sorted(ts) && Positive(ts) && (ts != [] ==> ts[|ts| - 1] <= t)
  {
    var all := ts + [t];
    assert forall i | 0 <= i < |ts| :: all[i] == ts[i];
    assert all[|ts|] == t;
  }

  /** As long as naive counting has not reached the threshold, the deque holds exactly the logins within the
      window of the latest one, so it never overflows; and the report comes exactly when the count reaches it. */
  lemma {:induction false} CountingIsExact(ts: seq<real>, c: Config)
    requires ts != [] && Sorted(ts) && Positive(ts) && c.attempts >= 2 && c.window >= 0.0
    requires forall k | 1 <= k < |ts| :: NaiveCount(ts[..k], c) < c.attempts
    ensures ObserveAll(ts, c) == Counted(ts, c)
  {
    hide Counted, NaiveCount, Observe, Sorted, Positive;
    var before, last := ts[..|ts| - 1], ts[|ts| - 1];
    assert [] + before + [last] == ts && [] + before == before;
    if |ts| > 1 {
      forall k | 1 <= k < |before| ensures NaiveCount(before[..k], c) < c.attempts {
        assert before[..k] == ts[..k];
      }
      SortedFront(before, last);
      CountingIsExact(before, c);
    }
    CountedStep([], before, last, c);
  }

  /** What a clean-up leaves of a deque. */
  lemma Survives(ts: seq<real>, c: Config, at: real)
    requires ts != [] && |ts| < c.attempts && Sorted(ts) && Positive(ts)
    ensures var kept := Within(ts, at - c.window);
            Lookup(CleanUp(map["" := Times(ts)], at, c), "") ==
            if |ts| >= 2 && at <= ts[1] + c.rereportAfter && kept != [] then Some(Times(kept)) else None
  {
    CleanIsFilter(ts, at - c.window);
  }

  /** Of the times within the window of a login at `t`, none is thrown away by judging by `at`. */
  ghost predicate NoneLost(ts: seq<real>, at: real, t: real, c: Config) {
    forall i | 0 <= i < |ts| :: ts[i] >= t - c.window ==> ts[i] >= at - c.window
  }

  /** When judging by `at` leaves what a login at `t` looks at, and that it can only leave less. */
  lemma {:induction false} WithinBoth(ts: seq<real>, low: real, high: real)
    ensures var kept := Within(Within(ts, low), high);
            && |kept| <= |Within(ts, high)|
            && (kept == Within(ts, high) <==> forall i | 0 <= i < |ts| :: ts[i] >= high ==> ts[i] >= low)
            && (|kept| == |Within(ts, high)| ==> kept == Within(ts, high))
  {
    if ts != [] {
      WithinBoth(ts[1..], low, high);
      var rest, all := Within(Within(ts[1..], low), high), Within(ts[1..], high);
      if ts[0] >= low {
        assert Within(ts, low)[1..] == Within(ts[1..], low);
      }
      assert ts[0] >= high ==> ([ts[0]] + all)[1..] == all && ([ts[0]] + rest)[1..] == rest;
      assert forall i | 0 <= i < |ts| - 1 :: ts[1..][i] == ts[i + 1];
    }
  }

  /** A clean-up that judges by any time `at`, before or after the next login at `t`, leaves what that login sees
      exactly if the deque had nothing within its window, or it held at least two times, was not thrown away for
      the pause, and lost no time within the window of the login. */
  lemma CleanUpHarmlessIff(ts: seq<real>, c: Config, at: real, t: real)
    requires ts != [] && |ts| < c.attempts && Sorted(ts) && Positive(ts) && c.window >= 0.0
    requires ts[|ts| - 1] <= t
    ensures var b := map["" := Times(ts)];
            Observe(Lookup(CleanUp(b, at, c), ""), t, c) == Observe(Some(Times(ts)), t, c)
            <==> || ts[|ts| - 1] < t - c.window
                 || (|ts| >= 2 && at <= ts[1] + c.rereportAfter && NoneLost(ts, at, t, c))
  {
    hide Within, Clean, CleanUp, Sorted, Positive, Observe;
    var low, high := at - c.window, t - c.window;
    var kept, w := Within(ts, low), Within(ts, high);
    Survives(ts, c, at);
    SortedSnoc(ts, t);
    Joins(ts, t, c);
    NoneWithin(ts, high);
    ShortWithin(ts, high);
    WithinBoth(ts, low, high);
    FirstLogin(t, c);
    LongerOrOne(w, t);
    if |ts| >= 2 && kept != [] {
      WithinKeeps(ts, low);
      ShortWithin(ts, low);
      assert kept[|kept| - 1] in kept;
      LastIsLargest(ts, kept[|kept| - 1]);
      SortedSnoc(kept, t);
      Joins(kept, t, c);
      LongerOrOne(Within(kept, high), t);
      assert Within(kept, high) != w ==> Within(kept, high) + [t] != w + [t] by {
        assert |Within(kept, high) + [t]| == |Within(kept, high)| + 1 && |w + [t]| == |w| + 1;
      }
    }
  }

  lemma LongerOrOne(w: seq<real>, t: real)
    ensures w == [] ==> w + [t] == [t]
    ensures w != [] ==> |w + [t]| > 1 && w + [t] != [t]
  {
  }

  lemma SortedSnoc(ts: seq<real>, t: real)
    requires ts != [] && Sorted(ts) && Positive(ts) && ts[|ts| - 1] <= t
    ensures Sorted(ts + [t]) && Positive(ts + [t])
  {
  }

  lemma LastIsLargest(ts: seq<real>, x: real)
    requires Sorted(ts) && x in ts
    ensures x <= ts[|ts| - 1]
  {
  }

  lemma {:induction false} ShortWithin(ts: seq<real>, cutoff: real)
    ensures |Within(ts, cutoff)| <= |ts|
  {
    if ts != [] {
      ShortWithin(ts[1..], cutoff);
    }
  }

  /** Of sorted times none is within exactly when the last is not. */
  lemma {:induction false} NoneWithin(ts: seq<real>, cutoff: real)
    requires Sorted(ts) && ts != []
    ensures Within(ts, cutoff) == [] <==> ts[|ts| - 1] < cutoff
  {
    if |ts| > 1 {
      NoneWithin(ts[1..], cutoff);
    }
  }

  /** Two logins two seconds apart, with a clean-up between them, are not counted together. */
  lemma CleanUpForgets(c: Config)
    requires c.attempts == 2 && c.window >= 60.0
    ensures Observe(Some(Times([1.0])), 3.0, c) == (Reported(3.0), true)
    ensures Observe(Lookup(CleanUp(map["" := Times([1.0])], 2.0, c), ""), 3.0, c) == (Times([3.0]), false)
  {
    assert Clean([1.0, 3.0], 3.0 - c.window) == [1.0, 3.0];
    assert Append([1.0], 3.0, 2) == [1.0, 3.0];
  }

  /** A clean-up for a waking time that comes after the next login can throw away a login that counts and keep the
      entry: judged by 7225, the login at 20 is lost to the one at 52, although only 32 seconds lie between them. */
  lemma CleanUpForWakingLosesCount()
    ensures var c, b := Config(3, 7200.0, 86400.0), map["" := Times([20.0, 30.0])];
            && Observe(Lookup(b, ""), 52.0, c) == (Reported(52.0), true)
            && Lookup(CleanUp(b, 7225.0, c), "") == Some(Times([30.0]))
            && Observe(Lookup(CleanUp(b, 7225.0, c), ""), 52.0, c) == (Times([30.0, 52.0]), false)
  {
    assert [20.0, 30.0][1..] == [30.0];
    assert Append([20.0, 30.0], 52.0, 3) == [20.0, 30.0, 52.0] && Append([30.0], 52.0, 3) == [30.0, 52.0];
    assert Clean([20.0, 30.0], 25.0) == [30.0];
  }

  /** A clean-up may forget a report exactly if its pause is over for the next login, or it was not over at the time
      the clean-up judges by. */
  lemma ForgettingReportHarmlessIff(r: real, c: Config, at: real, t: real)
    ensures var b := map["" := Reported(r)];
            Observe(Lookup(CleanUp(b, at, c), ""), t, c) == Observe(Some(Reported(r)), t, c)
            <==> at <= r + c.rereportAfter || t > r + c.rereportAfter
  {
    var b := map["" := Reported(r)];
    assert "" in CleanUp(b, at, c) <==> at <= r + c.rereportAfter;
    assert at <= r + c.rereportAfter ==> CleanUp(b, at, c)[""] == Reported(r);
  }
}
