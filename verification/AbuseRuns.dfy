/** The AbuseIPDB plugin over whole runs: logins, clean-ups, sleeping and waking in any order. */
module AbuseRuns {
  import opened Wrappers
  import opened LogBookModel

  /** A report, and how many logins of its ip had been looked at by then. */
  datatype Report = Report(ip: string, t: real, seen: nat)

  /** The plugin, the clock, the number of reports whose answers are still to come, and what has happened:
      `logins` are the ones looked at, `last` the time of the latest report. */
  datatype State = State(
    core: Core, now: real, inFlight: nat,
    last: map<string, real>, logins: map<string, seq<real>>, reports: seq<Report>)

  /** `Answered` is an answer that asks for nothing. */
  datatype Event =
    | Login(ip: string, t: real)
    | Tick(t: real, due: real)
    | Answered(t: real)
    | RateLimit(t: real, retry: real)
    | Wake(t: real, alarm: real)

  function Initial(t: real): State {
    State(Started(t), t, 0, map[], map[], [])
  }

  /** Time goes on; scheduled calls come when they are due, answers only to reports that were sent. */
  predicate Enabled(s: State, e: Event) {
    && e.t >= s.now && e.t > 0.0
    && match e
       case Login(_, _) => true
       case Tick(t, due) => due in s.core.ticks && due <= t
       case Answered(_) => s.inFlight > 0
       case RateLimit(_, retry) => s.inFlight > 0 && 0.0 <= retry <= MAX_RETRY
       case Wake(t, alarm) => alarm in s.core.alarms && alarm <= t
  }

  function LoginsOf(s: State, ip: string): seq<real> {
    if ip in s.logins then s.logins[ip] else []
  }

  function Step(s: State, e: Event, c: Config): State
    requires e.Answered? || e.RateLimit? ==> s.inFlight > 0
  {
    match e
    case Login(ip, t) =>
      var (k, fired) := LoginStep(s.core, ip, t, c);
      if s.core.sleeping then s.(now := t)
      else
        var seen := LoginsOf(s, ip) + [t];
        State(k, t, if fired then s.inFlight + 1 else s.inFlight,
              if fired then s.last[ip := t] else s.last, s.logins[ip := seen],
              if fired then s.reports + [Report(ip, t, |seen|)] else s.reports)
    case Tick(t, due) => s.(core := TickStep(s.core, due, t, c), now := t)
    case Answered(t) => s.(now := t, inFlight := s.inFlight - 1)
    case RateLimit(t, retry) => s.(core := RateLimitStep(s.core, t, retry, c), now := t, inFlight := s.inFlight - 1)
    case Wake(t, alarm) => s.(core := WakeStep(s.core, alarm, t), now := t)
  }

  // ---------------------------------------------------------------- the threshold

  ghost predicate IsSuffix(a: seq<real>, b: seq<real>) {
    |a| <= |b| && forall i | 0 <= i < |a| :: a[i] == b[|b| - |a| + i]
  }

  /** How many logins a report takes. */
  function Need(c: Config): nat {
    if c.attempts <= 1 then 1 else c.attempts
  }

  /** The report's time is that of login `seen`, and the last `Need` logins up to it lie within the window. */
  ghost predicate ReportOk(rep: Report, seen: seq<real>, c: Config) {
    && Need(c) <= rep.seen <= |seen| && rep.t == seen[rep.seen - 1]
    && forall i | rep.seen - Need(c) <= i < rep.seen :: rep.t - c.window <= seen[i] <= rep.t
  }

  ghost predicate EntryOk(e: Entry, seen: seq<real>, c: Config) {
    e.Times? ==> c.attempts >= 2 && 0 < |e.ts| < c.attempts && IsSuffix(e.ts, seen)
  }

  ghost predicate HistoryOk(s: State, ip: string) {
    Sorted(LoginsOf(s, ip)) && Positive(LoginsOf(s, ip)) && forall x | x in LoginsOf(s, ip) :: x <= s.now
  }

  /** Holds in every state, however sleeps overlap. */
  ghost predicate ThresholdInv(s: State, c: Config) {
    && (forall ip :: HistoryOk(s, ip))
    && (forall ip | ip in s.core.book :: EntryOk(s.core.book[ip], LoginsOf(s, ip), c))
    && (forall i | 0 <= i < |s.reports| :: ReportOk(s.reports[i], LoginsOf(s, s.reports[i].ip), c))
  }

  lemma {:induction false} CleanIsSuffix(ts: seq<real>, cutoff: real)
    ensures IsSuffix(Clean(ts, cutoff), ts)
    ensures forall i | 0 <= i < |Clean(ts, cutoff)| && Sorted(ts) && Positive(ts) :: Clean(ts, cutoff)[i] >= cutoff
  {
    if ts != [] && ts[0] != 0.0 && ts[0] < cutoff {
      CleanIsSuffix(ts[1..], cutoff);
    }
  }

  lemma SuffixOfSuffix(a: seq<real>, b: seq<real>, seen: seq<real>)
    requires IsSuffix(a, b) && IsSuffix(b, seen)
    ensures IsSuffix(a, seen)
  {
    forall i | 0 <= i < |a| ensures a[i] == seen[|seen| - |a| + i] {
      assert a[i] == b[|b| - |a| + i];
    }
  }

  lemma CleanedOk(e: Entry, t: real, seen: seq<real>, c: Config)
    requires EntryOk(e, seen, c) && !Stale(e, t, c)
    ensures EntryOk(Cleaned(e, t, c), seen, c)
  {
    if e.Times? {
      CleanIsSuffix(e.ts, t - c.window);
      SuffixOfSuffix(Clean(e.ts, t - c.window), e.ts, seen);
    }
  }

  /** A deque that a login joined: still a suffix of the history, and if it is full all of it lies within the window. */
  lemma JoinedOk(ts: seq<real>, t: real, before: seq<real>, c: Config)
    requires IsSuffix(ts, before) && |ts| < c.attempts && Sorted(before + [t]) && Positive(before + [t]) && c.window >= 0.0
    ensures var cleaned, seen := Clean(ts + [t], t - c.window), before + [t];
            && cleaned != [] && cleaned[|cleaned| - 1] == t && IsSuffix(cleaned, seen) && |cleaned| <= c.attempts
            && forall i | 0 <= i < |cleaned| :: t - c.window <= cleaned[i]
  {
    hide Clean;
    var joined, seen := ts + [t], before + [t];
    forall i | 0 <= i < |joined| ensures joined[i] == seen[|seen| - |joined| + i] {
      if i < |ts| {
        assert ts[i] == before[|before| - |ts| + i];
      }
    }
    CleanIsSuffix(joined, t - c.window);
    KeepsLast(ts, t, c);
    SuffixOfSuffix(Clean(joined, t - c.window), joined, seen);
  }

  /** One login, for its ip: the entry stays a suffix of the history, and a report is justified. */
  lemma ObserveOk(ip: string, e: Option<Entry>, t: real, before: seq<real>, c: Config)
    requires e.Some? ==> EntryOk(e.value, before, c)
    requires Sorted(before + [t]) && Positive(before + [t]) && c.window >= 0.0
    ensures var (e', fired) := Observe(e, t, c);
            var seen := before + [t];
            EntryOk(e', seen, c) && (fired ==> e' == Reported(t) && ReportOk(Report(ip, t, |seen|), seen, c))
  {
    hide Clean, Sorted;
    var seen := before + [t];
    assert IsSuffix([t], seen);
    if c.attempts >= 2 && e.Some? && e.value.Times? {
      var ts := e.value.ts;
      JoinedOk(ts, t, before, c);
      assert ts[0] == seen[|before| - |ts|];
      var cleaned := Clean(ts + [t], t - c.window);
      forall i | |seen| - |cleaned| <= i < |seen| ensures t - c.window <= seen[i] <= t {
        assert seen[i] == cleaned[i - (|seen| - |cleaned|)];
        SortedLast(before, t, i);
      }
    }
  }

  lemma SortedLast(before: seq<real>, t: real, i: nat)
    requires Sorted(before + [t]) && i <= |before|
    ensures (before + [t])[i] <= t
  {
    assert (before + [t])[|before|] == t;
  }

  lemma {:induction false} KeepsLast(ts: seq<real>, t: real, c: Config)
    requires c.window >= 0.0
    ensures var cleaned := Clean(ts + [t], t - c.window);
            cleaned != [] && cleaned[|cleaned| - 1] == t
  {
    if ts == [] {
      assert ts + [t] == [t];
    } else {
      assert (ts + [t])[1..] == ts[1..] + [t];
      KeepsLast(ts[1..], t, c);
    }
  }

  lemma CleanUpKeepsThreshold(s: State, t: State, at: real, c: Config)
    requires ThresholdInv(s, c) && t.core.book == CleanUp(s.core.book, at, c)
    requires t.logins == s.logins && t.reports == s.reports && t.now >= s.now
    ensures ThresholdInv(t, c)
  {
    forall ip ensures HistoryOk(t, ip) {
      assert HistoryOk(s, ip);
    }
    forall ip | ip in t.core.book ensures EntryOk(t.core.book[ip], LoginsOf(t, ip), c) {
      CleanedOk(s.core.book[ip], at, LoginsOf(s, ip), c);
    }
    forall i | 0 <= i < |t.reports| ensures ReportOk(t.reports[i], LoginsOf(t, t.reports[i].ip), c) {
      assert ReportOk(s.reports[i], LoginsOf(s, s.reports[i].ip), c);
    }
  }

  lemma LoginKeepsThreshold(s: State, ip: string, time: real, c: Config)
    requires ThresholdInv(s, c) && Enabled(s, Login(ip, time)) && c.window >= 0.0 && !s.core.sleeping
    ensures ThresholdInv(Step(s, Login(ip, time), c), c)
  {
    hide Observe, ReportOk, EntryOk;
    var t := Step(s, Login(ip, time), c);
    var before := LoginsOf(s, ip);
    assert HistoryOk(s, ip);
    assert Sorted(before + [time]) && Positive(before + [time]) by {
      assert forall i | 0 <= i < |before| :: before[i] in before;
    }
    ObserveOk(ip, Lookup(s.core.book, ip), time, before, c);
    forall other ensures HistoryOk(t, other) {
      assert HistoryOk(s, other);
    }
    forall i | 0 <= i < |t.reports| ensures ReportOk(t.reports[i], LoginsOf(t, t.reports[i].ip), c) {
      if i < |s.reports| {
        assert ReportOk(s.reports[i], LoginsOf(s, s.reports[i].ip), c);
        ReportStays(s.reports[i], LoginsOf(s, s.reports[i].ip), time, c);
      }
    }
  }

  lemma ReportStays(rep: Report, seen: seq<real>, t: real, c: Config)
    requires ReportOk(rep, seen, c)
    ensures ReportOk(rep, seen + [t], c)
  {
  }

  lemma ThresholdStep(s: State, e: Event, c: Config)
    requires ThresholdInv(s, c) && Enabled(s, e) && c.window >= 0.0
    ensures ThresholdInv(Step(s, e, c), c)
  {
    hide ThresholdInv, CleanUp, Observe;
    if e.Login? && !s.core.sleeping {
      LoginKeepsThreshold(s, e.ip, e.t, c);
    } else {
      BookCleaned(s, e, c);
      hide Step;
      if CleanedAt(s, e).Some? {
        CleanUpKeepsThreshold(s, Step(s, e, c), CleanedAt(s, e).value, c);
      } else {
        SameKeepsThreshold(s, Step(s, e, c), c);
      }
    }
  }

  /** The time a step's clean-up judges by, if it has one. */
  function CleanedAt(s: State, e: Event): Option<real> {
    match e
    case Tick(t, _) => Some(if s.core.sleeping then s.core.sleepUntil else t)
    case RateLimit(t, retry) => if s.core.recall.Spent? then None else Some(t + retry)
    case _ => None
  }

  lemma TickEffect(k: Core, due: real, t: real, c: Config)
    ensures var k' := TickStep(k, due, t, c);
            && k'.book == CleanUp(k.book, if k.sleeping then k.sleepUntil else t, c)
            && k'.sleeping == k.sleeping && k'.sleepUntil == k.sleepUntil && k'.alarms == k.alarms
            && (!k.sleeping ==> t + CLEAN_DUMP_SCHED in k'.ticks)
  {
    hide CleanUp;
  }

  lemma RateLimitEffect(k: Core, t: real, retry: real, c: Config)
    ensures var k' := RateLimitStep(k, t, retry, c);
            && k'.book == (if k.recall.Spent? then k.book else CleanUp(k.book, t + retry, c))
            && k'.sleeping && k'.sleepUntil == t + retry && k'.alarms == k.alarms + multiset{t + retry}
  {
    hide CleanUp;
  }

  lemma LoginEffect(k: Core, ip: string, t: real, c: Config)
    ensures var k' := LoginStep(k, ip, t, c).0;
            k'.sleeping == k.sleeping && k'.sleepUntil == k.sleepUntil && k'.alarms == k.alarms && k'.ticks == k.ticks
  {
    hide Observe;
  }

  /** Any step but an awake login cleans the book or leaves it. */
  lemma BookCleaned(s: State, e: Event, c: Config)
    requires Enabled(s, e) && (e.Login? ==> s.core.sleeping)
    ensures var t, at := Step(s, e, c), CleanedAt(s, e);
            && t.core.book == (if at.Some? then CleanUp(s.core.book, at.value, c) else s.core.book)
            && t.last == s.last && t.logins == s.logins && t.reports == s.reports && t.now == e.t
  {
    hide CleanUp, LoginStep, TickStep, RateLimitStep, LoginsOf;
    match e
    case Tick(t, due) => TickEffect(s.core, due, t, c);
    case RateLimit(t, retry) => RateLimitEffect(s.core, t, retry, c);
    case Wake(t, alarm) => assert Step(s, e, c).core.book == s.core.book;
    case _ => assert Step(s, e, c).core == s.core;
  }

  lemma SameKeepsThreshold(s: State, t: State, c: Config)
    requires ThresholdInv(s, c) && t.core.book == s.core.book
    requires t.logins == s.logins && t.reports == s.reports && t.now >= s.now
    ensures ThresholdInv(t, c)
  {
    forall ip ensures HistoryOk(t, ip) {
      assert HistoryOk(s, ip);
    }
  }

  ghost predicate IsRun(states: seq<State>, events: seq<Event>, c: Config) {
    && |states| == |events| + 1 && states[0] == Initial(states[0].now)
    && forall i | 0 <= i < |events| :: Enabled(states[i], events[i]) && states[i + 1] == Step(states[i], events[i], c)
  }

  lemma {:induction false} ThresholdAlways(states: seq<State>, events: seq<Event>, c: Config, i: nat)
    requires IsRun(states, events, c) && c.window >= 0.0 && i <= |events|
    ensures ThresholdInv(states[i], c)
  {
    if i > 0 {
      ThresholdAlways(states, events, c, i - 1);
      ThresholdStep(states[i - 1], events[i - 1], c);
    }
  }

  /** In every run, over all interleavings: each report comes at a login that is the last of enough logins of its
      ip, all of them within the window before it. */
  lemma ReportsAreJustified(states: seq<State>, events: seq<Event>, c: Config, i: nat, k: nat)
    requires IsRun(states, events, c) && c.window >= 0.0 && i <= |events| && k < |states[i].reports|
    ensures var rep := states[i].reports[k];
            var seen := LoginsOf(states[i], rep.ip);
            && Need(c) <= rep.seen <= |seen| && seen[rep.seen - 1] == rep.t
            && forall j | rep.seen - Need(c) <= j < rep.seen :: rep.t - c.window <= seen[j] <= rep.t
  {
    ThresholdAlways(states, events, c, i);
    assert ReportOk(states[i].reports[k], LoginsOf(states[i], states[i].reports[k].ip), c);
  }

  // ---------------------------------------------------------------- exact counting in runs

  /** None of the steps from `i` to `j` makes a clean-up. */
  ghost predicate NoCleanUp(states: seq<State>, events: seq<Event>, i: nat, j: nat)
    requires j <= |events| <= |states|
  {
    forall k | i <= k < j :: CleanedAt(states[k], events[k]).None?
  }

  /** The deque of an ip that is not reported; empty if it has none. */
  function DequeOf(s: State, ip: string): seq<real> {
    if ip in s.core.book && s.core.book[ip].Times? then s.core.book[ip].ts else []
  }

  /** The logins of an ip that `t` has seen and `s` had not. */
  function Since(s: State, t: State, ip: string): seq<real> {
    var before, after := LoginsOf(s, ip), LoginsOf(t, ip);
    if before <= after then after[|before|..] else []
  }

  /** From `i` to `j` naive counting, over what the deque held and what came since, stays below the threshold. */
  ghost predicate BelowThreshold(states: seq<State>, c: Config, i: nat, j: nat, ip: string)
    requires i <= j < |states|
  {
    forall k | i <= k <= j :: Since(states[i], states[k], ip) != [] ==>
      NaiveCount(DequeOf(states[i], ip) + Since(states[i], states[k], ip), c) < c.attempts
  }

  /** An awake login of this ip. */
  predicate Observes(s: State, e: Event, ip: string) {
    e.Login? && e.ip == ip && !s.core.sleeping
  }

  lemma OwnLogin(s: State, ip: string, time: real, c: Config)
    requires Enabled(s, Login(ip, time)) && !s.core.sleeping
    ensures var t, (e, fired) := Step(s, Login(ip, time), c), Observe(Lookup(s.core.book, ip), time, c);
            && Lookup(t.core.book, ip) == Some(e) && LoginsOf(t, ip) == LoginsOf(s, ip) + [time]
            && t.reports == if fired then s.reports + [Report(ip, time, |LoginsOf(s, ip)| + 1)] else s.reports
  {
    hide Observe;
  }

  lemma OtherStep(s: State, e: Event, c: Config, ip: string)
    requires Enabled(s, e) && CleanedAt(s, e).None? && !Observes(s, e, ip)
    ensures var t := Step(s, e, c);
            Lookup(t.core.book, ip) == Lookup(s.core.book, ip) && LoginsOf(t, ip) == LoginsOf(s, ip)
  {
    if e.Login? && !s.core.sleeping {
      hide Observe;
    } else {
      BookCleaned(s, e, c);
      hide Step;
    }
  }

  lemma OtherReports(s: State, e: Event, c: Config, ip: string)
    requires Enabled(s, e) && !Observes(s, e, ip)
    ensures var t := Step(s, e, c);
            t.reports == s.reports || (|t.reports| == |s.reports| + 1 && t.reports[..|s.reports|] == s.reports && t.reports[|s.reports|].ip != ip)
  {
    if e.Login? && !s.core.sleeping {
      hide Observe;
    } else {
      BookCleaned(s, e, c);
      hide Step;
    }
  }

  /** The deque and what came since are the latest part of the history, in order. */
  lemma DequeInOrder(s: State, t: State, ip: string, c: Config)
    requires ThresholdInv(s, c) && ThresholdInv(t, c) && LoginsOf(s, ip) <= LoginsOf(t, ip)
    ensures var all := DequeOf(s, ip) + Since(s, t, ip); Sorted(all) && Positive(all)
    ensures |DequeOf(s, ip)| < c.attempts || DequeOf(s, ip) == []
  {
    var deque, before, after := DequeOf(s, ip), LoginsOf(s, ip), LoginsOf(t, ip);
    if ip in s.core.book {
      assert EntryOk(s.core.book[ip], before, c);
    }
    assert HistoryOk(t, ip);
    var all := deque + Since(s, t, ip);
    assert forall k | 0 <= k < |before| :: before[k] == after[k];
    forall k | 0 <= k < |all| ensures all[k] == after[|after| - |all| + k] {
      if k < |deque| {
        assert deque[k] == before[|before| - |deque| + k];
      }
    }
    SuffixInOrder(all, after);
  }

  lemma SuffixInOrder(a: seq<real>, b: seq<real>)
    requires IsSuffix(a, b) && Sorted(b) && Positive(b)
    ensures Sorted(a) && Positive(a)
  {
    var n := |b| - |a|;
    forall i, j | 0 <= i < j < |a| ensures a[i] <= a[j] {
      assert b[n + i] <= b[n + j];
    }
  }

  lemma SinceNext(s: State, t: State, u: State, ip: string)
    requires LoginsOf(s, ip) <= LoginsOf(t, ip)
    ensures LoginsOf(u, ip) == LoginsOf(t, ip) ==> Since(s, u, ip) == Since(s, t, ip)
    ensures forall x :: LoginsOf(u, ip) == LoginsOf(t, ip) + [x] ==>
              LoginsOf(s, ip) <= LoginsOf(u, ip) && Since(s, u, ip) == Since(s, t, ip) + [x]
  {
  }

  /** No report of this ip was sent between the two. */
  ghost predicate Unreported(s: State, t: State, ip: string) {
    |s.reports| <= |t.reports| && forall k | |s.reports| <= k < |t.reports| :: t.reports[k].ip != ip
  }

  /** In every run, from any state on in which the ip is not reported, and as long as no clean-up comes: the entry is
      what naive counting over its deque and the logins since makes of them, and nothing is reported while the count
      stays below the threshold. */
  lemma {:induction false} CountedInRuns(states: seq<State>, events: seq<Event>, c: Config, i: nat, j: nat, ip: string)
    requires IsRun(states, events, c) && i <= j <= |events| && c.attempts >= 2 && c.window >= 0.0
    requires NoCleanUp(states, events, i, j) && BelowThreshold(states, c, i, j, ip)
    requires !(ip in states[i].core.book && states[i].core.book[ip].Reported?)
    ensures LoginsOf(states[i], ip) <= LoginsOf(states[j], ip)
    ensures Lookup(states[j].core.book, ip) == Counting(DequeOf(states[i], ip), Since(states[i], states[j], ip), c)
    ensures Unreported(states[i], states[j], ip)
    decreases j
  {
    hide Step, Counting, Enabled, NaiveCount, ThresholdInv;
    if i == j {
      EntryOf(states, events, c, i, ip);
    } else {
      var k := j - 1;
      CountedInRuns(states, events, c, i, k, ip);
      var s, e, t := states[k], events[k], states[k + 1];
      SinceNext(states[i], s, t, ip);
      hide Since, LoginsOf;
      if Observes(s, e, ip) {
        LoginCounted(states, events, c, i, k, ip, e.t);
        NextCounting(DequeOf(states[i], ip), Since(states[i], s, ip), e.t, c);
        MoreUnreported(states[i], s, t, ip);
      } else {
        OtherStep(s, e, c, ip);
        OtherReports(s, e, c, ip);
        MoreUnreported(states[i], s, t, ip);
      }
    }
  }

  lemma MoreUnreported(s: State, t: State, u: State, ip: string)
    requires Unreported(s, t, ip)
    requires u.reports == t.reports || (|u.reports| == |t.reports| + 1 && u.reports[..|t.reports|] == t.reports && u.reports[|t.reports|].ip != ip)
    ensures Unreported(s, u, ip)
  {
    assert forall k | 0 <= k < |t.reports| :: u.reports[k] == u.reports[..|t.reports|][k] || u.reports == t.reports;
  }

  lemma EntryOf(states: seq<State>, events: seq<Event>, c: Config, i: nat, ip: string)
    requires IsRun(states, events, c) && i <= |events| && c.window >= 0.0
    requires !(ip in states[i].core.book && states[i].core.book[ip].Reported?)
    ensures Lookup(states[i].core.book, ip) == Counting(DequeOf(states[i], ip), Since(states[i], states[i], ip), c)
  {
    ThresholdAlways(states, events, c, i);
    if ip in states[i].core.book {
      assert EntryOk(states[i].core.book[ip], LoginsOf(states[i], ip), c);
    }
  }

  /** One more login at state `k`, before which the count was below the threshold. */
  lemma LoginCounted(states: seq<State>, events: seq<Event>, c: Config, i: nat, k: nat, ip: string, time: real)
    requires IsRun(states, events, c) && i <= k < |events| && c.attempts >= 2 && c.window >= 0.0
    requires events[k] == Login(ip, time) && !states[k].core.sleeping && LoginsOf(states[i], ip) <= LoginsOf(states[k], ip)
    requires Lookup(states[k].core.book, ip) == Counting(DequeOf(states[i], ip), Since(states[i], states[k], ip), c)
    requires BelowThreshold(states, c, i, k, ip)
    ensures var s, t, all := states[k], states[k + 1], DequeOf(states[i], ip) + Since(states[i], states[k], ip) + [time];
            && LoginsOf(t, ip) == LoginsOf(s, ip) + [time] && Lookup(t.core.book, ip) == Some(Counted(all, c).0)
            && Since(states[i], t, ip) == Since(states[i], s, ip) + [time]
            && t.reports == if NaiveCount(all, c) >= c.attempts then s.reports + [Report(ip, time, |LoginsOf(t, ip)|)] else s.reports
  {
    var s, t := states[k], states[k + 1];
    RunStep(states, events, c, k);
    hide Observe, Sorted, Positive, Counting, ThresholdInv, NaiveCount, IsRun;
    OwnLogin(s, ip, time, c);
    SinceNext(states[i], s, t, ip);
    ThresholdAlways(states, events, c, i);
    ThresholdAlways(states, events, c, k + 1);
    DequeInOrder(states[i], t, ip, c);
    var deque, news := DequeOf(states[i], ip), Since(states[i], s, ip);
    NextCounting(deque, news, time, c);
    CountedStep(deque, news, time, c);
  }

  lemma RunStep(states: seq<State>, events: seq<Event>, c: Config, k: nat)
    requires IsRun(states, events, c) && k < |events|
    ensures |states| == |events| + 1 && Enabled(states[k], events[k]) && states[k + 1] == Step(states[k], events[k], c)
  {
  }

  lemma NextCounting(deque: seq<real>, news: seq<real>, t: real, c: Config)
    ensures deque + news + [t] == deque + (news + [t])
    ensures Counting(deque, news + [t], c) == Some(Counted(deque + news + [t], c).0)
  {
    assert deque + news + [t] == deque + (news + [t]);
  }

  /** So between clean-ups the report comes exactly with the login that makes the count reach the threshold. */
  lemma ReportIffCountReaches(states: seq<State>, events: seq<Event>, c: Config, i: nat, j: nat, ip: string, time: real)
    requires IsRun(states, events, c) && i <= j < |events| && c.attempts >= 2 && c.window >= 0.0
    requires NoCleanUp(states, events, i, j) && BelowThreshold(states, c, i, j, ip)
    requires !(ip in states[i].core.book && states[i].core.book[ip].Reported?)
    requires events[j] == Login(ip, time) && !states[j].core.sleeping
    ensures Unreported(states[i], states[j], ip)
    ensures var all := DequeOf(states[i], ip) + Since(states[i], states[j + 1], ip);
            all != [] && (|states[j + 1].reports| > |states[j].reports| <==> NaiveCount(all, c) >= c.attempts)
  {
    RunStep(states, events, c, j);
    hide IsRun, NoCleanUp, BelowThreshold, Counted, NaiveCount, Since, DequeOf, LoginsOf, Unreported;
    CountedInRuns(states, events, c, i, j, ip);
    LoginCounted(states, events, c, i, j, ip, time);
    NextCounting(DequeOf(states[i], ip), Since(states[i], states[j], ip), time, c);
  }

  // ---------------------------------------------------------------- counting again after a report

  /** The ip was reported at `r`, and the book says so. */
  ghost predicate InBook(s: State, ip: string, r: real) {
    ip in s.core.book && s.core.book[ip] == Reported(r)
  }

  /** The times after `x`. */
  function Late(ts: seq<real>, x: real): seq<real> {
    if ts == [] then []
    else if ts[|ts| - 1] > x then Late(ts[..|ts| - 1], x) + [ts[|ts| - 1]]
    else Late(ts[..|ts| - 1], x)
  }

  lemma LateSnoc(ts: seq<real>, t: real, x: real)
    ensures Late(ts + [t], x) == if t > x then Late(ts, x) + [t] else Late(ts, x)
  {
    assert (ts + [t])[..|ts|] == ts;
  }

  lemma OneInOrder(ts: seq<real>, t: real)
    requires Positive(ts + [t])
    ensures Sorted([t]) && Positive([t])
  {
    assert (ts + [t])[|ts|] == t;
  }

  /** Of times in order: the late ones are in order too, and after one of them all are late. */
  lemma {:induction false} LateInOrder(ts: seq<real>, x: real)
    requires Sorted(ts) && Positive(ts)
    ensures Sorted(Late(ts, x)) && Positive(Late(ts, x))
    ensures Late(ts, x) != [] ==> ts != [] && Late(ts, x)[|Late(ts, x)| - 1] == ts[|ts| - 1] > x
  {
    if ts != [] {
      var front, t := ts[..|ts| - 1], ts[|ts| - 1];
      assert front + [t] == ts;
      SortedFront(front, t);
      OneInOrder(front, t);
      LateInOrder(front, x);
      var late := Late(front, x);
      LateSnoc(front, t, x);
      hide Sorted, Positive, Late;
      if late != [] {
        SortedSnoc(late, t);
      } else {
        assert late + [t] == [t];
      }
    }
  }

  /** From `i` to `j` naive counting of the logins after `x` stays below the threshold. */
  ghost predicate BelowAgain(states: seq<State>, c: Config, i: nat, j: nat, ip: string, x: real)
    requires i <= j < |states|
  {
    forall k | i <= k <= j :: Late(Since(states[i], states[k], ip), x) != [] ==>
      NaiveCount(Late(Since(states[i], states[k], ip), x), c) < c.attempts
  }

  /** The entry of an ip reported at `r`, after logins of which `late` came when its pause was over. */
  function CountingAgain(r: real, late: seq<real>, c: Config): Entry {
    if late == [] then Reported(r) else Counted(late, c).0
  }

  /** One more login of an ip that was reported at `r`. */
  lemma CountedAgainStep(r: real, late: seq<real>, t: real, c: Config)
    requires Sorted(late + [t]) && Positive(late + [t]) && c.attempts >= 2 && c.window >= 0.0
    requires late != [] ==> NaiveCount(late, c) < c.attempts && t > r + c.rereportAfter
    ensures Observe(Some(CountingAgain(r, late, c)), t, c) ==
              if t > r + c.rereportAfter then Counted(late + [t], c) else (Reported(r), false)
  {
    if late != [] {
      assert [] + late == late && [] + late + [t] == late + [t];
      hide Observe, Counted;
      CountedStep([], late, t, c);
    } else if t > r + c.rereportAfter {
      assert [] + [t] == [t];
      FirstLogin(t, c);
    }
  }

  /** In every run, from any state in which the ip is reported, and as long as no clean-up comes: logins before the
      pause is over change nothing, and from the first one after it on, the entry is what naive counting makes of the
      logins since. Nothing is reported below the threshold. */
  lemma {:induction false} CountedAgainInRuns(states: seq<State>, events: seq<Event>, c: Config, i: nat, j: nat, ip: string, r: real)
    requires IsRun(states, events, c) && i <= j <= |events| && c.attempts >= 2 && c.window >= 0.0
    requires InBook(states[i], ip, r) && NoCleanUp(states, events, i, j)
    requires BelowAgain(states, c, i, j, ip, r + c.rereportAfter)
    ensures LoginsOf(states[i], ip) <= LoginsOf(states[j], ip)
    ensures Lookup(states[j].core.book, ip) ==
              Some(CountingAgain(r, Late(Since(states[i], states[j], ip), r + c.rereportAfter), c))
    ensures Unreported(states[i], states[j], ip)
    decreases j
  {
    hide Step, CountingAgain, Enabled, NaiveCount, ThresholdInv;
    if i == j {
      NothingSince(states[i], ip, r, c);
    } else {
      var k := j - 1;
      CountedAgainInRuns(states, events, c, i, k, ip, r);
      var s, e, t := states[k], events[k], states[k + 1];
      SinceNext(states[i], s, t, ip);
      hide Since, LoginsOf, Late;
      if Observes(s, e, ip) {
        LoginCountedAgain(states, events, c, i, k, ip, r, e.t);
        NotReachedYet(r, Late(Since(states[i], t, ip), r + c.rereportAfter), c);
        MoreUnreported(states[i], s, t, ip);
      } else {
        OtherStep(s, e, c, ip);
        OtherReports(s, e, c, ip);
        MoreUnreported(states[i], s, t, ip);
      }
    }
  }

  lemma NothingSince(s: State, ip: string, r: real, c: Config)
    requires InBook(s, ip, r)
    ensures Lookup(s.core.book, ip) == Some(CountingAgain(r, Late(Since(s, s, ip), r + c.rereportAfter), c))
  {
  }

  lemma NotReachedYet(r: real, late: seq<real>, c: Config)
    ensures late != [] ==> CountingAgain(r, late, c) == Counted(late, c).0
  {
  }

  /** What one more login does at state `k`: before the pause is over nothing, afterwards it is counted. */
  lemma LoginCountedAgain(states: seq<State>, events: seq<Event>, c: Config, i: nat, k: nat, ip: string, r: real, time: real)
    requires IsRun(states, events, c) && i <= k < |events| && c.attempts >= 2 && c.window >= 0.0
    requires events[k] == Login(ip, time) && !states[k].core.sleeping && LoginsOf(states[i], ip) <= LoginsOf(states[k], ip)
    requires var late := Late(Since(states[i], states[k], ip), r + c.rereportAfter);
             && Lookup(states[k].core.book, ip) == Some(CountingAgain(r, late, c))
             && (late != [] ==> NaiveCount(late, c) < c.attempts)
    ensures var s, t, x := states[k], states[k + 1], r + c.rereportAfter;
            var late, late' := Late(Since(states[i], s, ip), x), Late(Since(states[i], t, ip), x);
            && LoginsOf(t, ip) == LoginsOf(s, ip) + [time] && late' == (if time > x then late + [time] else late)
            && (time <= x ==> late == [])
            && Lookup(t.core.book, ip) == Some(CountingAgain(r, late', c))
            && t.reports == if time > x && late' != [] && NaiveCount(late', c) >= c.attempts
                            then s.reports + [Report(ip, time, |LoginsOf(t, ip)|)] else s.reports
  {
    var s, t := states[k], states[k + 1];
    RunStep(states, events, c, k);
    OwnLogin(s, ip, time, c);
    SinceNext(states[i], s, t, ip);
    ThresholdAlways(states, events, c, k + 1);
    NewsInOrder(states[i], t, ip, c);
    hide *;
    ObservedAgain(r, Since(states[i], s, ip), time, c);
  }

  /** The same, for the logins `news` since the report. */
  lemma ObservedAgain(r: real, news: seq<real>, time: real, c: Config)
    requires Sorted(news + [time]) && Positive(news + [time]) && c.attempts >= 2 && c.window >= 0.0
    requires var late := Late(news, r + c.rereportAfter); late != [] ==> NaiveCount(late, c) < c.attempts
    ensures var x := r + c.rereportAfter;
            var late, late' := Late(news, x), Late(news + [time], x);
            var (e, fired) := Observe(Some(CountingAgain(r, late, c)), time, c);
            && late' == (if time > x then late + [time] else late) && (time <= x ==> late == [])
            && e == CountingAgain(r, late', c) && (fired <==> time > x && late' != [] && NaiveCount(late', c) >= c.attempts)
  {
    var x := r + c.rereportAfter;
    LateNext(news, time, x);
    hide Late, Sorted, Positive, Observe, NaiveCount, CountingAgain, Counted;
    var late := Late(news, x);
    CountedAgainStep(r, late, time, c);
    CountedIs(late, time, c);
    if time > x {
      NotReachedYet(r, late + [time], c);
    } else {
      NothingLate(r, c);
    }
  }

  lemma NothingLate(r: real, c: Config)
    ensures CountingAgain(r, [], c) == Reported(r)
  {
  }

  lemma CountedIs(ts: seq<real>, t: real, c: Config)
    ensures Counted(ts + [t], c).1 <==> NaiveCount(ts + [t], c) >= c.attempts
  {
  }

  /** The late ones of times in order, before and after one more. */
  lemma LateNext(ts: seq<real>, t: real, x: real)
    requires Sorted(ts + [t]) && Positive(ts + [t])
    ensures var late := Late(ts, x);
            && Sorted(late + [t]) && Positive(late + [t]) && (late != [] ==> t > x)
            && Late(ts + [t], x) == if t > x then late + [t] else late
  {
    hide Late;
    SortedFront(ts, t);
    LateInOrder(ts, x);
    LateInOrder(ts + [t], x);
    LateSnoc(ts, t, x);
    var late := Late(ts, x);
    if late != [] {
      SortedSnoc(late, t);
    } else {
      assert (ts + [t])[|ts|] == t;
    }
  }

  lemma NewsInOrder(s: State, t: State, ip: string, c: Config)
    requires ThresholdInv(t, c) && LoginsOf(s, ip) <= LoginsOf(t, ip)
    ensures Sorted(Since(s, t, ip)) && Positive(Since(s, t, ip))
  {
    assert HistoryOk(t, ip);
    var before, after := LoginsOf(s, ip), LoginsOf(t, ip);
    assert IsSuffix(after[|before|..], after);
    SuffixInOrder(after[|before|..], after);
  }

  /** So the next report comes exactly with the login that makes the count of those after the pause reach the
      threshold, and none comes before. */
  lemma ReportAgainIffCountReaches(states: seq<State>, events: seq<Event>, c: Config, i: nat, j: nat, ip: string, r: real, time: real)
    requires IsRun(states, events, c) && i <= j < |events| && c.attempts >= 2 && c.window >= 0.0
    requires InBook(states[i], ip, r) && NoCleanUp(states, events, i, j)
    requires BelowAgain(states, c, i, j, ip, r + c.rereportAfter)
    requires events[j] == Login(ip, time) && !states[j].core.sleeping
    ensures Unreported(states[i], states[j], ip)
    ensures var late := Late(Since(states[i], states[j + 1], ip), r + c.rereportAfter);
            |states[j + 1].reports| > |states[j].reports| <==>
              time > r + c.rereportAfter && late != [] && NaiveCount(late, c) >= c.attempts
  {
    RunStep(states, events, c, j);
    hide IsRun, NoCleanUp, NaiveCount, Since, LoginsOf, Unreported, Late, InBook;
    CountedAgainInRuns(states, events, c, i, j, ip, r);
    LoginCountedAgain(states, events, c, i, j, ip, r, time);
  }

  /** Where one attempt is enough: in every run an awake login is reported exactly if its ip is not in the book, or
      its pause is over; otherwise the book stays as it is. */
  lemma IntolerantReportsIff(states: seq<State>, events: seq<Event>, c: Config, j: nat, ip: string, time: real)
    requires IsRun(states, events, c) && j < |events| && c.attempts <= 1 && c.window >= 0.0
    requires events[j] == Login(ip, time) && !states[j].core.sleeping
    ensures var s, t := states[j], states[j + 1];
            && (ip in s.core.book ==> s.core.book[ip].Reported?)
            && (|t.reports| > |s.reports| <==> ip !in s.core.book || time > s.core.book[ip].t + c.rereportAfter)
            && if |t.reports| > |s.reports| then InBook(t, ip, time) && t.reports == s.reports + [Report(ip, time, |LoginsOf(t, ip)|)]
               else t.core.book == s.core.book && t.reports == s.reports
  {
    RunStep(states, events, c, j);
    ThresholdAlways(states, events, c, j);
    var s := states[j];
    if ip in s.core.book {
      assert EntryOk(s.core.book[ip], LoginsOf(s, ip), c);
    }
  }

  // ---------------------------------------------------------------- what is always scheduled

  /** Awake, a clean-up is scheduled that is due within 600 seconds; asleep, a wake-up call is for the time slept to. */
  ghost predicate GoesOn(s: State) {
    if s.core.sleeping then s.core.sleepUntil in s.core.alarms
    else exists d :: d in s.core.ticks && d <= s.now + 600.0
  }

  /** In every state of every run: the plugin never falls asleep for good, and never stops cleaning up. */
  lemma {:induction false} AlwaysGoesOn(states: seq<State>, events: seq<Event>, c: Config, i: nat)
    requires IsRun(states, events, c) && i <= |events|
    ensures GoesOn(states[i])
  {
    if i == 0 {
      assert states[0].now + 600.0 in states[0].core.ticks;
    } else {
      AlwaysGoesOn(states, events, c, i - 1);
      RunStep(states, events, c, i - 1);
      hide IsRun;
      GoesOnStep(states[i - 1], events[i - 1], c);
    }
  }

  lemma GoesOnStep(s: State, e: Event, c: Config)
    requires GoesOn(s) && Enabled(s, e)
    ensures GoesOn(Step(s, e, c))
  {
    hide CleanUp, LoginStep, TickStep, RateLimitStep;
    match e {
      case Tick(t, due) =>
        TickEffect(s.core, due, t, c);
      case Wake(t, alarm) =>
        assert t + CLEAN_DUMP_SCHED in Step(s, e, c).core.ticks;
      case RateLimit(t, retry) =>
        RateLimitEffect(s.core, t, retry, c);
      case Answered(_) =>
      case Login(ip, t) =>
        LoginEffect(s.core, ip, t, c);
    }
  }

  // ---------------------------------------------------------------- the pause between reports

  /** The plugin will not look at a login up to and including time `x`. */
  ghost predicate Clear(s: State, x: real) {
    s.now > x || (s.core.sleeping && forall a | a in s.core.alarms :: a > x)
  }

  /** A report is remembered until the ip may be reported again. */
  ghost predicate Safe(s: State, c: Config) {
    forall ip | ip in s.last :: InBook(s, ip, s.last[ip]) || Clear(s, s.last[ip] + c.rereportAfter)
  }

  /** What the book says of reports is true, and no report lies ahead. */
  ghost predicate Told(s: State) {
    && (forall ip | ip in s.core.book && s.core.book[ip].Reported? :: ip in s.last && s.last[ip] == s.core.book[ip].t)
    && (forall ip | ip in s.last :: 0.0 < s.last[ip] <= s.now)
  }

  lemma FiredNow(e: Option<Entry>, t: real, c: Config)
    requires Observe(e, t, c).1
    ensures Observe(e, t, c).0 == Reported(t)
  {
    if c.attempts >= 2 {
      LastOfClean(Append(e.value.ts, t, c.attempts), t - c.window);
    }
  }

  lemma {:induction false} LastOfClean(ts: seq<real>, cutoff: real)
    ensures var r := Clean(ts, cutoff); r != [] ==> ts != [] && r[|r| - 1] == ts[|ts| - 1]
  {
    if ts != [] {
      LastOfClean(ts[1..], cutoff);
    }
  }

  lemma CleanUpForgetsOld(b: Book, at: real, c: Config, ip: string, r: real)
    requires ip in b && b[ip] == Reported(r)
    ensures ip in CleanUp(b, at, c) <==> at <= r + c.rereportAfter
    ensures ip in CleanUp(b, at, c) ==> CleanUp(b, at, c)[ip] == Reported(r)
  {
  }

  /** A clean-up brings no report into the book that was not there. */
  lemma CleanUpInvents(b: Book, at: real, c: Config, ip: string)
    requires ip in CleanUp(b, at, c) && CleanUp(b, at, c)[ip].Reported?
    ensures ip in b && b[ip] == CleanUp(b, at, c)[ip]
  {
  }

  /** After any step but a login: what has become of a report in the book. */
  lemma BookAfter(s: State, e: Event, c: Config, ip: string, r: real)
    requires Enabled(s, e) && !e.Login?
    ensures var t := Step(s, e, c);
            && (InBook(t, ip, r) <==> InBook(s, ip, r) && (CleanedAt(s, e).Some? ==> CleanedAt(s, e).value <= r + c.rereportAfter))
            && t.last == s.last && t.reports == s.reports && t.now == e.t
  {
    BookCleaned(s, e, c);
    hide CleanUp, Step, CleanedAt;
    var at := CleanedAt(s, e);
    if at.Some? {
      var b := s.core.book;
      if InBook(s, ip, r) {
        CleanUpForgetsOld(b, at.value, c, ip, r);
      }
      if ip in CleanUp(b, at.value, c) && CleanUp(b, at.value, c)[ip].Reported? {
        CleanUpInvents(b, at.value, c, ip);
      }
    }
  }

  lemma ToldStep(s: State, e: Event, c: Config)
    requires Told(s) && Enabled(s, e)
    ensures Told(Step(s, e, c))
  {
    hide CleanUp;
    var t := Step(s, e, c);
    if e.Login? {
      ToldLogin(s, e.ip, e.t, c);
    } else {
      forall ip | ip in t.core.book && t.core.book[ip].Reported? ensures ip in t.last && t.last[ip] == t.core.book[ip].t {
        BookAfter(s, e, c, ip, t.core.book[ip].t);
        assert InBook(t, ip, t.core.book[ip].t);
      }
      BookAfter(s, e, c, "", 0.0);
    }
  }

  lemma ToldLogin(s: State, ip: string, time: real, c: Config)
    requires Told(s) && Enabled(s, Login(ip, time))
    ensures Told(Step(s, Login(ip, time), c))
  {
    if !s.core.sleeping {
      var (e, fired) := Observe(Lookup(s.core.book, ip), time, c);
      if fired {
        FiredNow(Lookup(s.core.book, ip), time, c);
      } else {
        NotFired(Lookup(s.core.book, ip), time, c);
      }
      hide Observe;
      assert Step(s, Login(ip, time), c).core.book == s.core.book[ip := e];
    }
  }

  lemma NotFired(e: Option<Entry>, t: real, c: Config)
    requires !Observe(e, t, c).1
    ensures Observe(e, t, c).0.Times? || e == Some(Observe(e, t, c).0)
  {
  }

  // ---------------------------------------------------------------- which steps are safe

  /** A report of this ip at `t` would come too early. */
  ghost predicate Early(s: State, ip: string, t: real, c: Config) {
    ip in s.last && t <= s.last[ip] + c.rereportAfter
  }

  /** An awake login is reported only if that is not too early, and what is reported is remembered. */
  lemma LoginIsSafe(s: State, ip: string, time: real, c: Config)
    requires Safe(s, c) && Told(s) && Enabled(s, Login(ip, time))
    ensures Safe(Step(s, Login(ip, time), c), c)
    ensures !s.core.sleeping && Observe(Lookup(s.core.book, ip), time, c).1 ==> !Early(s, ip, time, c)
  {
    var t := Step(s, Login(ip, time), c);
    var (e, fired) := Observe(Lookup(s.core.book, ip), time, c);
    if s.core.sleeping {
      forall other | other in t.last ensures InBook(t, other, t.last[other]) || Clear(t, t.last[other] + c.rereportAfter) {
        assert InBook(s, other, s.last[other]) || Clear(s, s.last[other] + c.rereportAfter);
      }
    } else {
      if fired {
        FiredNow(Lookup(s.core.book, ip), time, c);
      }
      LoginOfReported(s, ip, time, c);
      hide Observe;
      assert t.core.book == s.core.book[ip := e];
      forall other | other in t.last ensures InBook(t, other, t.last[other]) || Clear(t, t.last[other] + c.rereportAfter) {
        if other != ip {
          assert InBook(s, other, s.last[other]) || Clear(s, s.last[other] + c.rereportAfter);
        }
      }
    }
  }

  /** What an awake login makes of an ip that was reported before. */
  lemma LoginOfReported(s: State, ip: string, time: real, c: Config)
    requires Safe(s, c) && Enabled(s, Login(ip, time)) && !s.core.sleeping
    ensures ip in s.last ==>
              var (e, fired) := Observe(Lookup(s.core.book, ip), time, c);
              time > s.last[ip] + c.rereportAfter || (e == Reported(s.last[ip]) && !fired)
  {
    if ip in s.last {
      assert InBook(s, ip, s.last[ip]) || Clear(s, s.last[ip] + c.rereportAfter);
    }
  }

  /** What makes a step safe. A 429 answer: every ip whose report some wake-up call, old or new, could come too early
      for is in the book, and stays there: no clean-up is made, or not for a time when the report has expired. A
      clean-up while asleep: it does not forget such a report either. Any other step is. */
  ghost predicate KeepsSafe(s: State, e: Event, c: Config) {
    forall ip | ip in s.last :: KeepsSafeFor(s, e, ip, s.last[ip] + c.rereportAfter)
  }

  /** The same for the ip that may be reported again after time `x`. */
  ghost predicate KeepsSafeFor(s: State, e: Event, ip: string, x: real)
    requires ip in s.last
  {
    match e
    case RateLimit(t, retry) =>
      t <= x && WakesBy(s.core.alarms + multiset{t + retry}, x) ==>
        InBook(s, ip, s.last[ip]) && (s.core.recall.Spent? || t + retry <= x)
    case Tick(t, _) => s.core.sleeping && t <= x && WakesBy(s.core.alarms, x) ==> s.core.sleepUntil <= x
    case _ => true
  }

  ghost predicate WakesBy(alarms: multiset<real>, x: real) {
    exists a :: a in alarms && a <= x
  }

  /** After a step but a login: when no login can come up to time `x`. */
  lemma ClearAfter(s: State, e: Event, c: Config, x: real)
    requires Enabled(s, e) && !e.Login?
    ensures Clear(Step(s, e, c), x) <==>
            || e.t > x
            || (e.RateLimit? && !WakesBy(s.core.alarms + multiset{e.t + e.retry}, x))
            || (!e.RateLimit? && !e.Wake? && s.core.sleeping && !WakesBy(s.core.alarms, x))
  {
    hide CleanUp, TickStep, RateLimitStep;
    match e
    case Tick(t, due) => TickEffect(s.core, due, t, c);
    case RateLimit(t, retry) => RateLimitEffect(s.core, t, retry, c);
    case _ =>
  }

  lemma SafeForOne(s: State, e: Event, c: Config, ip: string)
    requires Safe(s, c) && Enabled(s, e) && !e.Login? && ip in s.last
    ensures var t := Step(s, e, c);
            var x := s.last[ip] + c.rereportAfter;
            InBook(t, ip, s.last[ip]) || Clear(t, x) <==> KeepsSafeFor(s, e, ip, x)
  {
    hide Step, InBook, Safe, Clear, WakesBy, Enabled, CleanUp, Observe;
    var x := s.last[ip] + c.rereportAfter;
    SafeNow(s, c, ip);
    AlarmComes(s, e, x);
    BookAfter(s, e, c, ip, s.last[ip]);
    ClearAfter(s, e, c, x);
  }

  lemma SafeNow(s: State, c: Config, ip: string)
    requires Safe(s, c) && ip in s.last
    ensures var x := s.last[ip] + c.rereportAfter;
            InBook(s, ip, s.last[ip]) || s.now > x || (s.core.sleeping && !WakesBy(s.core.alarms, x))
  {
    hide InBook;
    assert InBook(s, ip, s.last[ip]) || Clear(s, s.last[ip] + c.rereportAfter);
  }

  /** What has to be true of the wake-up calls when a step happens. */
  lemma AlarmComes(s: State, e: Event, x: real)
    requires Enabled(s, e)
    ensures s.now <= e.t
    ensures e.Wake? && e.t <= x ==> WakesBy(s.core.alarms, x)
    ensures e.RateLimit? && WakesBy(s.core.alarms, x) ==> WakesBy(s.core.alarms + multiset{e.t + e.retry}, x)
  {
    if a :| a in s.core.alarms && a <= x {
      assert e.RateLimit? ==> a in s.core.alarms + multiset{e.t + e.retry};
    }
  }

  /** Exactly which steps keep every report remembered for as long as it matters. */
  lemma StepSafeIff(s: State, e: Event, c: Config)
    requires Safe(s, c) && Told(s) && Enabled(s, e)
    ensures Safe(Step(s, e, c), c) <==> KeepsSafe(s, e, c)
  {
    hide Step, Observe, Told;
    if e.Login? {
      LoginIsSafe(s, e.ip, e.t, c);
    } else {
      hide InBook, Clear, KeepsSafeFor;
      var t := Step(s, e, c);
      BookAfter(s, e, c, "", 0.0);
      forall ip | ip in s.last
        ensures InBook(t, ip, s.last[ip]) || Clear(t, s.last[ip] + c.rereportAfter) <==>
                KeepsSafeFor(s, e, ip, s.last[ip] + c.rereportAfter)
      {
        SafeForOne(s, e, c, ip);
      }
    }
  }

  // ---------------------------------------------------------------- runs

  /** Reports of an ip are more than `rereport_after` apart, and `last` is not before any of them. */
  ghost predicate Spaced(s: State, c: Config) {
    && (forall i | 0 <= i < |s.reports| :: s.reports[i].ip in s.last && s.reports[i].t <= s.last[s.reports[i].ip])
    && (forall i, j | 0 <= i < j < |s.reports| && s.reports[i].ip == s.reports[j].ip ::
          s.reports[j].t > s.reports[i].t + c.rereportAfter)
  }

  lemma SpacedStep(s: State, e: Event, c: Config)
    requires Spaced(s, c) && Safe(s, c) && Told(s) && Enabled(s, e) && c.rereportAfter >= REREPORT_MINIMUM
    ensures Spaced(Step(s, e, c), c)
  {
    if e.Login? {
      LoginIsSafe(s, e.ip, e.t, c);
      hide Observe, Safe, Told, CleanUp;
    } else {
      BookAfter(s, e, c, "", 0.0);
    }
  }

  lemma {:induction false} SafeRun(states: seq<State>, events: seq<Event>, c: Config, i: nat)
    requires IsRun(states, events, c) && i <= |events| && c.rereportAfter >= REREPORT_MINIMUM
    requires forall n | 0 <= n < i :: KeepsSafe(states[n], events[n], c)
    ensures Safe(states[i], c) && Told(states[i]) && Spaced(states[i], c)
  {
    hide KeepsSafe, Step;
    if i > 0 {
      SafeRun(states, events, c, i - 1);
      StepSafeIff(states[i - 1], events[i - 1], c);
      ToldStep(states[i - 1], events[i - 1], c);
      SpacedStep(states[i - 1], events[i - 1], c);
    }
  }

  /** In every run of safe steps, any two reports of an ip are more than `rereport_after` apart. */
  lemma ReportsAreSpaced(states: seq<State>, events: seq<Event>, c: Config, i: nat, j: nat, k: nat)
    requires IsRun(states, events, c) && c.rereportAfter >= REREPORT_MINIMUM && i <= |events|
    requires forall n | 0 <= n < i :: KeepsSafe(states[n], events[n], c)
    requires j < k < |states[i].reports| && states[i].reports[j].ip == states[i].reports[k].ip
    ensures states[i].reports[k].t > states[i].reports[j].t + c.rereportAfter
  {
    SafeRun(states, events, c, i);
  }

  /** Asleep until the one wake-up call that is scheduled, or awake with none. */
  ghost predicate OneSleep(s: State) {
    s.core.alarms == if s.core.sleeping then multiset{s.core.sleepUntil} else multiset{}
  }

  lemma OneSleepStep(s: State, e: Event, c: Config)
    requires OneSleep(s) && Safe(s, c) && Enabled(s, e) && (e.RateLimit? ==> !s.core.sleeping)
    ensures OneSleep(Step(s, e, c)) && KeepsSafe(s, e, c)
  {
    hide Step, Safe, Observe, CleanUp;
    OneSleepStays(s, e, c);
    forall ip | ip in s.last ensures KeepsSafeFor(s, e, ip, s.last[ip] + c.rereportAfter) {
      OneSleepIsSafeFor(s, e, c, ip);
    }
  }

  lemma OneSleepStays(s: State, e: Event, c: Config)
    requires OneSleep(s) && Enabled(s, e) && (e.RateLimit? ==> !s.core.sleeping)
    ensures OneSleep(Step(s, e, c))
  {
    hide CleanUp, LoginStep, TickStep, RateLimitStep;
    match e
    case Wake(_, alarm) =>
      assert s.core.alarms - multiset{alarm} == multiset{};
    case RateLimit(t, retry) =>
      RateLimitEffect(s.core, t, retry, c);
      assert s.core.alarms + multiset{t + retry} == multiset{t + retry};
    case Tick(t, due) =>
      TickEffect(s.core, due, t, c);
    case Answered(_) =>
    case Login(ip, t) =>
      LoginEffect(s.core, ip, t, c);
  }

  /** Awake, a report still needed is in the book; asleep, the wake-up call is the one clean-ups judge by. */
  lemma OneSleepIsSafeFor(s: State, e: Event, c: Config, ip: string)
    requires OneSleep(s) && Safe(s, c) && Enabled(s, e) && (e.RateLimit? ==> !s.core.sleeping) && ip in s.last
    ensures KeepsSafeFor(s, e, ip, s.last[ip] + c.rereportAfter)
  {
    hide CleanUp, Observe;
    assert InBook(s, ip, s.last[ip]) || Clear(s, s.last[ip] + c.rereportAfter);
  }

  /** So if no 429 answer comes while the plugin is asleep, reports are always spaced. */
  lemma {:induction false} OneSleepAtATimeIsSafe(states: seq<State>, events: seq<Event>, c: Config, i: nat)
    requires IsRun(states, events, c) && i <= |events| && c.rereportAfter >= REREPORT_MINIMUM
    requires forall n | 0 <= n < |events| && events[n].RateLimit? :: !states[n].core.sleeping
    ensures Safe(states[i], c) && Spaced(states[i], c) && OneSleep(states[i])
    ensures forall n | 0 <= n < i :: KeepsSafe(states[n], events[n], c)
  {
    if i > 0 {
      OneSleepAtATimeIsSafe(states, events, c, i - 1);
      OneSleepStep(states[i - 1], events[i - 1], c);
      hide KeepsSafe, Step, OneSleep;
      SafeRun(states, events, c, i);
    }
  }

  // ---------------------------------------------------------------- exactly when it fails

  /** These events can come one after the other. */
  ghost predicate CanRun(s: State, es: seq<Event>, c: Config)
    decreases |es|
  {
    es == [] || (Enabled(s, es[0]) && CanRun(Step(s, es[0], c), es[1..], c))
  }

  ghost function After(s: State, es: seq<Event>, c: Config): State
    requires CanRun(s, es, c)
    decreases |es|
  {
    if es == [] then s else After(Step(s, es[0], c), es[1..], c)
  }

  ghost predicate WakesAndLogins(es: seq<Event>) {
    forall i | 0 <= i < |es| :: es[i].Wake? || es[i].Login?
  }

  /** In the course of these events an ip is reported too early after its latest report before them. */
  ghost predicate TooEarly(s: State, es: seq<Event>, c: Config)
    requires CanRun(s, es, c)
  {
    exists k :: |s.reports| <= k < |After(s, es, c).reports| && Early(s, After(s, es, c).reports[k].ip, After(s, es, c).reports[k].t, c)
  }

  /** `t` comes later than `s`, and no report since is too early for it. */
  ghost predicate NoneEarly(s: State, t: State, c: Config) {
    && (forall ip | ip in s.last :: ip in t.last && s.last[ip] <= t.last[ip])
    && (forall k | |s.reports| <= k < |t.reports| :: !Early(s, t.reports[k].ip, t.reports[k].t, c))
  }

  lemma NoneEarlyStep(s: State, t: State, e: Event, c: Config)
    requires NoneEarly(s, t, c) && Safe(t, c) && Told(t) && Enabled(t, e) && |s.reports| <= |t.reports|
    ensures NoneEarly(s, Step(t, e, c), c) && |t.reports| <= |Step(t, e, c).reports|
  {
    if e.Login? {
      LoginIsSafe(t, e.ip, e.t, c);
      hide Observe, Safe;
    } else {
      BookAfter(t, e, c, "", 0.0);
    }
  }

  lemma {:induction false} SafeExtension(s: State, t: State, es: seq<Event>, c: Config)
    requires NoneEarly(s, t, c) && Safe(t, c) && Told(t) && |s.reports| <= |t.reports|
    requires WakesAndLogins(es) && CanRun(t, es, c)
    ensures NoneEarly(s, After(t, es, c), c)
    decreases |es|
  {
    hide NoneEarly, Safe, Told, Step, Enabled;
    if es != [] {
      assert es[0].Wake? || es[0].Login?;
      OthersAreSafe(t, es[0], c);
      StepSafeIff(t, es[0], c);
      ToldStep(t, es[0], c);
      NoneEarlyStep(s, t, es[0], c);
      assert forall i | 0 <= i < |es[1..]| :: es[1..][i] == es[i + 1];
      SafeExtension(s, Step(t, es[0], c), es[1..], c);
    }
  }

  lemma OthersAreSafe(s: State, e: Event, c: Config)
    requires e.Wake? || e.Login?
    ensures KeepsSafe(s, e, c)
  {
  }

  /** The entry ends with at least `j` logins at time `t`. */
  ghost predicate Pressed(e: Option<Entry>, t: real, j: nat) {
    if j == 0 then e.Some? ==> e.value.Times?
    else e.Some? && e.value.Times? && j <= |e.value.ts| && forall i | |e.value.ts| - j <= i < |e.value.ts| :: e.value.ts[i] == t
  }

  lemma {:induction false} CleanKeepsTail(ts: seq<real>, cutoff: real, t: real, j: nat)
    requires j <= |ts| && (forall i | |ts| - j <= i < |ts| :: ts[i] == t) && t >= cutoff
    ensures var r := Clean(ts, cutoff); j <= |r| && forall i | |r| - j <= i < |r| :: r[i] == t
  {
    if ts != [] && ts[0] != 0.0 && ts[0] < cutoff {
      assert j < |ts|;
      CleanKeepsTail(ts[1..], cutoff, t, j);
    }
  }

  /** One more login at time `t`: it is reported, or the entry ends with one more of them and still has room. */
  lemma PressOnce(s: State, ip: string, t: real, c: Config, j: nat)
    requires ThresholdInv(s, c) && !s.core.sleeping && Enabled(s, Login(ip, t)) && c.window >= 0.0
    requires Pressed(Lookup(s.core.book, ip), t, j)
    ensures var (e, fired) := Observe(Lookup(s.core.book, ip), t, c);
            fired || (Pressed(Some(e), t, j + 1) && j + 1 < c.attempts)
  {
    var e0 := Lookup(s.core.book, ip);
    if e0.Some? {
      assert EntryOk(e0.value, LoginsOf(s, ip), c);
      assert HistoryOk(s, ip);
      var ts := e0.value.ts;
      assert ts[0] in LoginsOf(s, ip);
      CleanKeepsTail(ts + [t], t - c.window, t, j + 1);
    }
  }

  /** Logins that go on at time `t` are reported at last. */
  lemma {:induction false} PressOn(s: State, ip: string, t: real, c: Config, j: nat) returns (es: seq<Event>)
    requires ThresholdInv(s, c) && !s.core.sleeping && Enabled(s, Login(ip, t)) && c.window >= 0.0
    requires Pressed(Lookup(s.core.book, ip), t, j) && (j > 0 ==> j < c.attempts)
    ensures CanRun(s, es, c) && WakesAndLogins(es)
    ensures var r := After(s, es, c).reports; |s.reports| < |r| && r[|s.reports|].ip == ip && r[|s.reports|].t == t
    decreases if j > 0 then c.attempts - j else if c.attempts > 0 then c.attempts else 0
  {
    var e := Login(ip, t);
    var next := Step(s, e, c);
    PressOnce(s, ip, t, c, j);
    LoginKeepsThreshold(s, ip, t, c);
    if Observe(Lookup(s.core.book, ip), t, c).1 {
      es := [e];
      assert es[1..] == [];
      assert After(s, es, c) == next;
    } else {
      assert Lookup(next.core.book, ip) == Some(Observe(Lookup(s.core.book, ip), t, c).0);
      hide Observe, Pressed, ThresholdInv;
      var rest := PressOn(next, ip, t, c, j + 1);
      es := [e] + rest;
      assert es[1..] == rest;
      assert After(s, es, c) == After(next, rest, c);
    }
  }

  /** A state that is not safe can go on to a report that is too early. */
  lemma UnsafeGoesWrong(s: State, c: Config) returns (es: seq<Event>)
    requires ThresholdInv(s, c) && Told(s) && c.window >= 0.0 && !Safe(s, c)
    ensures WakesAndLogins(es) && CanRun(s, es, c) && TooEarly(s, es, c)
  {
    var ip :| ip in s.last && !InBook(s, ip, s.last[ip]) && !Clear(s, s.last[ip] + c.rereportAfter);
    var x := s.last[ip] + c.rereportAfter;
    NotReported(s, ip);
    if !s.core.sleeping {
      hide ThresholdInv, Observe;
      es := PressOn(s, ip, s.now, c, 0);
      Witness(s, es, c, ip);
    } else {
      var a :| a in s.core.alarms && a <= x;
      hide ThresholdInv, Told, Pressed, Observe, Safe;
      es := WakeAndPressOn(s, ip, a, c);
      Witness(s, es, c, ip);
    }
  }

  /** The wake-up call comes, and logins follow until they are reported. */
  lemma WakeAndPressOn(s: State, ip: string, a: real, c: Config) returns (es: seq<Event>)
    requires ThresholdInv(s, c) && Told(s) && c.window >= 0.0 && ip in s.last
    requires a in s.core.alarms && Pressed(Lookup(s.core.book, ip), s.now, 0)
    ensures WakesAndLogins(es) && CanRun(s, es, c)
    ensures var r := After(s, es, c).reports;
            |s.reports| < |r| && r[|s.reports|].ip == ip && r[|s.reports|].t == if a > s.now then a else s.now
  {
    var t := if a > s.now then a else s.now;
    var w := Wake(t, a);
    assert t > 0.0;
    var awake := Step(s, w, c);
    ThresholdStep(s, w, c);
    hide ThresholdInv, Told, Observe;
    var rest := PressOn(awake, ip, t, c, 0);
    es := [w] + rest;
    assert es[1..] == rest;
    assert After(s, es, c) == After(awake, rest, c);
  }

  lemma NotReported(s: State, ip: string)
    requires Told(s) && ip in s.last && !InBook(s, ip, s.last[ip])
    ensures Pressed(Lookup(s.core.book, ip), s.now, 0)
  {
  }

  lemma Witness(s: State, es: seq<Event>, c: Config, ip: string)
    requires CanRun(s, es, c)
    requires var r := After(s, es, c).reports; |s.reports| < |r| && r[|s.reports|].ip == ip && Early(s, ip, r[|s.reports|].t, c)
    ensures TooEarly(s, es, c)
  {
  }

  /** A state is safe exactly when nothing that can follow by way of wake-up calls and logins alone is a report
      that comes too early, however many logins a report takes. */
  lemma SafeIffNothingEarlyFollows(s: State, c: Config)
    requires ThresholdInv(s, c) && Told(s) && c.window >= 0.0
    ensures Safe(s, c) <==> forall es | WakesAndLogins(es) && CanRun(s, es, c) :: !TooEarly(s, es, c)
  {
    if Safe(s, c) {
      forall es | WakesAndLogins(es) && CanRun(s, es, c) ensures !TooEarly(s, es, c) {
        SafeExtension(s, s, es, c);
      }
    } else {
      var es := UnsafeGoesWrong(s, c);
    }
  }

  lemma {:induction false} ToldAlways(states: seq<State>, events: seq<Event>, c: Config, i: nat)
    requires IsRun(states, events, c) && i <= |events|
    ensures Told(states[i])
  {
    hide Told, Step;
    if i == 0 {
      NothingTold(states[0].now);
    } else {
      ToldAlways(states, events, c, i - 1);
      ToldStep(states[i - 1], events[i - 1], c);
    }
  }

  lemma NothingTold(t: real)
    ensures Told(Initial(t))
  {
  }

  /** For every configuration and run: if all steps up to `i` were safe, the next one is exactly if after it nothing
      that can follow by way of wake-up calls and logins is a report that comes too early. */
  lemma UnsafeStepIff(states: seq<State>, events: seq<Event>, c: Config, i: nat)
    requires IsRun(states, events, c) && i < |events| && c.rereportAfter >= REREPORT_MINIMUM && c.window >= 0.0
    requires forall n | 0 <= n < i :: KeepsSafe(states[n], events[n], c)
    ensures KeepsSafe(states[i], events[i], c) <==>
            forall es | WakesAndLogins(es) && CanRun(states[i + 1], es, c) :: !TooEarly(states[i + 1], es, c)
  {
    SafeRun(states, events, c, i);
    ToldAlways(states, events, c, i + 1);
    ThresholdAlways(states, events, c, i + 1);
    hide KeepsSafe, Step, ThresholdInv, Told, Safe, CanRun, TooEarly, WakesAndLogins;
    StepSafeIff(states[i], events[i], c);
    SafeIffNothingEarlyFollows(states[i + 1], c);
  }

  const SHORT_PAUSE := Config(1, 7200.0, 2000.0)

  /** Two ips are reported, and the answer to the first asks for 5000 seconds. */
  const LONG_SLEEP := [Login("a", 10.0), Login("b", 10.0), RateLimit(11.0, 5000.0)]

  const ASLEEP := State(
    Core(map[], true, 5011.0, Spent, multiset{}, multiset{5011.0}), 11.0, 1, map["a" := 10.0, "b" := 10.0],
    map["a" := [10.0], "b" := [10.0]], [Report("a", 10.0, 1), Report("b", 10.0, 1)])

  /** The answer to the second comes then, and asks for 100 seconds. */
  const SHORT_SLEEP := [RateLimit(12.0, 100.0), Wake(112.0, 112.0), Login("a", 113.0)]

  lemma FallsAsleep()
    ensures CanRun(Initial(1.0), LONG_SLEEP, SHORT_PAUSE) && After(Initial(1.0), LONG_SLEEP, SHORT_PAUSE) == ASLEEP
  {
    var c, es := SHORT_PAUSE, LONG_SLEEP;
    var none: seq<real> := [];
    assert none + [10.0] == [10.0];
    var s1 := Step(Initial(1.0), es[0], c);
    assert s1.logins == map["a" := none + [10.0]];
    var s2 := Step(s1, es[1], c);
    assert s2.logins == map["a" := [10.0], "b" := none + [10.0]];
    assert s2.core.book == map["a" := Reported(10.0), "b" := Reported(10.0)];
    var s3 := Step(s2, es[2], c);
    assert s2.last == ASLEEP.last && s2.logins == ASLEEP.logins && s2.reports == ASLEEP.reports;
    assert s3.core.book == map[] && s3.core.ticks == multiset{} && s3.core.alarms == multiset{5011.0};
    assert s3.core == ASLEEP.core && s3.inFlight == 1 && s3.now == 11.0;
    assert es[1..] == [es[1], es[2]] && es[1..][1..] == [es[2]] && es[1..][1..][1..] == [];
  }

  lemma WakesTooEarly()
    ensures CanRun(ASLEEP, SHORT_SLEEP, SHORT_PAUSE)
    ensures After(ASLEEP, SHORT_SLEEP, SHORT_PAUSE).reports == ASLEEP.reports + [Report("a", 113.0, 2)]
  {
    var c, es := SHORT_PAUSE, SHORT_SLEEP;
    var s4 := Step(ASLEEP, es[0], c);
    assert s4.core.book == map[] && 112.0 in s4.core.alarms;
    var s5 := Step(s4, es[1], c);
    var s6 := Step(s5, es[2], c);
    assert s6.reports == ASLEEP.reports + [Report("a", 113.0, 2)];
    assert es[1..] == [es[1], es[2]] && es[1..][1..] == [es[2]] && es[1..][1..][1..] == [];
  }

  /** The program can be led there. Two ips are reported. The answer to the first puts the plugin to sleep for 5000
      seconds and cleans the book for the time of waking, when both reports will have expired. The answer to the
      second comes while asleep, asks for 100 seconds, and brings a wake-up call in the middle of the long sleep:
      the first ip is reported again after 103 seconds, although the pause is 2000. */
  lemma ShortSleepInsideALongOne()
    ensures CanRun(Initial(1.0), LONG_SLEEP, SHORT_PAUSE) && After(Initial(1.0), LONG_SLEEP, SHORT_PAUSE) == ASLEEP
    ensures CanRun(ASLEEP, SHORT_SLEEP, SHORT_PAUSE)
    ensures var r := After(ASLEEP, SHORT_SLEEP, SHORT_PAUSE).reports;
            r[0] == Report("a", 10.0, 1) && r[2] == Report("a", 113.0, 2) && r[2].t < r[0].t + SHORT_PAUSE.rereportAfter
  {
    FallsAsleep();
    WakesTooEarly();
  }
}
