/** `Output`, `LogBook` and `Reporter` of the AbuseIPDB plugin as objects edited in place. */
module AbuseIpdb {
  import opened Wrappers
  import opened LogBookModel

  /** The calls that are scheduled: clean-ups and waking up, by the time they are due. */
  class Reactor {
    var ticks: multiset<real>
    var alarms: multiset<real>

    constructor ()
      ensures ticks == multiset{} && alarms == multiset{}
    {
      ticks, alarms := multiset{}, multiset{};
    }
  }

  class LogBook {
    var entries: Book
    var sleeping: bool
    var sleepUntil: real
    var recall: Recall
    const config: Config
    const reactor: Reactor

    constructor (config: Config, reactor: Reactor)
      ensures Value() == Core(map[], false, 0.0, Absent, reactor.ticks, reactor.alarms)
      ensures this.config == config && this.reactor == reactor
    {
      entries, sleeping, sleepUntil, recall, this.config, this.reactor := map[], false, 0.0, Absent, config, reactor;
    }

    ghost function Value(): Core
      reads this, reactor
    {
      Core(entries, sleeping, sleepUntil, recall, reactor.ticks, reactor.alarms)
    }

    /** `callLater(CLEAN_DUMP_SCHED, cleanup_and_dump_state)` */
    method Recall(now: real)
      modifies this`recall, reactor`ticks
      ensures Value() == Reschedule(old(Value()), now)
    {
      recall := Pending(now + CLEAN_DUMP_SCHED);
      reactor.ticks := reactor.ticks + multiset{now + CLEAN_DUMP_SCHED};
    }

    /** `recall.cancel()`; false where that raises AlreadyCancelled or AlreadyCalled. A missing recall is caught. */
    method CancelRecall() returns (ok: bool)
      modifies this`recall, reactor`ticks
      ensures ok <==> !old(recall).Spent?
      ensures Value() == match old(recall)
                         case Pending(due) => old(Value()).(recall := Spent, ticks := old(reactor.ticks) - multiset{due})
                         case _ => old(Value())
    {
      match recall {
        case Absent => ok := true;
        case Spent => ok := false;
        case Pending(due) =>
          recall := Spent;
          reactor.ticks := reactor.ticks - multiset{due};
          ok := true;
      }
    }

    /** The call for `alarm`. */
    method Wakeup(alarm: real, now: real)
      modifies this`sleeping, this`sleepUntil, this`recall, reactor
      ensures Value() == WakeStep(old(Value()), alarm, now)
    {
      reactor.alarms := reactor.alarms - multiset{alarm};
      sleeping, sleepUntil := false, 0.0;
      Recall(now);
    }

    /** The scheduled clean-up that was due at `due`. */
    method Tick(due: real, now: real)
      modifies this`entries, this`recall, reactor`ticks
      ensures Value() == TickStep(old(Value()), due, now, config)
    {
      reactor.ticks := reactor.ticks - multiset{due};
      if recall == Pending(due) {
        recall := Spent;
      }
      var _ := CleanupAndDumpState(now, false);
    }

    /** Pops expired times from the left until one is recent enough or none is left. */
    method CleanExpiredTimestamps(ip: string, t: real)
      requires ip in entries
      modifies this`entries
      ensures entries == old(entries)[ip := Cleaned(old(entries[ip]), t, config)]
    {
      if entries[ip].Reported? {
        return;
      }
      while entries[ip].ts != [] && entries[ip].ts[0] != 0.0 && entries[ip].ts[0] < t - config.window
        invariant ip in entries && entries[ip].Times?
        invariant entries == old(entries)[ip := entries[ip]]
        invariant Clean(entries[ip].ts, t - config.window) == Clean(old(entries[ip].ts), t - config.window)
        decreases |entries[ip].ts|
      {
        entries := entries[ip := Times(entries[ip].ts[1..])];
      }
    }

    method DeleteEntries(deleteMe: set<string>)
      modifies this`entries
      ensures entries == old(entries) - deleteMe
    {
      var left := deleteMe;
      while left != {}
        invariant left <= deleteMe && entries == old(entries) - (deleteMe - left)
      {
        var k :| k in left;
        entries := entries - {k};
        left := left - {k};
      }
    }

    method FindAndDeleteEmptyEntries()
      modifies this`entries
      ensures entries == map ip | ip in old(entries) && old(entries)[ip] != Times([]) :: old(entries)[ip]
    {
      var keys, deleteMe := entries.Keys, {};
      while keys != {}
        invariant keys <= entries.Keys && entries == old(entries)
        invariant deleteMe == set k | k in entries && k !in keys && entries[k] == Times([])
      {
        var k :| k in keys;
        if entries[k] == Times([]) {
          deleteMe := deleteMe + {k};
        }
        keys := keys - {k};
      }
      DeleteEntries(deleteMe);
    }

    /** `cleanup_and_dump_state`, without the dump; `stop` is its mode 1. False where cancelling raises. */
    method CleanupAndDumpState(now: real, stop: bool) returns (ok: bool)
      modifies this`entries, this`recall, reactor`ticks
      ensures if stop then (Value(), ok) == StopStep(old(Value()), now, config)
              else ok && Value() == LoopStep(old(Value()), now, config)
    {
      ok := true;
      if stop {
        ok := CancelRecall();
        if !ok {
          return;
        }
      }
      CleanEntries(if sleeping then sleepUntil else now);
      if !stop && !sleeping {
        Recall(now);
      }
    }

    method CleanEntries(t: real)
      modifies this`entries
      ensures entries == CleanUp(old(entries), t, config)
    {
      var keys, deleteMe := entries.Keys, {};
      while keys != {}
        invariant keys <= old(entries).Keys && entries.Keys == old(entries).Keys
        invariant forall k | k in entries ::
                    entries[k] == if k in keys then old(entries)[k] else Cleaned(old(entries)[k], t, config)
        invariant deleteMe == set k | k in old(entries) && k !in keys && CanRereport(old(entries)[k], t, config)
      {
        var k :| k in keys;
        if CanRereport(entries[k], t, config) {
          deleteMe := deleteMe + {k};
        }
        CleanExpiredTimestamps(k, t);
        keys := keys - {k};
      }
      DeleteEntries(deleteMe);
      FindAndDeleteEmptyEntries();
    }
  }

  class Output {
    const logbook: LogBook
    /** The reports that were sent, oldest first. */
    var sent: seq<(string, real)>

    constructor (logbook: LogBook)
      ensures this.logbook == logbook && sent == []
    {
      this.logbook, sent := logbook, [];
    }

    method ReportIpSingle(ip: string, t: real)
      modifies this, logbook`entries
      ensures logbook.entries == old(logbook.entries)[ip := Reported(t)] && sent == old(sent) + [(ip, t)]
    {
      logbook.entries := logbook.entries[ip := Reported(t)];
      sent := sent + [(ip, t)];
    }

    method ReportIpMultiple(ip: string)
      requires ip in logbook.entries && logbook.entries[ip].Times? && |logbook.entries[ip].ts| >= 2
      modifies this, logbook`entries
      ensures var ts := old(logbook.entries[ip].ts);
              logbook.entries == old(logbook.entries)[ip := Reported(ts[|ts| - 1])] && sent == old(sent) + [(ip, ts[|ts| - 1])]
    {
      var ts := logbook.entries[ip].ts;
      var tLast := ts[|ts| - 1];
      logbook.entries := logbook.entries[ip := Reported(tLast)];
      sent := sent + [(ip, tLast)];
    }

    method IntolerantObserver(ip: string, t: real)
      modifies this, logbook`entries
      ensures Observed(old(logbook.entries), old(sent), ip, t, ObserveIntolerant(Lookup(old(logbook.entries), ip), t, logbook.config))
    {
      if ip in logbook.entries {
        if CanRereport(logbook.entries[ip], t, logbook.config) {
          ReportIpSingle(ip, t);
        }
      } else {
        ReportIpSingle(ip, t);
      }
    }

    /** The book has `r.0` for `ip` and is otherwise as it was; a report was sent if `r.1`. */
    ghost predicate Observed(before: Book, sentBefore: seq<(string, real)>, ip: string, t: real, r: (Entry, bool))
      reads this, logbook
    {
      && logbook.entries == before[ip := r.0]
      && (if r.1 then r.0.Reported? && sent == sentBefore + [(ip, r.0.t)] else sent == sentBefore)
    }

    method TolerantObserver(ip: string, t: real)
      requires logbook.config.attempts >= 2
      modifies this, logbook`entries
      ensures Observed(old(logbook.entries), old(sent), ip, t, ObserveTolerant(Lookup(old(logbook.entries), ip), t, logbook.config))
    {
      var c := logbook.config;
      if ip in logbook.entries {
        var e := logbook.entries[ip];
        if e == Times([]) {
          logbook.entries := logbook.entries[ip := Times([t])];
        } else if e.Times? && e.ts[0] != 0.0 {
          logbook.entries := logbook.entries[ip := Times(Append(e.ts, t, c.attempts))];
          logbook.CleanExpiredTimestamps(ip, t);
          if |logbook.entries[ip].ts| >= c.attempts {
            ReportIpMultiple(ip);
          }
        } else if CanRereport(e, t, c) {
          logbook.entries := logbook.entries[ip := Times([t])];
        }
      } else {
        logbook.entries := logbook.entries[ip := Times([t])];
      }
    }

    /** `write` for a login event: asleep, nothing; else the observer the configuration asks for. */
    method Write(ip: string, t: real)
      modifies this, logbook`entries
      ensures logbook.Value() == LoginStep(old(logbook.Value()), ip, t, logbook.config).0
      ensures if LoginStep(old(logbook.Value()), ip, t, logbook.config).1
              then ip in logbook.entries && logbook.entries[ip].Reported? && sent == old(sent) + [(ip, logbook.entries[ip].t)]
              else sent == old(sent)
    {
      if logbook.sleeping {
        return;
      }
      if logbook.config.attempts <= 1 {
        IntolerantObserver(ip, t);
      } else {
        TolerantObserver(ip, t);
      }
    }

    /** `rate_limit_handler` for an answer with a Retry-After of at most 86340 seconds; false where it raises. */
    method RateLimitHandler(now: real, retry: real) returns (ok: bool)
      modifies logbook, logbook.reactor
      ensures logbook.Value() == RateLimitStep(old(logbook.Value()), now, retry, logbook.config)
      ensures ok <==> !old(logbook.recall).Spent?
    {
      logbook.sleeping := true;
      logbook.sleepUntil := now + retry;
      logbook.reactor.alarms := logbook.reactor.alarms + multiset{now + retry};
      ok := logbook.CleanupAndDumpState(now, true);
    }
  }

  /** `start` with nothing saved before: an empty book, cleaned once, and the first clean-up scheduled. */
  method Start(config: Config, now: real) returns (output: Output)
    ensures output.logbook.Value() == Started(now) && output.sent == []
  {
    var reactor := new Reactor();
    var logbook := new LogBook(config, reactor);
    var _ := logbook.CleanupAndDumpState(now, false);
    NothingToClean(now, config);
    output := new Output(logbook);
  }

  lemma NothingToClean(t: real, c: Config)
    ensures CleanUp(map[], t, c) == map[]
  {
  }
}
