/** Who is served by which guest, and what an iteration makes of each: told by the guests and by what happened before,
    not by how the pool picks them. */
module PoolUse {
  import opened PoolFates
  import opened PoolModel
  import opened PoolRuns
  import opened PoolSystem
  import opened Wrappers

  // ---------------------------------------------------------------- one iteration, one guest

  /** A guest that was used, and freed longer ago than the timeout by the clock at its turn. */
  ghost predicate TooOld(p: Pool, a: Answers, g: Guest) {
    g.state == Used && g.freed + p.timeout < a.now(g.ip)
  }

  /** Nothing is marked or destroyed in a pool of one; else what is condemned goes if qemu destroys it. */
  ghost predicate Goes(p: Pool, a: Answers, g: Guest) {
    |p.guests| >= 2 && (g.state == Unavailable || TooOld(p, a, g)) && a.destroyed(g.domain)
  }

  /** The state of a guest after an iteration that it outlives; `full` if the iteration could make all it had to. */
  ghost function StateAfter(p: Pool, a: Answers, g: Guest, full: bool): VmState {
    if |p.guests| >= 2 && TooOld(p, a, g) then Unavailable
    else if (g.state == Available || g.state == Using || g.state == Used) && !a.alive(g.ip) then Unavailable
    else if g.state == Created && full && a.booted(g.ip) then Available
    else g.state
  }

  lemma AgedIs(s: Sys, a: Answers, g: Guest)
    requires Inv(s) && g.state != Destroyed
    ensures Aged(s.pool, a, g).state == Destroyed <==> Goes(s.pool, a, g)
    ensures !Goes(s.pool, a, g) ==> Aged(s.pool, a, g) == g.(state := StateAfter(s.pool, a, g, false))
    ensures !Goes(s.pool, a, g) ==> Boot(a.booted)(Aged(s.pool, a, g)) == g.(state := StateAfter(s.pool, a, g, true))
  {
    AllExist(s);
    hide Inv, ExistingSize;
  }

  /** Whether the iteration made all the guests it had to. */
  ghost predicate Full(s: Sys, a: Answers) {
    |Step(s, Iterate(a)).pool.guests| >= s.pool.maxVm
  }

  lemma FullIff(s: Sys, a: Answers)
    requires Inv(s)
    ensures Full(s, a) <==> |a.made| >= Missing(Retire(s.pool, a))
    ensures var p2 := Create(Retire(s.pool, a), a.made);
            Step(s, Iterate(a)).pool.guests == if Full(s, a) then Each(p2.guests, Boot(a.booted)) else p2.guests
  {
    RetiredSize(s, a);
    CreateFacts(Retire(s.pool, a), a.made);
    hide Inv, Retire, Create, ExistingSize, Boot;
  }

  /** A guest that does not go is there afterwards, in the state it should be in. */
  lemma StaysAs(s: Sys, a: Answers, g: Guest)
    requires Inv(s) && g in s.pool.guests && !Goes(s.pool, a, g)
    ensures g.(state := StateAfter(s.pool, a, g, Full(s, a))) in Step(s, Iterate(a)).pool.guests
  {
    MemberOk(s, g);
    AgedIs(s, a, g);
    FullIff(s, a);
    var p1 := Retire(s.pool, a);
    var p2 := Create(p1, a.made);
    var h := Aged(s.pool, a, g);
    hide Inv, Step, Cull, Create, Health, Aged, Each, Boot, Full, StateAfter, Goes;
    var i :| 0 <= i < |s.pool.guests| && s.pool.guests[i] == g;
    AgedAt(s.pool, a, i);
    CullSize(s.pool, a);
    assert Each(Cull(s.pool, a), Health(a.alive))[i] == h && h in Each(Cull(s.pool, a), Health(a.alive));
    assert h in p1.guests;
    CreatedAreNew(p1, a.made, s.pool.born);
    if Full(s, a) {
      InEach(p2.guests, Boot(a.booted), h);
    }
  }

  lemma InEach(gs: seq<Guest>, f: Guest -> Guest, g: Guest)
    requires g in gs
    ensures f(g) in Each(gs, f)
  {
    var i :| 0 <= i < |gs| && gs[i] == g;
    assert Each(gs, f)[i] == f(g);
  }

  /** What becomes of every guest in an iteration, whatever clock, qemu and port scans answer: it is gone exactly if it
      was condemned before or is too old now, in a pool of two or more, and qemu destroys it; otherwise it is there
      in the state it should be in, and unchanged but for that. */
  lemma IterationFate(s: Sys, a: Answers, g: Guest)
    requires Inv(s) && Enabled(s, Iterate(a)) && g in s.pool.guests
    ensures var gs := Step(s, Iterate(a)).pool.guests;
            && (Without(gs, g.serial) <==> Goes(s.pool, a, g))
            && forall h | h in gs && h.serial == g.serial :: h == g.(state := StateAfter(s.pool, a, g, Full(s, a)))
  {
    var t := Step(s, Iterate(a));
    IterateKeeps(s, a);
    MemberOk(s, g);
    AgedIs(s, a, g);
    hide Enabled, Step, Aged, Full, Goes, StateAfter, Boot;
    forall h | h in t.pool.guests && h.serial == g.serial
      ensures !Goes(s.pool, a, g) && h == g.(state := StateAfter(s.pool, a, g, Full(s, a)))
    {
      IterateOrigin(s, a, h);
      var g' :| g' in s.pool.guests && Outlives(s.pool, a, g', h);
      OutlivesSerial(s.pool, a, g', h);
      SameGuest(s, g, g');
      StaysAs(s, a, g);
      SameGuest(t, h, g.(state := StateAfter(s.pool, a, g, Full(s, a))));
    }
    hide Inv;
    if !Goes(s.pool, a, g) {
      StaysAs(s, a, g);
    }
    if !Without(t.pool.guests, g.serial) {
      var i :| 0 <= i < |t.pool.guests| && t.pool.guests[i].serial == g.serial;
      assert t.pool.guests[i] in t.pool.guests;
    }
  }

  /** A used guest goes exactly when it was freed longer ago than the timeout. */
  lemma UsedGoesIff(s: Sys, a: Answers, g: Guest)
    requires Inv(s) && Enabled(s, Iterate(a)) && QemuObeys(a) && |s.pool.guests| >= 2 && g in s.pool.guests && g.state == Used
    ensures Without(Step(s, Iterate(a)).pool.guests, g.serial) <==> g.freed + s.pool.timeout < a.now(g.ip)
  {
    IterationFate(s, a, g);
    hide Inv, Enabled, Step;
  }

  /** The `k`th guest that qemu made, after the iteration that made it. */
  ghost predicate IsMade(s: Sys, a: Answers, k: nat, h: Guest)
    requires k < |a.made|
  {
    var m := a.made[k];
    && h.serial == s.pool.born + k && h.id == (s.pool.born + k) % 252
    && h.domain == m.domain && h.snapshot == m.snapshot && h.ip == m.ip && h.start == m.start
    && h.clientIps == [] && h.connected == 0 && h.prev == None && h.freed == -1 && h.name == ""
    && h.state == if Full(s, a) && a.booted(m.ip) then Available else Created
  }

  lemma {:induction false} CreatedAt(p: Pool, made: seq<Made>, k: nat)
    requires k < |made| && p.nextId == Id(p.born)
    ensures var q := Create(p, made).guests; var m := made[k];
            && |q| == |p.guests| + |made|
            && q[|p.guests| + k] == Guest(p.born + k, Id(p.born + k), [], 0, Created, None, m.start, -1, m.domain, m.ip, "", m.snapshot)
    decreases |made|
  {
    NextIdIs(p.born);
    CreateFacts(p, made);
    var q := CreateOne(p, made[0]);
    CreateFacts(q, made[1..]);
    if k == 0 {
      assert Create(p, made).guests[..|q.guests|][|p.guests|] == q.guests[|p.guests|];
    } else {
      CreatedAt(q, made[1..], k - 1);
      assert made[1..][k - 1] == made[k];
    }
  }

  /** Every guest that qemu made is in the pool after the iteration, new and unused, and started up or not. */
  lemma IterationMakes(s: Sys, a: Answers, k: nat)
    requires Inv(s) && Enabled(s, Iterate(a)) && k < |a.made|
    ensures exists h :: h in Step(s, Iterate(a)).pool.guests && IsMade(s, a, k, h)
  {
    FullIff(s, a);
    var p1 := Retire(s.pool, a);
    NextIdThere(s, a);
    CreatedAt(p1, a.made, k);
    var q := Create(p1, a.made).guests;
    var i := |p1.guests| + k;
    MadeIs(s, a, k, q[i]);
    var gs := Step(s, Iterate(a)).pool.guests;
    hide Inv, Enabled, Create, Retire, Full, Step, IsMade, Boot;
    assert gs[i] in gs;
  }

  lemma NextIdThere(s: Sys, a: Answers)
    requires Inv(s)
    ensures Retire(s.pool, a).nextId == Id(Retire(s.pool, a).born) && Retire(s.pool, a).born == s.pool.born
  {
    hide NatOk, Span, GuestsOk;
  }

  lemma MadeIs(s: Sys, a: Answers, k: nat, g: Guest)
    requires k < |a.made|
    requires var m := a.made[k];
             g == Guest(s.pool.born + k, Id(s.pool.born + k), [], 0, Created, None, m.start, -1, m.domain, m.ip, "", m.snapshot)
    ensures IsMade(s, a, k, if Full(s, a) then Boot(a.booted)(g) else g)
  {
    hide Full;
  }

  /** And there are no guests but those that were there and those that were made. */
  lemma IterationAddsNoOther(s: Sys, a: Answers, h: Guest)
    requires Inv(s) && Enabled(s, Iterate(a)) && h in Step(s, Iterate(a)).pool.guests
    ensures h.serial < s.pool.born ==> exists g :: g in s.pool.guests && g.serial == h.serial
    ensures h.serial >= s.pool.born ==> h.serial - s.pool.born < |a.made| && IsMade(s, a, h.serial - s.pool.born, h)
  {
    IterateKeeps(s, a);
    var t := Step(s, Iterate(a));
    MemberOk(t, h);
    BornAfter(s, a);
    if h.serial >= s.pool.born {
      var k := h.serial - s.pool.born;
      IterationMakes(s, a, k);
      var m :| m in t.pool.guests && IsMade(s, a, k, m);
      SameGuest(t, h, m);
    } else {
      hide Inv, Enabled, Step;
      IterateOrigin(s, a, h);
      var g :| g in s.pool.guests && Outlives(s.pool, a, g, h);
      OutlivesSerial(s.pool, a, g, h);
    }
  }

  lemma BornAfter(s: Sys, a: Answers)
    ensures Step(s, Iterate(a)).pool.born == s.pool.born + |a.made|
  {
    CreateFacts(Retire(s.pool, a), a.made);
  }

  // ---------------------------------------------------------------- who was served

  /** A connection to this guest is granted in the step. */
  ghost predicate Serves(s: Sys, t: Sys, serial: nat) {
    t.leases == s.leases + multiset{serial}
  }

  /** Before step `i` a request of `ip` was served by this guest. */
  ghost predicate ServedBefore(states: seq<Sys>, events: seq<Event>, i: nat, ip: string, serial: nat)
    requires i <= |events| < |states|
  {
    exists j :: 0 <= j < i && events[j].Request? && events[j].ip == ip && Serves(states[j], states[j + 1], serial)
  }

  lemma ServesOne(s: Sys, t: Sys, a: nat, b: nat)
    requires Serves(s, t, a) && Serves(s, t, b)
    ensures a == b
  {
    assert t.leases[a] == s.leases[a] + 1;
    assert a != b ==> (s.leases + multiset{b})[a] == s.leases[a];
  }

  lemma RequestServes(s: Sys, e: Event, t: Sys)
    requires CanStep(s, e, t) && e.Request?
    ensures var c := Select(s.pool, e.ip);
            if c.Chosen? then Serves(s, t, s.pool.guests[c.index].serial) else t == s
  {
  }

  lemma NoneServed(s: Sys, serial: nat)
    ensures !Serves(s, s, serial)
  {
    assert (s.leases + multiset{serial})[serial] == s.leases[serial] + 1;
  }

  lemma ServesIffChooses(s: Sys, e: Event, t: Sys, serial: nat)
    requires CanStep(s, e, t) && e.Request?
    ensures Serves(s, t, serial) <==> Chooses(s, e, serial)
  {
    RequestServes(s, e, t);
    var c := Select(s.pool, e.ip);
    if c.Chosen? {
      var g := s.pool.guests[c.index];
      if Serves(s, t, serial) {
        ServesOne(s, t, serial, g.serial);
        assert ChoosesIn(s, e, serial, g.state);
      }
    } else {
      NoneServed(s, serial);
    }
  }

  lemma BornGrows(s: Sys, e: Event, t: Sys)
    requires CanStep(s, e, t)
    ensures s.pool.born <= t.pool.born
  {
    if e.Iterate? {
      BornAfter(s, e.answers);
    }
  }

  lemma ServedIsLeased(s: Sys, t: Sys, serial: nat)
    requires Serves(s, t, serial) && Inv(t)
    ensures serial < t.pool.born
  {
    assert serial in t.leases;
    hide GuestsOk, NatOk, Span;
  }

  lemma {:induction false} ServedIsOld(states: seq<Sys>, events: seq<Event>, i: nat, ip: string, serial: nat)
    requires IsRun(states, events) && i <= |events| && ServedBefore(states, events, i, ip, serial)
    ensures serial < states[i].pool.born
    decreases i
  {
    hide Inv, CanStep, Serves;
    var j :| 0 <= j < i && events[j].Request? && events[j].ip == ip && Serves(states[j], states[j + 1], serial);
    assert CanStep(states[i - 1], events[i - 1], states[i - 1 + 1]);
    RunInv(states, events, i);
    if j == i - 1 {
      ServedIsLeased(states[j], states[i], serial);
    } else {
      assert ServedBefore(states, events, i - 1, ip, serial);
      ServedIsOld(states, events, i - 1, ip, serial);
      BornGrows(states[i - 1], events[i - 1], states[i]);
    }
  }

  /** One more step: served before it or in it. */
  lemma ServedNext(states: seq<Sys>, events: seq<Event>, i: nat, ip: string, serial: nat)
    requires i < |events| < |states|
    ensures ServedBefore(states, events, i + 1, ip, serial) <==>
              || ServedBefore(states, events, i, ip, serial)
              || (events[i].Request? && events[i].ip == ip && Serves(states[i], states[i + 1], serial))
  {
    hide Serves;
  }

  /** What a step does to the addresses a guest knows. */
  lemma ClientIpsStep(s: Sys, e: Event, t: Sys, g: Guest, h: Guest)
    requires CanStep(s, e, t) && Becomes(s, e, g, h)
    ensures h.clientIps == if e.Request? && Serves(s, t, g.serial) then g.clientIps + [e.ip] else g.clientIps
  {
    hide Chooses, CanStep, Serves;
    if e.Request? {
      ServesIffChooses(s, e, t, g.serial);
    }
  }

  /** In every state of every run: the addresses a guest knows are those of the requests it has served. */
  lemma {:induction false} ClientIpsAreServed(states: seq<Sys>, events: seq<Event>, i: nat, h: Guest, ip: string)
    requires IsRun(states, events) && states[0] == INITIAL && i <= |events| && h in states[i].pool.guests
    ensures ip in h.clientIps <==> ServedBefore(states, events, i, ip, h.serial)
    decreases i
  {
    hide Inv, CanStep, Becomes, GuestOk, ServedBefore, Serves;
    if i > 0 {
      RunInv(states, events, i - 1);
      var s, e, t := states[i - 1], events[i - 1], states[i];
      assert CanStep(s, e, t);
      ServedNext(states, events, i - 1, ip, h.serial);
      Origin(s, e, t, h);
      if e.Iterate? && IsNew(h, s.pool.born) {
        if ServedBefore(states, events, i - 1, ip, h.serial) {
          ServedIsOld(states, events, i - 1, ip, h.serial);
        }
      } else {
        var g :| g in s.pool.guests && g.serial == h.serial && GuestOk(g, s.pool.born, s.leases) && Becomes(s, e, g, h);
        ClientIpsAreServed(states, events, i - 1, g, ip);
        ClientIpsStep(s, e, t, g, h);
      }
    }
  }

  // ---------------------------------------------------------------- who is served

  ghost predicate InUse(g: Guest) {
    g.state == Using || g.state == Used
  }

  ghost predicate IsFresh(g: Guest) {
    g.state == Available
  }

  /** The guest at place `k` is the first one of its kind. */
  ghost predicate IsFirst(gs: seq<Guest>, k: nat, kind: Guest -> bool) {
    k < |gs| && kind(gs[k]) && forall i | 0 <= i < k :: !kind(gs[i])
  }

  ghost predicate NoSuch(gs: seq<Guest>, kind: Guest -> bool) {
    forall i | 0 <= i < |gs| :: !kind(gs[i])
  }

  /** A guest in use with no more connections than any other, and fewer than those in use before it. */
  ghost predicate IsLeastUsed(gs: seq<Guest>, k: nat) {
    && k < |gs| && InUse(gs[k])
    && forall i | 0 <= i < |gs| && InUse(gs[i]) :: gs[k].connected <= gs[i].connected && (i < k ==> gs[k].connected < gs[i].connected)
  }

  /** Which guest should serve a request, if `own` tells the guests its sender was served by. */
  ghost predicate ShouldServe(p: Pool, k: nat, own: Guest -> bool) {
    if !NoSuch(p.guests, own) then IsFirst(p.guests, k, own)
    else if !NoSuch(p.guests, IsFresh) then IsFirst(p.guests, k, IsFresh)
    else p.share && IsLeastUsed(p.guests, k)
  }

  /** Nobody can: there is no guest of its own, none available, and none to share. */
  ghost predicate NobodyServes(p: Pool, own: Guest -> bool) {
    && NoSuch(p.guests, own) && NoSuch(p.guests, IsFresh)
    && !(p.share && !NoSuch(p.guests, InUse))
  }

  lemma SelectShould(p: Pool, ip: string, own: Guest -> bool)
    requires forall i | 0 <= i < |p.guests| :: own(p.guests[i]) <==> InUse(p.guests[i]) && ip in p.guests[i].clientIps
    ensures var c := Select(p, ip);
            if c.Chosen? then c.index < |p.guests| && ShouldServe(p, c.index, own) else NobodyServes(p, own)
  {
    var gs := p.guests;
    var mine := FirstWhere(gs, ServedTo(ip));
    var free := FirstWhere(gs, IsAvailable);
    assert forall i | 0 <= i < |gs| :: own(gs[i]) <==> ServedTo(ip)(gs[i]);
    if mine < |gs| {
      assert own(gs[mine]);
    } else if free < |gs| {
      assert IsAvailable(gs[free]);
    } else {
      assert NoSuch(gs, own) && NoSuch(gs, IsFresh);
      assert forall i | 0 <= i < |gs| :: Busy(gs[i]) <==> InUse(gs[i]);
      var least := LeastBusy(gs);
      if least == |gs| {
        assert NoSuch(gs, InUse);
      } else {
        LeastIsLeastUsed(gs);
      }
    }
  }

  lemma LeastIsLeastUsed(gs: seq<Guest>)
    requires LeastBusy(gs) < |gs|
    ensures IsLeastUsed(gs, LeastBusy(gs))
  {
    var k := LeastBusy(gs);
    forall i | 0 <= i < k && InUse(gs[i]) ensures gs[k].connected < gs[i].connected {
      assert !IsLeast(gs, i);
      assert Busy(gs[i]);
    }
  }

  /** Told by what happened before: the guests in use that a request of `ip` was served by. */
  ghost function OwnGuests(states: seq<Sys>, events: seq<Event>, i: nat, ip: string): Guest -> bool
    requires i <= |events| < |states|
  {
    (g: Guest) => InUse(g) && ServedBefore(states, events, i, ip, g.serial)
  }

  /** In every run, a request of an address is served by the first guest in use that served it before, if there is
      one; else by the first one available; else, if guests are shared, by the first of those in use with the fewest
      connections. It is refused exactly if there is none of these. */
  lemma OwnGuestFirst(states: seq<Sys>, events: seq<Event>, i: nat)
    requires IsRun(states, events) && states[0] == INITIAL && i < |events| && events[i].Request?
    ensures var s, t, own := states[i], states[i + 1], OwnGuests(states, events, i, events[i].ip);
            && (forall serial :: Serves(s, t, serial) ==> exists k :: 0 <= k < |s.pool.guests| && s.pool.guests[k].serial == serial && ShouldServe(s.pool, k, own))
            && (t.leases == s.leases ==> NobodyServes(s.pool, own))
            && (t.leases == s.leases || exists serial :: Serves(s, t, serial))
  {
    var s, e, t := states[i], events[i], states[i + 1];
    assert CanStep(s, e, t);
    var own := OwnGuests(states, events, i, e.ip);
    forall k | 0 <= k < |s.pool.guests| ensures own(s.pool.guests[k]) <==> InUse(s.pool.guests[k]) && e.ip in s.pool.guests[k].clientIps {
      ClientIpsAreServed(states, events, i, s.pool.guests[k], e.ip);
    }
    SelectShould(s.pool, e.ip, own);
    RequestServes(s, e, t);
    hide CanStep, Inv, Select, ShouldServe, NobodyServes, OwnGuests, IsRun;
    var c := Select(s.pool, e.ip);
    if c.Chosen? {
      var g := s.pool.guests[c.index];
      assert Serves(s, t, g.serial);
      forall serial | Serves(s, t, serial) ensures serial == g.serial {
        ServesOne(s, t, serial, g.serial);
      }
      LeasesGrew(s, t, g.serial);
    } else {
      forall serial ensures !Serves(s, t, serial) {
        NoneServed(s, serial);
      }
    }
  }

  lemma LeasesGrew(s: Sys, t: Sys, serial: nat)
    requires Serves(s, t, serial)
    ensures t.leases != s.leases
  {
    assert t.leases[serial] == s.leases[serial] + 1;
  }

  // ---------------------------------------------------------------- when a guest was freed

  ghost predicate FreedIn(events: seq<Event>, j: nat, serial: nat)
    requires j < |events|
  {
    events[j].Free? && events[j].serial == serial
  }

  /** `t` is the time of the latest free of this guest before step `i`; -1 if there was none. */
  ghost predicate LatestFree(events: seq<Event>, i: nat, serial: nat, t: int)
    requires i <= |events|
  {
    if forall j | 0 <= j < i :: !FreedIn(events, j, serial) then t == -1
    else exists j :: 0 <= j < i && events[j] == Free(serial, t) && forall m | j < m < i :: !FreedIn(events, m, serial)
  }

  lemma LatestFreeNext(events: seq<Event>, i: nat, serial: nat, t: int)
    requires i < |events| && LatestFree(events, i, serial, t)
    ensures LatestFree(events, i + 1, serial, if FreedIn(events, i, serial) then events[i].now else t)
  {
    if FreedIn(events, i, serial) {
      assert events[i] == Free(serial, events[i].now);
    } else if j :| 0 <= j < i && events[j] == Free(serial, t) && forall m | j < m < i :: !FreedIn(events, m, serial) {
      assert FreedIn(events, j, serial);
      assert forall m | j < m < i + 1 :: !FreedIn(events, m, serial);
    }
  }

  lemma FreedStep(s: Sys, e: Event, g: Guest, h: Guest)
    requires Becomes(s, e, g, h)
    ensures h.freed == if e.Free? && e.serial == g.serial then e.now else g.freed
  {
    hide Chooses;
  }

  lemma {:induction false} FreedIsOld(states: seq<Sys>, events: seq<Event>, i: nat, j: nat, serial: nat)
    requires IsRun(states, events) && j < i <= |events| && FreedIn(events, j, serial)
    ensures serial < states[i].pool.born
    decreases i
  {
    hide *;
    StepAt(states, events, i - 1);
    BornGrows(states[i - 1], events[i - 1], states[i]);
    if j == i - 1 {
      FreedIsLeased(states[j], events, j, states[i], serial);
    } else {
      FreedIsOld(states, events, i - 1, j, serial);
    }
  }

  lemma StepAt(states: seq<Sys>, events: seq<Event>, i: nat)
    requires IsRun(states, events) && i < |events|
    ensures i + 1 < |states| && Inv(states[i]) && CanStep(states[i], events[i], states[i + 1])
  {
    RunInv(states, events, i);
    hide Inv, CanStep;
  }

  lemma FreedIsLeased(s: Sys, events: seq<Event>, j: nat, t: Sys, serial: nat)
    requires j < |events| && Inv(s) && CanStep(s, events[j], t) && FreedIn(events, j, serial)
    ensures serial < s.pool.born
  {
    hide Step, Span, FreshIps, NatOk, GuestsOk;
    assert serial in s.leases;
  }

  /** In every state of every run, the time a guest remembers is that of its latest free. */
  lemma {:induction false} FreedIsLatestFree(states: seq<Sys>, events: seq<Event>, i: nat, h: Guest)
    requires IsRun(states, events) && states[0] == INITIAL && i <= |events| && h in states[i].pool.guests
    ensures LatestFree(events, i, h.serial, h.freed)
    decreases i
  {
    hide Inv, CanStep, Becomes, GuestOk;
    if i > 0 {
      RunInv(states, events, i - 1);
      var s, e, t := states[i - 1], events[i - 1], states[i];
      assert CanStep(s, e, t);
      Origin(s, e, t, h);
      if e.Iterate? && IsNew(h, s.pool.born) {
        forall j | 0 <= j < i ensures !FreedIn(events, j, h.serial) {
          if FreedIn(events, j, h.serial) {
            assert j < i - 1;
            FreedIsOld(states, events, i - 1, j, h.serial);
          }
        }
      } else {
        var g :| g in s.pool.guests && g.serial == h.serial && GuestOk(g, s.pool.born, s.leases) && Becomes(s, e, g, h);
        FreedIsLatestFree(states, events, i - 1, g);
        LatestFreeNext(events, i - 1, h.serial, g.freed);
        FreedStep(s, e, g, h);
      }
    }
  }

  /** In every run, an iteration of an obeying qemu gets rid of a used guest of a pool of two or more exactly if its
      latest free is longer ago than the timeout. */
  lemma UsedGoesByAge(states: seq<Sys>, events: seq<Event>, i: nat, g: Guest)
    requires IsRun(states, events) && states[0] == INITIAL && i < |events| && events[i].Iterate?
    requires QemuObeys(events[i].answers) && |states[i].pool.guests| >= 2 && g in states[i].pool.guests && g.state == Used
    ensures LatestFree(events, i, g.serial, g.freed)
    ensures Without(states[i + 1].pool.guests, g.serial) <==> g.freed + states[i].pool.timeout < events[i].answers.now(g.ip)
  {
    RunInv(states, events, i);
    assert CanStep(states[i], events[i], states[i + 1]);
    FreedIsLatestFree(states, events, i, g);
    UsedGoesIff(states[i], events[i].answers, g);
    hide *;
  }

  // ---------------------------------------------------------------- fresh guests

  /** Who is fresh was never freed, nor was who will be fresh again if its one connection is handed back unused. */
  ghost predicate FreshOk(g: Guest) {
    && (g.state == Created || g.state == Available ==> g.freed == -1)
    && (g.connected > 0 && g.prev == Some(Available) ==> g.freed == -1 && g.connected == 1)
    && (g.state == Created ==> g.connected == 0)
  }

  lemma FreshStep(s: Sys, e: Event, g: Guest, h: Guest)
    requires Becomes(s, e, g, h) && g in s.pool.guests && Inv(s) && GuestOk(g, s.pool.born, s.leases) && FreshOk(g)
    requires e.Free? || e.Reuse? ==> e.serial in s.leases
    ensures FreshOk(h)
  {
    if e.Iterate? {
      hide Inv, GuestOk;
      FreshIterate(s.pool, e.answers, g, h);
    } else {
      ChosenGuest(s, e, g);
      if Chooses(s, e, g.serial) {
        SelectedIsUsable(s, e);
      }
      hide Outlives, Inv, Select, Chooses, ChoosesIn;
    }
  }

  lemma FreshIterate(p: Pool, a: Answers, g: Guest, h: Guest)
    requires Outlives(p, a, g, h) && FreshOk(g)
    ensures FreshOk(h)
  {
  }

  /** In every state of every run: a guest that is handed out as available was never given back after use. */
  lemma {:induction false} AvailableWasNeverFreed(states: seq<Sys>, events: seq<Event>, i: nat, h: Guest)
    requires IsRun(states, events) && states[0] == INITIAL && i <= |events| && h in states[i].pool.guests
    ensures FreshOk(h)
    decreases i
  {
    hide Inv, CanStep, Becomes, GuestOk, FreshOk;
    if i > 0 {
      RunInv(states, events, i - 1);
      var s, e, t := states[i - 1], events[i - 1], states[i];
      assert CanStep(s, e, t);
      Origin(s, e, t, h);
      if e.Iterate? && IsNew(h, s.pool.born) {
        NewIsFresh(h, s.pool.born);
      } else {
        var g :| g in s.pool.guests && g.serial == h.serial && GuestOk(g, s.pool.born, s.leases) && Becomes(s, e, g, h);
        AvailableWasNeverFreed(states, events, i - 1, g);
        ToGiveBack(s, e, t);
        FreshStep(s, e, g, h);
      }
    }
  }

  lemma NewIsFresh(h: Guest, born: nat)
    requires IsNew(h, born)
    ensures FreshOk(h)
  {
  }

  /** Giving back one connection: the last one given back after use leaves the guest used, the last one given back
      unused leaves it as the latest request found it; before the last, only the count changes. */
  lemma GivingBack(states: seq<Sys>, events: seq<Event>, i: nat, g: Guest)
    requires IsRun(states, events) && states[0] == INITIAL && i < |events| && g in states[i].pool.guests
    requires (events[i].Free? || events[i].Reuse?) && events[i].serial == g.serial
    ensures exists h :: h in states[i + 1].pool.guests && h.serial == g.serial && h.connected == g.connected - 1
                     && if g.connected > 1 then h.state == g.state
                        else if events[i].Free? then h.state == Used
                        else LatestFound(states, events, i, g.serial, h.state)
  {
    hide Inv, CanStep, LatestFound, IsRun;
    StepAt(states, events, i);
    var s, e, t := states[i], events[i], states[i + 1];
    MemberOk(s, g);
    ToGiveBack(s, e, t);
    PrevIsWhatTheLatestFound(states, events, i, g);
    var k :| 0 <= k < |s.pool.guests| && s.pool.guests[k] == g;
    ConsumerAt(s, e, t, k);
    var h := t.pool.guests[k];
    assert h in t.pool.guests;
  }

  // ---------------------------------------------------------------- whether a guest was ever up

  /** Some guest can be handed out, is in use or was: it has started up at some time. */
  ghost predicate AnyStarted(s: Sys) {
    exists g :: g in s.pool.guests && g.state != Created
  }

  lemma AnyUpStep(s: Sys, e: Event, t: Sys)
    requires Inv(s) && CanStep(s, e, t) && (AnyStarted(s) ==> s.pool.anyUp)
    requires forall g | g in s.pool.guests :: FreshOk(g)
    ensures s.pool.anyUp ==> t.pool.anyUp
    ensures AnyStarted(t) ==> t.pool.anyUp
    ensures t.pool.anyUp && !s.pool.anyUp ==> AnyStarted(t)
  {
    if e.Iterate? {
      AnyUpIterate(s, e.answers);
    } else {
      AnyUpStays(s, e, t);
      if AnyStarted(t) {
        var h :| h in t.pool.guests && h.state != Created;
        ConsumerStep(s, e, t, h);
        var g :| g in s.pool.guests && g.serial == h.serial && ConsumerMakes(s, e, g, h);
        MemberOk(s, g);
        ChosenGuest(s, e, g);
        if e.Request? && Chooses(s, e, g.serial) {
          SelectedIsUsable(s, e);
        }
        hide Inv, CanStep, Chooses;
        assert g.state != Created by {
          CreatedUntouched(s, e, g, h);
        }
      }
    }
  }

  /** In every run, `any_vm_up` says exactly whether some guest had started up by then. */
  lemma {:induction false} AnyUpIff(states: seq<Sys>, events: seq<Event>, i: nat)
    requires IsRun(states, events) && states[0] == INITIAL && i <= |events|
    ensures states[i].pool.anyUp <==> exists k :: 0 <= k <= i && AnyStarted(states[k])
    decreases i
  {
    hide Inv, CanStep, FreshOk, AnyStarted;
    if i == 0 {
      NoneStarted();
    } else {
      AnyUpIff(states, events, i - 1);
      RunInv(states, events, i - 1);
      assert CanStep(states[i - 1], events[i - 1], states[i]);
      forall g | g in states[i - 1].pool.guests ensures FreshOk(g) {
        AvailableWasNeverFreed(states, events, i - 1, g);
      }
      AnyUpStep(states[i - 1], events[i - 1], states[i]);
    }
  }

  lemma NoneStarted()
    ensures !AnyStarted(INITIAL) && !INITIAL.pool.anyUp
  {
  }

  lemma AnyUpStays(s: Sys, e: Event, t: Sys)
    requires CanStep(s, e, t) && !e.Iterate?
    ensures t.pool.anyUp == s.pool.anyUp
  {
  }

  lemma CreatedUntouched(s: Sys, e: Event, g: Guest, h: Guest)
    requires !e.Iterate? && ConsumerMakes(s, e, g, h) && FreshOk(g) && GuestOk(g, s.pool.born, s.leases)
    requires Chooses(s, e, g.serial) ==> Usable(g.state)
    requires e.Free? || e.Reuse? ==> e.serial in s.leases
    ensures g.state == Created ==> h.state == Created
  {
    hide Chooses;
  }

  lemma AnyUpIterate(s: Sys, a: Answers)
    requires Inv(s) && Enabled(s, Iterate(a)) && (AnyStarted(s) ==> s.pool.anyUp)
    ensures var t := Step(s, Iterate(a));
            (s.pool.anyUp ==> t.pool.anyUp) && (AnyStarted(t) ==> t.pool.anyUp) && (t.pool.anyUp && !s.pool.anyUp ==> AnyStarted(t))
  {
    hide Inv, Enabled, Step, Retire, Create, Full, Boot;
    var t := Step(s, Iterate(a));
    AnyUpAfter(s, a);
    if h :| h in t.pool.guests && h.state != Created {
      StartsUp(s, a, h);
    }
    var p2 := Create(Retire(s.pool, a), a.made);
    if Full(s, a) {
      if g :| g in p2.guests && g.state == Created && a.booted(g.ip) {
        FullIff(s, a);
        InEach(p2.guests, Boot(a.booted), g);
        Booted(g, a.booted);
      }
    }
  }

  lemma Booted(g: Guest, booted: string -> bool)
    requires g.state == Created && booted(g.ip)
    ensures Boot(booted)(g).state == Available
  {
  }

  /** A guest that is started after an iteration was started in it or before. */
  lemma StartsUp(s: Sys, a: Answers, h: Guest)
    requires Inv(s) && h in Step(s, Iterate(a)).pool.guests && h.state != Created
    ensures || AnyStarted(s)
            || (Full(s, a) && exists g :: g in Create(Retire(s.pool, a), a.made).guests && g.state == Created && a.booted(g.ip))
  {
    var p1 := Retire(s.pool, a);
    var p2 := Create(p1, a.made);
    FullIff(s, a);
    CreatedAreNew(p1, a.made, s.pool.born);
    hide Inv, Step, Retire, Create, Full, AnyStarted;
    if h in p2.guests {
      StartedBefore(s, a, h);
    } else {
      var i :| 0 <= i < |p2.guests| && Each(p2.guests, Boot(a.booted))[i] == h;
      var g := p2.guests[i];
      assert g in p2.guests;
      if g.state != Created {
        StartedBefore(s, a, g);
      }
    }
  }

  lemma AnyUpAfter(s: Sys, a: Answers)
    requires Inv(s)
    ensures var p2 := Create(Retire(s.pool, a), a.made);
            Step(s, Iterate(a)).pool.anyUp <==>
              s.pool.anyUp || (Full(s, a) && exists g :: g in p2.guests && g.state == Created && a.booted(g.ip))
  {
    FullIff(s, a);
    CreateFacts(Retire(s.pool, a), a.made);
    hide Inv, Cull, Create, Full;
  }

  /** What is started after retiring was started before. */
  lemma StartedBefore(s: Sys, a: Answers, g: Guest)
    requires g in Retire(s.pool, a).guests && g.state != Created
    ensures AnyStarted(s)
  {
    RetireOrigin(s.pool, a, g);
    hide Retire, Aged;
    var g0 :| g0 in s.pool.guests && g == Aged(s.pool, a, g0);
    CreatedAges(s.pool, a, g0);
  }

  lemma CreatedAges(p: Pool, a: Answers, g: Guest)
    ensures g.state == Created ==> Aged(p, a, g) == g
  {
  }
}
