/** What becomes of a single guest over a run: how it can be left in use with nobody connected, how it comes back
    from being condemned, and what a pool of one is stuck with. */
module PoolFates {
  import opened PoolModel
  import opened PoolRuns
  import opened PoolSystem
  import opened Wrappers

  /** The request is served by the guest with this serial, which is in state `st`. */
  ghost predicate ChoosesIn(s: Sys, e: Event, serial: nat, st: VmState) {
    && e.Request? && Select(s.pool, e.ip).Chosen?
    && var g := s.pool.guests[Select(s.pool, e.ip).index]; g.serial == serial && g.state == st
  }

  ghost predicate Chooses(s: Sys, e: Event, serial: nat) {
    exists st :: ChoosesIn(s, e, serial, st)
  }

  lemma ChosenGuest(s: Sys, e: Event, g: Guest)
    requires Inv(s) && g in s.pool.guests
    ensures Chooses(s, e, g.serial) ==> ChoosesIn(s, e, g.serial, g.state) && g == s.pool.guests[Select(s.pool, e.ip).index]
  {
  }

  // ---------------------------------------------------------------- one step, one guest

  /** A guest after a producer iteration, before destroyed guests are removed and new ones looked at. */
  function Aged(p: Pool, a: Answers, g: Guest): Guest {
    Health(a.alive)(if ExistingSize(p.guests) > 1 then Destroy(a.destroyed)(TimeOut(p.timeout, a.now)(g)) else g)
  }

  lemma AgedAt(p: Pool, a: Answers, i: nat)
    requires i < |p.guests|
    ensures Each(Cull(p, a), Health(a.alive))[i] == Aged(p, a, p.guests[i])
  {
    if ExistingSize(p.guests) > 1 {
      var marked := Each(p.guests, TimeOut(p.timeout, a.now));
      assert marked[i] == TimeOut(p.timeout, a.now)(p.guests[i]);
    }
  }

  ghost predicate IsNew(g: Guest, born: nat) {
    && g.serial >= born && g.connected == 0 && g.prev == None && g.clientIps == [] && g.freed == -1
    && (g.state == Created || g.state == Available)
  }

  lemma {:induction false} CreatedAreNew(p: Pool, made: seq<Made>, born: nat)
    requires born <= p.born
    ensures forall g | g in Create(p, made).guests :: g in p.guests || (IsNew(g, born) && g.state == Created)
    ensures forall g | g in p.guests :: g in Create(p, made).guests
    decreases |made|
  {
    if made != [] {
      var q := CreateOne(p, made[0]);
      CreatedAreNew(q, made[1..], born);
      assert forall g | g in q.guests :: g in p.guests || g == NewGuest(p, made[0]);
      assert forall g | g in p.guests :: g in q.guests;
    }
  }

  /** `h` is what an iteration makes of `g`; if creation fails it does not get to look at new guests. */
  ghost predicate Outlives(p: Pool, a: Answers, g: Guest, h: Guest) {
    Aged(p, a, g).state != Destroyed && (h == Aged(p, a, g) || h == Boot(a.booted)(Aged(p, a, g)))
  }

  lemma AfterProduce(s: Sys, a: Answers)
    ensures var gs, p2 := Step(s, Iterate(a)).pool.guests, Create(Retire(s.pool, a), a.made);
            gs == p2.guests || gs == Each(p2.guests, Boot(a.booted))
  {
  }

  /** Every guest after an iteration was there before or is new. */
  lemma IterateOrigin(s: Sys, a: Answers, h: Guest)
    requires h in Step(s, Iterate(a)).pool.guests
    ensures IsNew(h, s.pool.born) || exists g :: g in s.pool.guests && Outlives(s.pool, a, g, h)
  {
    hide Step, Cull, Create, Health, Boot, Aged, Each;
    var p1 := Retire(s.pool, a);
    var p2 := Create(p1, a.made);
    AfterProduce(s, a);
    CreatedAreNew(p1, a.made, s.pool.born);
    var before := BootOrigin(p2, a, h);
    if before in p1.guests {
      RetireOrigin(s.pool, a, before);
    } else {
      BootNew(before, a, s.pool.born);
    }
  }

  lemma RetireOrigin(p: Pool, a: Answers, h: Guest)
    requires h in Retire(p, a).guests
    ensures exists g :: g in p.guests && h == Aged(p, a, g) && h.state != Destroyed
  {
    hide Cull, Health, Aged;
    var checked := Each(Cull(p, a), Health(a.alive));
    var i :| 0 <= i < |checked| && checked[i] == h;
    CullSize(p, a);
    AgedAt(p, a, i);
    assert p.guests[i] in p.guests;
  }

  lemma BootNew(g: Guest, a: Answers, born: nat)
    requires IsNew(g, born)
    ensures IsNew(Boot(a.booted)(g), born)
  {
  }

  lemma BootOrigin(p2: Pool, a: Answers, h: Guest) returns (before: Guest)
    requires h in p2.guests || h in Each(p2.guests, Boot(a.booted))
    ensures before in p2.guests && (h == before || h == Boot(a.booted)(before))
  {
    if h in p2.guests {
      before := h;
    } else {
      var i :| 0 <= i < |p2.guests| && Each(p2.guests, Boot(a.booted))[i] == h;
      before := p2.guests[i];
    }
  }

  /** A guest that an iteration neither condemns, destroys nor boots is there after it as it was. */
  lemma IterateKeepsGuest(s: Sys, a: Answers, g: Guest)
    requires g in s.pool.guests && Aged(s.pool, a, g) == g && g.state != Destroyed && g.state != Created
    ensures g in Step(s, Iterate(a)).pool.guests
  {
    hide Step, Cull, Create, Health, Aged, Each;
    var p1 := Retire(s.pool, a);
    var p2 := Create(p1, a.made);
    var i :| 0 <= i < |s.pool.guests| && s.pool.guests[i] == g;
    AgedAt(s.pool, a, i);
    CullSize(s.pool, a);
    var checked := Each(Cull(s.pool, a), Health(a.alive));
    assert checked[i] == g && g in checked;
    AfterProduce(s, a);
    CreatedAreNew(p1, a.made, s.pool.born);
    assert g in p2.guests;
    BootKeepsGuest(p2.guests, a.booted, g);
  }

  lemma BootKeepsGuest(gs: seq<Guest>, booted: string -> bool, g: Guest)
    requires g in gs && g.state != Created
    ensures g in Each(gs, Boot(booted))
  {
    var i :| 0 <= i < |gs| && gs[i] == g;
    assert Each(gs, Boot(booted))[i] == g;
  }

  /** A consumer call changes the guest it is about, and no other. */
  lemma ConsumerStep(s: Sys, e: Event, t: Sys, h: Guest)
    requires Inv(s) && CanStep(s, e, t) && !e.Iterate? && h in t.pool.guests
    ensures exists g :: g in s.pool.guests && g.serial == h.serial && ConsumerMakes(s, e, g, h)
  {
    hide Inv, CanStep, Select;
    SameLength(s, e, t);
    var k :| 0 <= k < |t.pool.guests| && t.pool.guests[k] == h;
    ConsumerAt(s, e, t, k);
    ServedIs(s, e, k);
    assert s.pool.guests[k] in s.pool.guests;
  }

  lemma SameLength(s: Sys, e: Event, t: Sys)
    requires CanStep(s, e, t) && !e.Iterate?
    ensures |t.pool.guests| == |s.pool.guests|
  {
  }

  lemma ServedIs(s: Sys, e: Event, k: nat)
    requires Inv(s) && !e.Iterate? && k < |s.pool.guests|
    ensures ConsumerMakes(s, e, s.pool.guests[k], Served(s, e, k)) && Served(s, e, k).serial == s.pool.guests[k].serial
    ensures e.Request? ==> (Chooses(s, e, s.pool.guests[k].serial) <==> Select(s.pool, e.ip) == Chosen(k))
  {
    var g := s.pool.guests[k];
    assert g in s.pool.guests;
    if e.Request? {
      ChosenAt(s, e, k);
    }
    hide Inv, Chooses;
  }

  /** The guest at place `k` serves the request exactly when that is the place chosen. */
  lemma ChosenAt(s: Sys, e: Event, k: nat)
    requires Inv(s) && e.Request? && k < |s.pool.guests|
    ensures Chooses(s, e, s.pool.guests[k].serial) <==> Select(s.pool, e.ip) == Chosen(k)
  {
    var g := s.pool.guests[k];
    if Select(s.pool, e.ip) == Chosen(k) {
      assert ChoosesIn(s, e, g.serial, g.state);
    }
  }

  ghost predicate ConsumerMakes(s: Sys, e: Event, g: Guest, h: Guest)
    requires !e.Iterate?
  {
    match e
    case Init(_, _, _) => h == g
    case Request(ip, _, _) => h == if Chooses(s, e, g.serial) then Take(g, ip) else g
    case Free(serial, now) => h == if g.serial == serial then Freed(g, now) else g
    case Reuse(serial) => h == if g.serial == serial then Reused(g) else g
  }

  /** What a step can make of the guest `g`: `h`, in the words of the event. */
  ghost predicate Becomes(s: Sys, e: Event, g: Guest, h: Guest) {
    if e.Iterate? then Outlives(s.pool, e.answers, g, h) else ConsumerMakes(s, e, g, h)
  }

  /** Every guest after a step was there before it, or was just made. */
  lemma Origin(s: Sys, e: Event, t: Sys, h: Guest)
    requires Inv(s) && CanStep(s, e, t) && h in t.pool.guests
    ensures (e.Iterate? && IsNew(h, s.pool.born))
         || exists g :: g in s.pool.guests && g.serial == h.serial && GuestOk(g, s.pool.born, s.leases) && Becomes(s, e, g, h)
  {
    hide GuestOk, Aged, Select, ConsumerMakes;
    if e.Iterate? {
      IterateOrigin(s, e.answers, h);
      if !IsNew(h, s.pool.born) {
        var g :| g in s.pool.guests && Outlives(s.pool, e.answers, g, h);
        MemberOk(s, g);
        OutlivesSerial(s.pool, e.answers, g, h);
        assert Becomes(s, e, g, h);
      }
    } else {
      ConsumerStep(s, e, t, h);
      var g :| g in s.pool.guests && g.serial == h.serial && ConsumerMakes(s, e, g, h);
      MemberOk(s, g);
      assert Becomes(s, e, g, h);
    }
  }

  lemma OutlivesSerial(p: Pool, a: Answers, g: Guest, h: Guest)
    requires Outlives(p, a, g, h)
    ensures h.serial == g.serial
  {
  }

  lemma MemberOk(s: Sys, g: Guest)
    requires Inv(s) && g in s.pool.guests
    ensures GuestOk(g, s.pool.born, s.leases) && g.state != Destroyed
  {
    var i :| 0 <= i < |s.pool.guests| && s.pool.guests[i] == g;
  }

  // ---------------------------------------------------------------- in use with nobody connected

  ghost predicate Stranded(s: Sys, serial: nat) {
    exists g :: g in s.pool.guests && g.serial == serial && g.state == Using && g.connected == 0
  }

  /** Nobody shares: who is in use has one connection and remembers a state in which nobody used it. */
  ghost predicate Unshared(g: Guest) {
    && (g.state == Using ==> g.connected > 0)
    && (g.connected > 0 ==> g.connected == 1 && (g.prev == Some(Available) || g.prev == Some(Used)))
  }

  lemma UnsharedStep(s: Sys, e: Event, g: Guest, h: Guest)
    requires Becomes(s, e, g, h) && g in s.pool.guests && Inv(s) && GuestOk(g, s.pool.born, s.leases)
    requires Unshared(g) && !ChoosesIn(s, e, g.serial, Using)
    ensures Unshared(h)
  {
    if e.Iterate? {
      hide Inv, GuestOk;
    } else {
      hide Outlives;
      ChosenGuest(s, e, g);
      if Chooses(s, e, g.serial) {
        SelectedIsUsable(s, e);
      }
    }
  }

  lemma SelectedIsUsable(s: Sys, e: Event)
    requires e.Request? && Select(s.pool, e.ip).Chosen?
    ensures Usable(s.pool.guests[Select(s.pool, e.ip).index].state)
  {
  }

  /** If no request is ever served by a guest that is already in use, then in every state of the run every guest
      in use has a connection: nothing is stranded. */
  lemma {:induction false} UnsharedRunStrandsNothing(states: seq<Sys>, events: seq<Event>, i: nat)
    requires IsRun(states, events) && states[0] == INITIAL && i <= |events|
    requires forall k, serial | 0 <= k < i :: !ChoosesIn(states[k], events[k], serial, Using)
    ensures forall g | g in states[i].pool.guests :: Unshared(g)
    ensures forall serial :: !Stranded(states[i], serial)
  {
    hide Inv, CanStep, Becomes, GuestOk;
    if i > 0 {
      UnsharedRunStrandsNothing(states, events, i - 1);
      RunInv(states, events, i - 1);
      var s, e, t := states[i - 1], events[i - 1], states[i];
      assert CanStep(s, e, t);
      forall h | h in t.pool.guests ensures Unshared(h) {
        Origin(s, e, t, h);
        if !(e.Iterate? && IsNew(h, s.pool.born)) {
          var g :| g in s.pool.guests && g.serial == h.serial && GuestOk(g, s.pool.born, s.leases) && Becomes(s, e, g, h);
          UnsharedStep(s, e, g, h);
        }
      }
    }
  }

  /** The latest request that this guest served before step `i` found it in state `st`. */
  ghost predicate LatestFound(states: seq<Sys>, events: seq<Event>, i: nat, serial: nat, st: VmState)
    requires i <= |events| <= |states|
  {
    exists j :: 0 <= j < i && ChoosesIn(states[j], events[j], serial, st) && NoneAfter(states, events, j, i, serial)
  }

  ghost predicate NoneAfter(states: seq<Sys>, events: seq<Event>, j: nat, i: nat, serial: nat)
    requires i <= |events| <= |states|
  {
    forall m | j < m < i :: !Chooses(states[m], events[m], serial)
  }

  ghost predicate Remembers(states: seq<Sys>, events: seq<Event>, i: nat, g: Guest)
    requires i <= |events| <= |states|
  {
    g.prev.Some? ==> LatestFound(states, events, i, g.serial, g.prev.value)
  }

  lemma PrevStep(s: Sys, e: Event, g: Guest, h: Guest)
    requires Becomes(s, e, g, h)
    ensures if Chooses(s, e, g.serial) then h.prev == Some(g.state) else h.prev == None || h.prev == g.prev
  {
    hide Chooses;
    if e.Iterate? {
      NotChosen(s, e, g.serial);
    } else if !e.Request? {
      NotChosen(s, e, g.serial);
    }
  }

  lemma NotChosen(s: Sys, e: Event, serial: nat)
    requires !e.Request?
    ensures !Chooses(s, e, serial)
  {
  }

  lemma RemembersStep(states: seq<Sys>, events: seq<Event>, i: nat, g: Guest, h: Guest)
    requires |states| == |events| + 1 && i < |events| && Inv(states[i])
    requires g in states[i].pool.guests && g.serial == h.serial && Becomes(states[i], events[i], g, h)
    requires Remembers(states, events, i, g)
    ensures Remembers(states, events, i + 1, h)
  {
    hide Inv, ChoosesIn, Outlives;
    var s, e := states[i], events[i];
    ChosenGuest(s, e, g);
    PrevStep(s, e, g, h);
    if Chooses(s, e, g.serial) {
      assert ChoosesIn(states[i], events[i], h.serial, g.state) && NoneAfter(states, events, i, i + 1, h.serial);
    } else if g.prev.Some? {
      var j :| 0 <= j < i && ChoosesIn(states[j], events[j], g.serial, g.prev.value) && NoneAfter(states, events, j, i, g.serial);
      assert NoneAfter(states, events, j, i + 1, g.serial);
    }
  }

  /** In every state of every run, `prev_state` is what the latest request found. */
  lemma {:induction false} PrevIsWhatTheLatestFound(states: seq<Sys>, events: seq<Event>, i: nat, h: Guest)
    requires IsRun(states, events) && states[0] == INITIAL && i <= |events| && h in states[i].pool.guests
    ensures Remembers(states, events, i, h)
  {
    hide Inv, CanStep, Becomes, GuestOk, Remembers;
    if i > 0 {
      RunInv(states, events, i - 1);
      var s, e, t := states[i - 1], events[i - 1], states[i];
      assert CanStep(s, e, t);
      Origin(s, e, t, h);
      if e.Iterate? && IsNew(h, s.pool.born) {
        NothingToRemember(states, events, i, h);
      } else {
        var g :| g in s.pool.guests && g.serial == h.serial && GuestOk(g, s.pool.born, s.leases) && Becomes(s, e, g, h);
        PrevIsWhatTheLatestFound(states, events, i - 1, g);
        RemembersStep(states, events, i - 1, g, h);
      }
    }
  }

  lemma NothingToRemember(states: seq<Sys>, events: seq<Event>, i: nat, h: Guest)
    requires i <= |events| <= |states| && h.prev == None
    ensures Remembers(states, events, i, h)
  {
  }

  lemma LatestIsOne(states: seq<Sys>, events: seq<Event>, i: nat, serial: nat, a: VmState, b: VmState)
    requires i <= |events| <= |states|
    requires LatestFound(states, events, i, serial, a) && LatestFound(states, events, i, serial, b)
    ensures a == b
  {
    hide ChoosesIn;
    var j :| 0 <= j < i && ChoosesIn(states[j], events[j], serial, a) && NoneAfter(states, events, j, i, serial);
    var k :| 0 <= k < i && ChoosesIn(states[k], events[k], serial, b) && NoneAfter(states, events, k, i, serial);
    assert Chooses(states[j], events[j], serial) && Chooses(states[k], events[k], serial);
    FoundInOne(states[j], events[j], serial, a, b);
  }

  lemma FoundInOne(s: Sys, e: Event, serial: nat, a: VmState, b: VmState)
    requires ChoosesIn(s, e, serial, a)
    ensures ChoosesIn(s, e, serial, b) <==> a == b
  {
  }

  /** A step leaves a guest in use with nobody connected, that was not so before, exactly when it hands the last
      connection back unused and the latest request had found the guest already in use. */
  lemma StrandedIff(states: seq<Sys>, events: seq<Event>, i: nat, serial: nat)
    requires IsRun(states, events) && states[0] == INITIAL && i < |events| && !Stranded(states[i], serial)
    ensures Stranded(states[i + 1], serial) <==>
              && events[i] == Reuse(serial) && states[i].leases[serial] == 1
              && (exists g :: g in states[i].pool.guests && g.serial == serial)
              && LatestFound(states, events, i, serial, Using)
  {
    hide Inv, CanStep, LatestFound;
    RunInv(states, events, i);
    var s, e, t := states[i], events[i], states[i + 1];
    assert CanStep(s, e, t);
    if Stranded(t, serial) {
      var h :| h in t.pool.guests && h.serial == serial && h.state == Using && h.connected == 0;
      Origin(s, e, t, h);
      var g :| g in s.pool.guests && g.serial == h.serial && GuestOk(g, s.pool.born, s.leases) && Becomes(s, e, g, h);
      StrandingStep(s, e, g, h);
      PrevIsWhatTheLatestFound(states, events, i, g);
    }
    if e == Reuse(serial) && s.leases[serial] == 1 && LatestFound(states, events, i, serial, Using) {
      if g :| g in s.pool.guests && g.serial == serial {
        PrevIsWhatTheLatestFound(states, events, i, g);
        ReusedPrev(s, g);
        LatestIsOne(states, events, i, serial, g.prev.value, Using);
        LastReuse(s, e, t, g);
      }
    }
  }

  lemma StrandingStep(s: Sys, e: Event, g: Guest, h: Guest)
    requires Becomes(s, e, g, h) && GuestOk(g, s.pool.born, s.leases)
    requires h.state == Using && h.connected == 0 && !(g.state == Using && g.connected == 0)
    ensures e == Reuse(g.serial) && s.leases[g.serial] == 1 && g.prev == Some(Using)
  {
  }

  lemma ReusedPrev(s: Sys, g: Guest)
    requires Inv(s) && g in s.pool.guests && s.leases[g.serial] == 1
    ensures g.connected == 1 && g.prev.Some?
  {
    MemberOk(s, g);
  }

  /** The last connection handed back unused puts the guest into the state it remembers. */
  lemma LastReuse(s: Sys, e: Event, t: Sys, g: Guest)
    requires Inv(s) && CanStep(s, e, t) && g in s.pool.guests && e == Reuse(g.serial) && g.connected == 1
    ensures Reused(g) in t.pool.guests
  {
    hide Inv, CanStep;
    var k :| 0 <= k < |s.pool.guests| && s.pool.guests[k] == g;
    ConsumerAt(s, e, t, k);
    assert t.pool.guests[k] == Reused(g);
  }

  /** Nothing but a request served by it, or a failing health check, ever ends this state. */
  ghost predicate LeavesAlone(s: Sys, e: Event, g: Guest) {
    !Chooses(s, e, g.serial) && (e.Iterate? ==> e.answers.alive(g.ip))
  }

  lemma StrandedStep(s: Sys, e: Event, t: Sys, g: Guest)
    requires Inv(s) && CanStep(s, e, t) && g in s.pool.guests && g.state == Using && g.connected == 0
    requires LeavesAlone(s, e, g)
    ensures g in t.pool.guests
  {
    hide Inv, Select, Take, Freed, Reused;
    if e.Iterate? {
      HealthyUse(s.pool, e.answers, g);
      IterateKeepsGuest(s, e.answers, g);
    } else {
      MemberOk(s, g);
      UntouchedGuest(s, e, t, g);
    }
  }

  lemma HealthyUse(p: Pool, a: Answers, g: Guest)
    requires g.state == Using && a.alive(g.ip)
    ensures Aged(p, a, g) == g
  {
  }

  /** A consumer call leaves a guest as it is that it does not choose and that has nothing to give back. */
  lemma UntouchedGuest(s: Sys, e: Event, t: Sys, g: Guest)
    requires Inv(s) && CanStep(s, e, t) && !e.Iterate? && g in s.pool.guests && g.connected == 0 && !Chooses(s, e, g.serial)
    ensures g in t.pool.guests
  {
    hide Inv, CanStep, Select, Chooses, ChoosesIn;
    var k :| 0 <= k < |s.pool.guests| && s.pool.guests[k] == g;
    MemberOk(s, g);
    ToGiveBack(s, e, t);
    ConsumerAt(s, e, t, k);
    ServedIs(s, e, k);
    assert t.pool.guests[k] == g;
  }

  /** A guest in use with nobody connected stays so for as long as no request is served by it and its health
      checks succeed, however long that is: no age ever condemns it and no iteration destroys it. */
  lemma {:induction false} StrandedStays(states: seq<Sys>, events: seq<Event>, i: nat, j: nat, g: Guest)
    requires IsRun(states, events) && i <= j <= |events|
    requires g in states[i].pool.guests && g.state == Using && g.connected == 0
    requires forall k | i <= k < j :: LeavesAlone(states[k], events[k], g)
    ensures g in states[j].pool.guests
    decreases j - i
  {
    hide Inv, CanStep, LeavesAlone;
    if i < j {
      StrandedStays(states, events, i, j - 1, g);
      RunInv(states, events, j - 1);
      assert CanStep(states[j - 1], events[j - 1], states[j]);
      StrandedStep(states[j - 1], events[j - 1], states[j], g);
    }
  }

  // ---------------------------------------------------------------- back from being condemned

  ghost predicate InState(s: Sys, serial: nat, usable: bool) {
    exists g :: g in s.pool.guests && g.serial == serial && (if usable then Usable(g.state) else g.state == Unavailable)
  }

  /** A condemned guest can be used again after a step exactly when the step gives back its last connection. */
  lemma RevivedIff(s: Sys, e: Event, t: Sys, serial: nat)
    requires Inv(s) && CanStep(s, e, t) && InState(s, serial, false)
    ensures InState(t, serial, true) <==> (e.Free? || e.Reuse?) && e.serial == serial && s.leases[serial] == 1
  {
    var g :| g in s.pool.guests && g.serial == serial && g.state == Unavailable;
    if InState(t, serial, true) {
      var h :| h in t.pool.guests && h.serial == serial && Usable(h.state);
      Origin(s, e, t, h);
      MemberOk(s, g);
      assert !(e.Iterate? && IsNew(h, s.pool.born));
      var g' :| g' in s.pool.guests && g'.serial == h.serial && GuestOk(g', s.pool.born, s.leases) && Becomes(s, e, g', h);
      SameGuest(s, g, g');
      RevivingStep(s, e, g, h);
    }
    if (e.Free? || e.Reuse?) && e.serial == serial && s.leases[serial] == 1 {
      GivenBack(s, e, t, g);
    }
  }

  lemma SameGuest(s: Sys, g: Guest, h: Guest)
    requires Inv(s) && g in s.pool.guests && h in s.pool.guests && g.serial == h.serial
    ensures g == h
  {
  }

  lemma RevivingStep(s: Sys, e: Event, g: Guest, h: Guest)
    requires Inv(s) && g in s.pool.guests && Becomes(s, e, g, h) && GuestOk(g, s.pool.born, s.leases)
    requires g.state == Unavailable && Usable(h.state)
    ensures (e.Free? || e.Reuse?) && e.serial == g.serial && s.leases[g.serial] == 1
  {
    ChosenGuest(s, e, g);
    if Chooses(s, e, g.serial) {
      SelectedIsUsable(s, e);
    }
  }

  lemma GivenBack(s: Sys, e: Event, t: Sys, g: Guest)
    requires Inv(s) && CanStep(s, e, t) && g in s.pool.guests && (e.Free? || e.Reuse?) && e.serial == g.serial
    requires s.leases[g.serial] == 1
    ensures InState(t, g.serial, true)
  {
    hide Inv, CanStep;
    MemberOk(s, g);
    var k :| 0 <= k < |s.pool.guests| && s.pool.guests[k] == g;
    ConsumerAt(s, e, t, k);
    var h := if e.Free? then Freed(g, e.now) else Reused(g);
    assert t.pool.guests[k] == h && h in t.pool.guests;
  }

  // ---------------------------------------------------------------- retirement, exactly

  /** If qemu does what it is asked to, an iteration gets rid of a condemned guest that nobody is connected to exactly
      if the pool held at least two guests, whatever `max_vm` is. */
  lemma IdleIsGoneIff(s: Sys, a: Answers, serial: nat)
    requires Inv(s) && Enabled(s, Iterate(a)) && HasIdle(s, serial) && QemuObeys(a)
    ensures Without(Step(s, Iterate(a)).pool.guests, serial) <==> |s.pool.guests| >= 2
  {
    hide Inv, Enabled, Step, Aged;
    if |s.pool.guests| >= 2 {
      hide HasIdle, QemuObeys;
      IterationRetiresIdle(s, a, serial);
    } else {
      var k :| 0 <= k < |s.pool.guests| && Idle(s.pool.guests[k], serial);
      var g := s.pool.guests[k];
      AllExist(s);
      OneStays(s.pool, a, g);
      IterateKeepsGuest(s, a, g);
    }
  }

  lemma OneStays(p: Pool, a: Answers, g: Guest)
    requires ExistingSize(p.guests) <= 1 && g.state == Unavailable
    ensures Aged(p, a, g) == g
  {
  }

  // ---------------------------------------------------------------- a pool of one

  /** One guest, condemned and with nobody connected, in a pool that wants no more than one. */
  ghost predicate StuckWith(s: Sys, g: Guest) {
    s.pool.guests == [g] && g.state == Unavailable && g.connected == 0 && s.pool.maxVm <= 1
  }

  lemma StuckStep(s: Sys, e: Event, t: Sys, g: Guest)
    requires Inv(s) && CanStep(s, e, t) && StuckWith(s, g) && (e.Init? ==> e.maxVm <= 1)
    ensures StuckWith(t, g) && forall k :: t.leases[k] <= s.leases[k]
  {
    if e.Iterate? {
      StuckIterate(s, e.answers, g);
    } else {
      assert g in s.pool.guests;
      if e.Request? {
        StuckRequest(s, e, t, g);
      } else {
        NotChosen(s, e, g.serial);
        UntouchedGuest(s, e, t, g);
        SameLength(s, e, t);
        StuckRest(s, e, t);
      }
    }
  }

  lemma StuckRest(s: Sys, e: Event, t: Sys)
    requires CanStep(s, e, t) && !e.Iterate? && !e.Request? && (e.Init? ==> e.maxVm <= 1) && s.pool.maxVm <= 1
    ensures t.pool.maxVm <= 1 && forall k :: t.leases[k] <= s.leases[k]
  {
  }

  lemma StuckIterate(s: Sys, a: Answers, g: Guest)
    requires StuckWith(s, g) && Enabled(s, Iterate(a))
    ensures StuckWith(Step(s, Iterate(a)), g)
  {
    assert s.pool.guests[1..] == [];
    assert ExistingSize([g]) == 1;
    var p1 := Retire(s.pool, a);
    assert p1.guests == [g] by {
      var checked := Each(s.pool.guests, Health(a.alive));
      assert checked == [g];
    }
    assert a.made == [];
    assert Each([g], Boot(a.booted)) == [g];
  }

  /** Since nothing is marked or destroyed while only one guest exists, such a pool is stuck: the guest is never
      replaced, and no request is ever granted again. */
  lemma {:induction false} PoolOfOneIsStuck(states: seq<Sys>, events: seq<Event>, i: nat, g: Guest)
    requires IsRun(states, events) && i <= |events| && StuckWith(states[0], g)
    requires forall k | 0 <= k < |events| && events[k].Init? :: events[k].maxVm <= 1
    ensures StuckWith(states[i], g)
    ensures i < |events| && events[i].Request? ==> states[i + 1].leases == states[i].leases
  {
    hide Inv, CanStep;
    if i > 0 {
      PoolOfOneIsStuck(states, events, i - 1, g);
      RunInv(states, events, i - 1);
      assert CanStep(states[i - 1], events[i - 1], states[i]);
      StuckStep(states[i - 1], events[i - 1], states[i], g);
    }
    if i < |events| && events[i].Request? {
      assert CanStep(states[i], events[i], states[i + 1]);
      StuckRequest(states[i], events[i], states[i + 1], g);
    }
  }

  lemma StuckRequest(s: Sys, e: Event, t: Sys, g: Guest)
    requires StuckWith(s, g) && e.Request? && CanStep(s, e, t)
    ensures t == s
  {
    assert !Select(s.pool, e.ip).Chosen?;
  }
}
