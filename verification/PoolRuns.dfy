/** What follows from the invariant of PoolSystem: statements about every state of every run. */
module PoolRuns {
  import opened Wrappers
  import opened PoolModel
  import opened PoolSystem

  /** A run: a start state satisfying the invariant, and steps each of which was possible. */
  ghost predicate IsRun(states: seq<Sys>, events: seq<Event>) {
    && |states| == |events| + 1 && Inv(states[0])
    && forall i | 0 <= i < |events| :: CanStep(states[i], events[i], states[i + 1])
  }

  ghost predicate CanStep(s: Sys, e: Event, t: Sys) {
    && Enabled(s, e)
    && (e.Free? ==> Id(e.serial) in s.table.bindings)
    && (e.Reuse? ==> Id(e.serial) in s.table.bindings)
    && t == Step(s, e)
  }

  lemma {:induction false} RunInv(states: seq<Sys>, events: seq<Event>, i: nat)
    requires IsRun(states, events) && i <= |events|
    ensures Inv(states[i])
  {
    hide Inv, Enabled, Step;
    if i > 0 {
      RunInv(states, events, i - 1);
      assert CanStep(states[i - 1], events[i - 1], states[i]);
      StepKeeps(states[i - 1], events[i - 1]);
    }
  }

  // ---------------------------------------------------------------- NAT and leases

  /** In every state: a guest's id is bound exactly while connections to it are out, and the count is theirs. */
  lemma BindingsFollowLeases(s: Sys, i: nat)
    requires Inv(s) && i < |s.pool.guests|
    ensures var g := s.pool.guests[i];
            && g.connected == s.leases[g.serial]
            && (g.id in s.table.bindings <==> g.connected > 0)
            && (g.connected > 0 ==> s.table.bindings[g.id].count == g.connected)
  {
    assert GuestOk(s.pool.guests[i], s.pool.born, s.leases);
    BoundIffLeased(s, s.pool.guests[i].serial);
  }

  /** Also for a guest that was destroyed under its clients: the binding lasts until the last lease is back. */
  lemma BindingsFollowOrphans(s: Sys, serial: nat)
    requires Inv(s) && serial < s.pool.born && s.pool.born - serial <= ID_SPACE
    ensures Id(serial) in s.table.bindings <==> serial in s.leases
    ensures serial in s.leases ==> s.table.bindings[Id(serial)].count == s.leases[serial]
  {
    BoundIffLeased(s, serial);
  }

  ghost predicate Apart(b: map<nat, Binding>) {
    && (forall id | id in b :: b[id].ssh != b[id].telnet)
    && (forall i, j, p | i in b && j in b && UsesPort(b[i], p) && UsesPort(b[j], p) :: i == j)
  }

  lemma PortsSplit(b: map<nat, Binding>, id: nat)
    requires Apart(b) && id in b
    ensures var rest := b - {id};
            && PortsOf(b) == PortsOf(rest) + {b[id].ssh, b[id].telnet}
            && b[id].ssh !in PortsOf(rest) && b[id].telnet !in PortsOf(rest) && b[id].ssh != b[id].telnet
  {
    var rest := b - {id};
    assert UsesPort(b[id], b[id].ssh) && UsesPort(b[id], b[id].telnet);
    forall i | i in rest ensures rest[i] == b[i] && b[i].ssh !in {b[id].ssh, b[id].telnet} && b[i].telnet !in {b[id].ssh, b[id].telnet} {
      assert UsesPort(b[i], b[i].ssh) && UsesPort(b[i], b[i].telnet);
    }
    forall p | p in PortsOf(b) ensures p in PortsOf(rest) + {b[id].ssh, b[id].telnet} {
      var i :| i in b && UsesPort(b[i], p);
      assert i != id ==> i in rest;
    }
  }

  lemma {:induction false} PortCount(b: map<nat, Binding>)
    requires Apart(b)
    ensures |PortsOf(b)| == 2 * |b|
    decreases |b|
  {
    if b == map[] {
      assert PortsOf(b) == {};
    } else {
      var id :| id in b;
      PortsSplit(b, id);
      hide PortsOf;
      PortCount(b - {id});
    }
  }

  /** In every state, exactly two listeners are open per binding, and no others. */
  lemma TwoListenersPerBinding(s: Sys)
    requires Inv(s)
    ensures |s.table.open| == 2 * |s.table.bindings|
  {
    PortCount(s.table.bindings);
  }

  ghost predicate SamePorts(a: Binding, b: Binding) {
    a.ssh == b.ssh && a.telnet == b.telnet
  }

  lemma LeaseFacts(s: Sys, serial: nat)
    requires Inv(s) && serial in s.leases
    ensures serial < s.pool.born && s.pool.born - serial <= ID_SPACE && Id(serial) in s.table.bindings
  {
  }

  lemma PortsStay(s: Sys, e: Event, t: Sys, serial: nat)
    requires Inv(s) && CanStep(s, e, t) && serial in s.leases && serial in t.leases
    ensures Inv(t) && Id(serial) in s.table.bindings && Id(serial) in t.table.bindings
    ensures SamePorts(s.table.bindings[Id(serial)], t.table.bindings[Id(serial)])
  {
    hide Id, Inv, Produce, Select, Take, FreeGuest, ReuseGuest;
    StepKeeps(s, e);
    LeaseFacts(s, serial);
    LeaseFacts(t, serial);
  }

  /** While a guest stays leased its two public ports never change, whoever else comes and goes. */
  lemma {:induction false} PortsNeverChange(states: seq<Sys>, events: seq<Event>, i: nat, j: nat, serial: nat)
    requires IsRun(states, events) && i <= j <= |events|
    requires forall k | i <= k <= j :: serial in states[k].leases
    ensures Inv(states[j]) && Id(serial) in states[i].table.bindings && Id(serial) in states[j].table.bindings
    ensures SamePorts(states[i].table.bindings[Id(serial)], states[j].table.bindings[Id(serial)])
    decreases j - i
  {
    hide Inv, CanStep, Id;
    if i < j {
      PortsNeverChange(states, events, i, j - 1, serial);
      assert CanStep(states[j - 1], events[j - 1], states[j]);
      PortsStay(states[j - 1], events[j - 1], states[j], serial);
    } else {
      RunInv(states, events, i);
      LeaseFacts(states[i], serial);
    }
  }

  /** Nothing stays open once every guest is given back. */
  lemma NothingLeaks(s: Sys)
    requires Inv(s) && s.leases == multiset{}
    ensures s.table == Nat(map[], {})
  {
    assert forall id | id in s.table.bindings :: exists k :: k in s.leases && Id(k) == id;
    TwoListenersPerBinding(s);
  }

  // ---------------------------------------------------------------- guest states

  /** In every state: a guest that is being booted, free or merely used has no connection; one with
      connections is in use or condemned, and remembers a state it can go back to. */
  lemma ConnectedStates(s: Sys, i: nat)
    requires Inv(s) && i < |s.pool.guests|
    ensures var g := s.pool.guests[i];
            && g.connected >= 0 && g.state != Destroyed
            && (g.state in {Created, Available, Used} ==> g.connected == 0)
            && (g.connected > 0 ==> g.state in {Using, Unavailable} && g.prev.Some? && g.prev.value in {Available, Using, Used})
  {
    assert GuestOk(s.pool.guests[i], s.pool.born, s.leases);
  }

  /** So marking by age never condemns a guest that has a client, although it does not look. */
  lemma TimeOutSparesConnected(s: Sys, i: nat, now: string -> int)
    requires Inv(s) && i < |s.pool.guests| && s.pool.guests[i].connected > 0
    ensures TimeOut(s.pool.timeout, now)(s.pool.guests[i]) == s.pool.guests[i]
  {
    assert GuestOk(s.pool.guests[i], s.pool.born, s.leases);
  }

  // ---------------------------------------------------------------- size

  lemma {:induction false} FilterAll(gs: seq<Guest>, p: Guest -> bool)
    requires forall i | 0 <= i < |gs| :: p(gs[i])
    ensures Filter(gs, p) == gs
  {
    if gs != [] {
      FilterAll(gs[1..], p);
    }
  }

  /** Ips are pairwise distinct and drawn from a table of 253: the pool can hold no more guests. */
  lemma Capacity(s: Sys)
    requires Inv(s)
    ensures |s.pool.guests| <= 253
  {
    hide Table, Ips;
    var gs := s.pool.guests;
    DistinctCount(gs);
    IpsInTable(s);
    SubsetSize(Ips(gs), TABLE);
    TableSize(255);
  }

  ghost function Ips(gs: seq<Guest>): set<string> {
    set i | 0 <= i < |gs| :: gs[i].ip
  }

  lemma IpsInTable(s: Sys)
    requires Inv(s)
    ensures Ips(s.pool.guests) <= TABLE
  {
    var gs := s.pool.guests;
    forall i | 0 <= i < |gs| ensures gs[i].ip in TABLE {
      assert GuestOk(gs[i], s.pool.born, s.leases);
    }
  }

  lemma {:induction false} DistinctCount(gs: seq<Guest>)
    requires forall i, j | 0 <= i < j < |gs| :: gs[i].ip != gs[j].ip
    ensures |Ips(gs)| == |gs|
  {
    if gs != [] {
      var rest := gs[..|gs| - 1];
      DistinctCount(rest);
      var last := gs[|gs| - 1].ip;
      assert Ips(gs) == Ips(rest) + {last} by {
        assert forall i | 0 <= i < |rest| :: rest[i] == gs[i];
      }
      assert last !in Ips(rest);
    }
  }

  lemma {:induction false} SubsetSize<T>(a: set<T>, b: set<T>)
    requires a <= b
    ensures |a| <= |b|
  {
    if a != {} {
      var x :| x in a;
      SubsetSize(a - {x}, b - {x});
    }
  }

  lemma {:induction false} TableSize(n: nat)
    ensures |Table(n)| <= if n < 2 then 0 else n - 2
  {
    if n <= 2 {
      assert Table(n) == {};
    } else {
      TableSize(n - 1);
      assert Table(n) == Table(n - 1) + {TableIp(n - 1)};
    }
  }

  /** Creation succeeded as often as the iteration asked for it. */
  ghost predicate Filled(s: Sys, a: Answers) {
    |a.made| == Missing(Retire(s.pool, a))
  }

  lemma RetiredSize(s: Sys, a: Answers)
    requires Inv(s)
    ensures var gs := Retire(s.pool, a).guests; |gs| <= |s.pool.guests| && ExistingSize(gs) == |gs|
  {
    hide Inv, Cull, Health, Each;
    assert PoolOk(s.pool, s.leases) by { InvPool(s); }
    RetireKeeps(s.pool, a, s.leases);
    FilterAll(Retire(s.pool, a).guests, Exists);
    assert |Cull(s.pool, a)| == |s.pool.guests| by { CullSize(s.pool, a); }
  }

  lemma InvPool(s: Sys)
    requires Inv(s)
    ensures PoolOk(s.pool, s.leases) && NoneDestroyed(s.pool.guests)
  {
  }

  lemma CullSize(p: Pool, a: Answers)
    ensures |Cull(p, a)| == |p.guests|
  {
  }

  ghost predicate NoneDestroyed(gs: seq<Guest>) {
    forall i | 0 <= i < |gs| :: gs[i].state != Destroyed
  }

  /** An iteration that can create brings the pool to `max_vm`, or leaves what survived if that is more. */
  lemma IterationSize(s: Sys, a: Answers)
    requires Inv(s) && Enabled(s, Iterate(a)) && Filled(s, a)
    ensures var left := |Retire(s.pool, a).guests|;
            var t := Step(s, Iterate(a));
            && left <= |s.pool.guests|
            && |t.pool.guests| == (if left < s.pool.maxVm then s.pool.maxVm else left)
            && NoneDestroyed(t.pool.guests)
  {
    IterateKeeps(s, a);
    InvPool(Step(s, Iterate(a)));
    RetiredSize(s, a);
    CreateFacts(Retire(s.pool, a), a.made);
    hide Inv, Enabled, Cull, Create, ExistingSize, NoneDestroyed, FreshIps;
  }

  lemma SizeStep(s: Sys, e: Event, t: Sys)
    requires Inv(s) && CanStep(s, e, t) && |s.pool.guests| <= s.pool.maxVm
    requires e.Init? ==> e.maxVm >= s.pool.maxVm
    requires e.Iterate? ==> Filled(s, e.answers)
    ensures |t.pool.guests| <= t.pool.maxVm
    ensures e.Iterate? ==> |t.pool.guests| == t.pool.maxVm
  {
    hide Inv, Enabled;
    if e.Iterate? {
      IterationSize(s, e.answers);
      CreateFacts(Retire(s.pool, e.answers), e.answers.made);
    }
  }

  /** From a fresh start, with `max_vm` never lowered and creation always succeeding, no state holds more
      than `max_vm` guests and every iteration ends with exactly that many. */
  lemma {:induction false} PoolStaysFull(states: seq<Sys>, events: seq<Event>, i: nat)
    requires IsRun(states, events) && i <= |events| && states[0] == INITIAL
    requires forall k | 0 <= k < |events| && events[k].Init? :: events[k].maxVm >= states[k].pool.maxVm
    requires forall k | 0 <= k < |events| && events[k].Iterate? :: Filled(states[k], events[k].answers)
    ensures |states[i].pool.guests| <= states[i].pool.maxVm
    ensures i > 0 && events[i - 1].Iterate? ==> |states[i].pool.guests| == states[i].pool.maxVm
  {
    hide Inv, CanStep, Filled;
    if i > 0 {
      PoolStaysFull(states, events, i - 1);
      RunInv(states, events, i - 1);
      assert CanStep(states[i - 1], events[i - 1], states[i]);
      SizeStep(states[i - 1], events[i - 1], states[i]);
    }
  }

  // ---------------------------------------------------------------- retirement

  /** A condemned guest nobody is connected to. */
  ghost predicate Idle(g: Guest, serial: nat) {
    g.serial == serial && g.state == Unavailable && g.connected == 0
  }

  ghost predicate HasIdle(s: Sys, serial: nat) {
    exists i :: 0 <= i < |s.pool.guests| && Idle(s.pool.guests[i], serial)
  }

  /** What a consumer call makes of the guest at place `k`. */
  ghost function Served(s: Sys, e: Event, k: nat): Guest
    requires k < |s.pool.guests| && !e.Iterate?
  {
    var g := s.pool.guests[k];
    match e
    case Init(_, _, _) => g
    case Request(ip, _, _) => if Select(s.pool, ip) == Chosen(k) then Take(g, ip) else g
    case Free(serial, now) => if g.serial == serial then Freed(g, now) else g
    case Reuse(serial) => if g.serial == serial then Reused(g) else g
  }

  /** Ids being what they are, a call changes the guest it is about, and no other. */
  lemma ConsumerAt(s: Sys, e: Event, t: Sys, k: nat)
    requires Inv(s) && CanStep(s, e, t) && !e.Iterate? && k < |s.pool.guests|
    ensures |t.pool.guests| == |s.pool.guests| && t.pool.guests[k] == Served(s, e, k)
  {
    hide Select, Freed, Reused, Take, FirstWhere, RequestBinding, FreeBinding, Id;
    if e.Free? || e.Reuse? {
      FirstWithId(s, e.serial);
    }
    hide Inv;
  }

  /** No consumer can touch it. */
  lemma ConsumersLeaveIdle(s: Sys, e: Event, t: Sys, serial: nat)
    requires Inv(s) && CanStep(s, e, t) && !e.Iterate? && HasIdle(s, serial)
    ensures HasIdle(t, serial) && |t.pool.guests| == |s.pool.guests|
  {
    hide CanStep, Select;
    var k :| 0 <= k < |s.pool.guests| && Idle(s.pool.guests[k], serial);
    assert GuestOk(s.pool.guests[k], s.pool.born, s.leases);
    assert (e.Free? || e.Reuse?) ==> e.serial in s.leases by { ToGiveBack(s, e, t); }
    ConsumerAt(s, e, t, k);
    hide Inv;
    assert Idle(t.pool.guests[k], serial);
  }

  lemma ToGiveBack(s: Sys, e: Event, t: Sys)
    requires CanStep(s, e, t)
    ensures e.Free? || e.Reuse? ==> e.serial in s.leases
  {
  }

  /** What an iteration makes of one guest before it removes the destroyed ones. */
  lemma RetiredState(p: Pool, a: Answers, k: nat)
    requires k < |p.guests| && ExistingSize(p.guests) > 1
    ensures var r := Each(Cull(p, a), Health(a.alive));
            && |r| == |p.guests| && r[k].serial == p.guests[k].serial
            && (p.guests[k].state == Unavailable && a.destroyed(p.guests[k].domain) ==> r[k].state == Destroyed)
  {
    var marked := Each(p.guests, TimeOut(p.timeout, a.now));
    assert marked[k] == TimeOut(p.timeout, a.now)(p.guests[k]);
    assert Cull(p, a)[k] == Destroy(a.destroyed)(marked[k]);
  }

  /** All guests but those with serial `serial`. */
  ghost predicate Without(gs: seq<Guest>, serial: nat) {
    forall i | 0 <= i < |gs| :: gs[i].serial != serial
  }

  /** The next iteration of a pool of two or more destroys and removes it. */
  lemma IterationRetiresIdle(s: Sys, a: Answers, serial: nat)
    requires Inv(s) && HasIdle(s, serial) && |s.pool.guests| >= 2 && QemuObeys(a)
    ensures Without(Step(s, Iterate(a)).pool.guests, serial)
  {
    hide Create, Cull, Health, Boot, Inv, HasIdle, Each;
    var p1 := Retire(s.pool, a);
    var checked := Each(Cull(s.pool, a), Health(a.alive));
    IdleIsDestroyed(s, a, serial);
    forall i | 0 <= i < |p1.guests| ensures p1.guests[i].serial != serial {
      assert p1.guests[i] in p1.guests;
      var j :| 0 <= j < |checked| && checked[j] == p1.guests[i];
    }
    assert serial < s.pool.born by { IdleSerial(s, serial); }
    CreateSerials(p1, a.made, serial);
    BootSerials(Create(p1, a.made).guests, a.booted);
  }

  lemma IdleSerial(s: Sys, serial: nat)
    requires Inv(s) && HasIdle(s, serial)
    ensures serial < s.pool.born
  {
    var k :| 0 <= k < |s.pool.guests| && Idle(s.pool.guests[k], serial);
    assert GuestOk(s.pool.guests[k], s.pool.born, s.leases);
  }

  /** In a state between steps every guest exists. */
  lemma AllExist(s: Sys)
    requires Inv(s)
    ensures ExistingSize(s.pool.guests) == |s.pool.guests|
  {
    FilterAll(s.pool.guests, Exists);
  }

  lemma SerialsDiffer(s: Sys, j: nat, k: nat)
    requires Inv(s) && j < |s.pool.guests| && k < |s.pool.guests| && s.pool.guests[j].serial == s.pool.guests[k].serial
    ensures j == k
  {
  }

  lemma IdleIsDestroyed(s: Sys, a: Answers, serial: nat)
    requires Inv(s) && HasIdle(s, serial) && |s.pool.guests| >= 2 && QemuObeys(a)
    ensures forall g | g in Each(Cull(s.pool, a), Health(a.alive)) :: g.serial == serial ==> g.state == Destroyed
  {
    hide Inv, Cull, Health, Each, ExistingSize;
    var k :| 0 <= k < |s.pool.guests| && Idle(s.pool.guests[k], serial);
    AllExist(s);
    var checked := Each(Cull(s.pool, a), Health(a.alive));
    RetiredState(s.pool, a, k);
    forall g | g in checked ensures g.serial == serial ==> g.state == Destroyed {
      var j :| 0 <= j < |checked| && checked[j] == g;
      RetiredState(s.pool, a, j);
      if g.serial == serial {
        SerialsDiffer(s, j, k);
      }
    }
  }

  /** qemu destroys what it is asked to. */
  ghost predicate QemuObeys(a: Answers) {
    forall d {:trigger a.destroyed(d)} :: a.destroyed(d)
  }

  lemma BootSerials(gs: seq<Guest>, alive: string -> bool)
    ensures forall i | 0 <= i < |gs| :: Each(gs, Boot(alive))[i].serial == gs[i].serial
  {
  }

  lemma {:induction false} CreateSerials(p: Pool, made: seq<Made>, serial: nat)
    requires serial < p.born && Without(p.guests, serial)
    ensures Without(Create(p, made).guests, serial)
    decreases |made|
  {
    if made != [] {
      CreateSerials(CreateOne(p, made[0]), made[1..], serial);
    }
  }

  /** A condemned idle guest of a pool of two or more is gone after the next iteration, whatever the consumers
      do before it. */
  lemma {:induction false} IdleIsGone(states: seq<Sys>, events: seq<Event>, serial: nat)
    requires IsRun(states, events) && |events| > 0
    requires forall k | 0 <= k < |events| - 1 :: !events[k].Iterate?
    requires events[|events| - 1].Iterate? && QemuObeys(events[|events| - 1].answers)
    requires HasIdle(states[0], serial) && |states[0].pool.guests| >= 2
    ensures Without(states[|events|].pool.guests, serial)
    decreases |events|
  {
    hide Inv, Enabled, Step, HasIdle, QemuObeys;
    assert CanStep(states[0], events[0], states[1]);
    if |events| == 1 {
      IterationRetiresIdle(states[0], events[0].answers, serial);
    } else {
      StepKeeps(states[0], events[0]);
      ConsumersLeaveIdle(states[0], events[0], states[1], serial);
      var later, rest := states[1..], events[1..];
      forall i | 0 <= i < |rest| ensures CanStep(later[i], rest[i], later[i + 1]) {
        assert CanStep(states[i + 1], events[i + 1], states[i + 1 + 1]);
      }
      IdleIsGone(later, rest, serial);
    }
  }

  lemma SubRun(states: seq<Sys>, events: seq<Event>, i: nat, j: nat)
    requires IsRun(states, events) && i <= j <= |events|
    ensures IsRun(states[i..j + 1], events[i..j])
  {
    RunInv(states, events, i);
    hide Inv, CanStep;
    forall k | 0 <= k < j - i ensures CanStep(states[i..j + 1][k], events[i..j][k], states[i..j + 1][k + 1]) {
      assert CanStep(states[i + k], events[i + k], states[i + k + 1]);
    }
  }

  /** From a fresh start with room for two or more, a condemned guest that nobody is connected to at the end of
      iteration `i` is gone after the next iteration `j`, whatever the consumers do in between. */
  lemma IdleGoneByNextIteration(states: seq<Sys>, events: seq<Event>, i: nat, j: nat, serial: nat)
    requires IsRun(states, events) && states[0] == INITIAL && i < j < |events|
    requires forall k | 0 <= k < |events| && events[k].Init? :: events[k].maxVm >= states[k].pool.maxVm
    requires forall k | 0 <= k < |events| && events[k].Iterate? :: Filled(states[k], events[k].answers)
    requires events[i].Iterate? && events[j].Iterate? && forall k | i < k < j :: !events[k].Iterate?
    requires QemuObeys(events[j].answers)
    requires HasIdle(states[i + 1], serial) && states[i + 1].pool.maxVm >= 2
    ensures Without(states[j + 1].pool.guests, serial)
  {
    hide Inv, CanStep, Filled, HasIdle, QemuObeys;
    PoolStaysFull(states, events, i + 1);
    SubRun(states, events, i + 1, j + 1);
    IdleIsGone(states[i + 1..j + 2], events[i + 1..j + 1], serial);
  }
}
