/** Pool, NAT table and clients together, as seen by the pool server with NAT on: what holds over every run
    in which each granted guest is given back exactly once. */
module PoolSystem {
  import opened Wrappers
  import opened PoolModel

  /** A NAT entry: how many connections use it, and the two listening ports. */
  datatype Binding = Binding(count: int, ssh: int, telnet: int)

  /** The NAT table, and the ports that are listened on. */
  datatype Nat = Nat(bindings: map<nat, Binding>, open: set<int>)

  function RequestBinding(n: Nat, id: nat, ssh: int, telnet: int): Nat {
    if id in n.bindings then n.(bindings := n.bindings[id := n.bindings[id].(count := n.bindings[id].count + 1)])
    else Nat(n.bindings[id := Binding(1, ssh, telnet)], n.open + {ssh, telnet})
  }

  function FreeBinding(n: Nat, id: nat): Nat
    requires id in n.bindings
  {
    var b := n.bindings[id];
    if b.count - 1 <= 0 then Nat(n.bindings - {id}, n.open - {b.ssh, b.telnet})
    else n.(bindings := n.bindings[id := b.(count := b.count - 1)])
  }

  /** `free_all`: closes the listeners of all bindings, and keeps the bindings. */
  function FreeAll(n: Nat): Nat {
    n.(open := n.open - PortsOf(n.bindings))
  }

  /** `leases`: the serials of the guests granted and not given back yet, one entry per connection. */
  datatype Sys = Sys(pool: Pool, table: Nat, leases: multiset<nat>)

  datatype Event =
    | Init(maxVm: nat, timeout: nat, share: bool)
    | Request(ip: string, ssh: int, telnet: int)
    | Free(serial: nat, now: int)
    | Reuse(serial: nat)
    | Iterate(answers: Answers)

  /** The ips the virtual network can give out. */
  const TABLE: set<string> := Table(255)

  function Table(end: nat): set<string> {
    set n | 2 <= n < end :: TableIp(n)
  }

  /** `192.168.150.n`, written as prefix and number. */
  function TableIp(n: nat): string {
    "192.168.150." + Digits(n)
  }

  function Digits(n: nat): string {
    if n < 10 then [['0', '1', '2', '3', '4', '5', '6', '7', '8', '9'][n]]
    else Digits(n / 10) + Digits(n % 10)
  }

  /** Every guest made gets an ip of the table that no guest has yet. */
  ghost predicate FreshIps(gs: seq<Guest>, made: seq<Made>) {
    && (forall j | 0 <= j < |made| :: made[j].ip in TABLE)
    && (forall i, j | 0 <= i < |gs| && 0 <= j < |made| :: gs[i].ip != made[j].ip)
    && (forall i, j | 0 <= i < j < |made| :: made[i].ip != made[j].ip)
  }

  /** No guest that lives and no lease that is out is 252 creations old: ids tell them apart. */
  ghost predicate Span(s: Sys) {
    && (forall i | 0 <= i < |s.pool.guests| :: s.pool.born - s.pool.guests[i].serial <= ID_SPACE)
    && (forall k | k in s.leases :: s.pool.born - k <= ID_SPACE)
  }

  function Id(serial: nat): nat {
    serial % ID_SPACE
  }

  /** A request that is refused although a guest was up once: the program stops the pool, and a run ends before it. */
  predicate Stops(p: Pool, ip: string) {
    Select(p, ip).NoGuest? && p.anyUp
  }

  ghost predicate Enabled(s: Sys, e: Event) {
    match e
    case Init(_, _, _) => true
    case Request(ip, ssh, telnet) =>
      ssh != telnet && ssh !in s.table.open && telnet !in s.table.open && !Stops(s.pool, ip)
    case Free(serial, _) => serial in s.leases
    case Reuse(serial) => serial in s.leases
    case Iterate(a) =>
      var p1 := Retire(s.pool, a);
      |a.made| <= Missing(p1) && FreshIps(p1.guests, a.made) && Span(s.(pool := Produce(s.pool, a).0))
  }

  ghost function Step(s: Sys, e: Event): Sys
    requires e.Free? ==> Id(e.serial) in s.table.bindings
    requires e.Reuse? ==> Id(e.serial) in s.table.bindings
  {
    match e
    case Init(maxVm, timeout, share) => s.(pool := s.pool.(maxVm := maxVm, timeout := timeout, share := share))
    case Request(ip, ssh, telnet) =>
      var c := Select(s.pool, ip);
      if !c.Chosen? then s
      else
        var g := s.pool.guests[c.index];
        Sys(s.pool.(guests := s.pool.guests[c.index := Take(g, ip)]),
            RequestBinding(s.table, g.id, ssh, telnet),
            s.leases + multiset{g.serial})
    case Free(serial, now) =>
      Sys(FreeGuest(s.pool, Id(serial), now), FreeBinding(s.table, Id(serial)), s.leases - multiset{serial})
    case Reuse(serial) =>
      Sys(ReuseGuest(s.pool, Id(serial)), FreeBinding(s.table, Id(serial)), s.leases - multiset{serial})
    case Iterate(a) => s.(pool := Produce(s.pool, a).0)
  }

  // ---------------------------------------------------------------- the invariant

  /** States a connected guest can be in. */
  predicate Held(st: VmState) {
    st == Using || st == Unavailable
  }

  ghost predicate GuestOk(g: Guest, born: nat, leases: multiset<nat>) {
    && g.serial < born && g.id == Id(g.serial) && g.ip in TABLE
    && g.connected == leases[g.serial]
    && (g.connected > 0 ==> Held(g.state) && g.prev.Some? && Usable(g.prev.value))
  }

  ghost predicate GuestsOk(gs: seq<Guest>, born: nat, leases: multiset<nat>) {
    && (forall i | 0 <= i < |gs| :: GuestOk(gs[i], born, leases))
    && (forall i, j | 0 <= i < j < |gs| :: gs[i].serial != gs[j].serial && gs[i].ip != gs[j].ip)
  }

  ghost predicate PoolOk(p: Pool, leases: multiset<nat>) {
    && p.nextId == Id(p.born)
    && GuestsOk(p.guests, p.born, leases)
    && (forall i | 0 <= i < |p.guests| :: p.guests[i].state != Destroyed)
    && (forall k | k in leases :: k < p.born)
  }

  /** Bindings exist exactly for leased ids and count the leases. */
  ghost predicate NatOk(n: Nat, leases: multiset<nat>) {
    && (forall k | k in leases :: Id(k) in n.bindings && n.bindings[Id(k)].count == leases[k])
    && (forall id | id in n.bindings :: exists k :: k in leases && Id(k) == id)
    && PortsOk(n)
  }

  function PortsOf(b: map<nat, Binding>): set<int> {
    (set id | id in b :: b[id].ssh) + (set id | id in b :: b[id].telnet)
  }

  /** The open ports are the two of each binding, all different. */
  ghost predicate PortsOk(n: Nat) {
    && n.open == PortsOf(n.bindings)
    && (forall id | id in n.bindings :: n.bindings[id].ssh != n.bindings[id].telnet)
    && (forall i, j, p | i in n.bindings && j in n.bindings && UsesPort(n.bindings[i], p) && UsesPort(n.bindings[j], p) :: i == j)
  }

  ghost predicate UsesPort(b: Binding, p: int) {
    p == b.ssh || p == b.telnet
  }

  ghost predicate Inv(s: Sys) {
    PoolOk(s.pool, s.leases) && NatOk(s.table, s.leases) && Span(s)
  }

  const INITIAL := Sys(START, Nat(map[], {}), multiset{})

  lemma InitialInv()
    ensures Inv(INITIAL)
  {
  }

  /** Two serials of one window share an id only if they are the same. */
  lemma IdsTellApart(a: nat, b: nat, born: nat)
    requires a < born && b < born && born - a <= ID_SPACE && born - b <= ID_SPACE
    ensures Id(a) == Id(b) <==> a == b
  {
  }

  // ---------------------------------------------------------------- consumers keep it

  /** What a call may do to the one guest it changes. */
  lemma GuestChanged(gs: seq<Guest>, k: nat, g: Guest, born: nat, leases: multiset<nat>, leases': multiset<nat>)
    requires GuestsOk(gs, born, leases) && k < |gs|
    requires g.serial == gs[k].serial && g.ip == gs[k].ip && GuestOk(g, born, leases')
    requires forall n | n != g.serial :: leases'[n] == leases[n]
    ensures GuestsOk(gs[k := g], born, leases')
  {
  }

  lemma RequestKeeps(s: Sys, ip: string, ssh: int, telnet: int)
    requires Inv(s) && Enabled(s, Request(ip, ssh, telnet))
    ensures Inv(Step(s, Request(ip, ssh, telnet)))
  {
    var c := Select(s.pool, ip);
    if c.Chosen? {
      var g := s.pool.guests[c.index];
      var t := Step(s, Request(ip, ssh, telnet));
      assert GuestOk(g, s.pool.born, s.leases);
      GuestChanged(s.pool.guests, c.index, Take(g, ip), s.pool.born, s.leases, t.leases);
      assert PoolOk(t.pool, t.leases);
      assert Span(t);
      GrantKeepsNat(s, t.leases, g.serial, ssh, telnet);
    }
  }

  /** The binding of an id is there exactly when the serial behind it is leased. */
  lemma BoundIffLeased(s: Sys, serial: nat)
    requires NatOk(s.table, s.leases) && Span(s) && (forall k | k in s.leases :: k < s.pool.born)
    requires serial < s.pool.born && s.pool.born - serial <= ID_SPACE
    ensures Id(serial) in s.table.bindings <==> serial in s.leases
  {
    if Id(serial) in s.table.bindings {
      var k :| k in s.leases && Id(k) == Id(serial);
      IdsTellApart(k, serial, s.pool.born);
    }
  }

  lemma GrantKeepsNat(s: Sys, leases': multiset<nat>, serial: nat, ssh: int, telnet: int)
    requires NatOk(s.table, s.leases) && Span(s) && (forall k | k in s.leases :: k < s.pool.born)
    requires serial < s.pool.born && s.pool.born - serial <= ID_SPACE
    requires ssh != telnet && ssh !in s.table.open && telnet !in s.table.open
    requires leases' == s.leases + multiset{serial}
    ensures NatOk(RequestBinding(s.table, Id(serial), ssh, telnet), leases')
  {
    hide Id;
    var n := RequestBinding(s.table, Id(serial), ssh, telnet);
    BoundIffLeased(s, serial);
    forall k | k in leases' ensures Id(k) in n.bindings && n.bindings[Id(k)].count == leases'[k] {
      IdsTellApart(k, serial, s.pool.born);
      assert k == serial || k in s.leases;
    }
    forall id | id in n.bindings ensures exists k :: k in leases' && Id(k) == id {
      if id == Id(serial) {
        assert serial in leases';
      } else {
        var k :| k in s.leases && Id(k) == id;
        assert k in leases';
      }
    }
    GrantKeepsPorts(s.table, Id(serial), ssh, telnet);
  }

  lemma GrantKeepsPorts(n: Nat, id: nat, ssh: int, telnet: int)
    requires PortsOk(n) && ssh != telnet && ssh !in n.open && telnet !in n.open
    ensures PortsOk(RequestBinding(n, id, ssh, telnet))
  {
    var n' := RequestBinding(n, id, ssh, telnet);
    forall i, p | i in n.bindings && UsesPort(n.bindings[i], p) ensures p in n.open {}
    assert n'.open == PortsOf(n'.bindings) by {
      var b := n'.bindings;
      forall p ensures p in n'.open <==> p in PortsOf(b) {
        if i :| i in b && UsesPort(b[i], p) {
          assert i in n.bindings ==> UsesPort(n.bindings[i], p);
        }
        if i :| i in n.bindings && UsesPort(n.bindings[i], p) {
          assert UsesPort(b[i], p);
        }
        assert id in b && UsesPort(b[id], b[id].ssh) && UsesPort(b[id], b[id].telnet);
      }
    }
    forall i, j, p | i in n'.bindings && j in n'.bindings && UsesPort(n'.bindings[i], p) && UsesPort(n'.bindings[j], p)
      ensures i == j
    {
      assert i in n.bindings ==> UsesPort(n.bindings[i], p);
      assert j in n.bindings ==> UsesPort(n.bindings[j], p);
    }
  }

  lemma ReleaseKeepsNat(s: Sys, leases': multiset<nat>, serial: nat)
    requires NatOk(s.table, s.leases) && Span(s) && (forall k | k in s.leases :: k < s.pool.born)
    requires serial in s.leases && leases' == s.leases - multiset{serial}
    ensures NatOk(FreeBinding(s.table, Id(serial)), leases')
  {
    var n := FreeBinding(s.table, Id(serial));
    forall k | k in leases' ensures Id(k) in n.bindings && n.bindings[Id(k)].count == leases'[k] {
      assert k in s.leases;
      IdsTellApart(k, serial, s.pool.born);
    }
    forall id | id in n.bindings ensures exists k :: k in leases' && Id(k) == id {
      if id == Id(serial) {
        assert serial in leases';
      } else {
        var k :| k in s.leases && Id(k) == id;
        assert k in leases';
      }
    }
    ReleaseKeepsPorts(s.table, Id(serial));
  }

  lemma ReleaseKeepsPorts(n: Nat, id: nat)
    requires PortsOk(n) && id in n.bindings
    ensures PortsOk(FreeBinding(n, id))
  {
    var n' := FreeBinding(n, id);
    var b := n.bindings[id];
    assert UsesPort(b, b.ssh) && UsesPort(b, b.telnet);
    assert n'.open == PortsOf(n'.bindings) by {
      forall p ensures p in n'.open <==> p in PortsOf(n'.bindings) {
        if i :| i in n.bindings && UsesPort(n.bindings[i], p) {
          assert i in n'.bindings ==> UsesPort(n'.bindings[i], p);
          assert UsesPort(b, p) ==> i == id;
        }
        if i :| i in n'.bindings && UsesPort(n'.bindings[i], p) {
          assert UsesPort(n.bindings[i], p);
        }
      }
    }
    forall i, j, p | i in n'.bindings && j in n'.bindings && UsesPort(n'.bindings[i], p) && UsesPort(n'.bindings[j], p)
      ensures i == j
    {
      assert UsesPort(n.bindings[i], p) && UsesPort(n.bindings[j], p);
    }
  }

  /** Only the guest with the released serial, if it still lives, answers to the id. */
  lemma FirstWithId(s: Sys, serial: nat)
    requires PoolOk(s.pool, s.leases) && Span(s) && serial in s.leases
    ensures var k := FirstWhere(s.pool.guests, HasId(Id(serial)));
            && (k < |s.pool.guests| ==> s.pool.guests[k].serial == serial)
            && (forall i | 0 <= i < |s.pool.guests| && s.pool.guests[i].serial == serial :: i == k)
  {
    var gs := s.pool.guests;
    var k := FirstWhere(gs, HasId(Id(serial)));
    if k < |gs| {
      assert HasId(Id(serial))(gs[k]);
      assert GuestOk(gs[k], s.pool.born, s.leases);
      IdsTellApart(gs[k].serial, serial, s.pool.born);
    }
    forall i | 0 <= i < |gs| && gs[i].serial == serial ensures i == k {
      assert GuestOk(gs[i], s.pool.born, s.leases);
      assert HasId(Id(serial))(gs[i]);
    }
  }

  /** What giving back a connection may do to a guest. */
  ghost predicate Releases(f: Guest -> Guest) {
    forall g: Guest {:trigger f(g)} ::
      && f(g).serial == g.serial && f(g).id == g.id && f(g).ip == g.ip && f(g).connected == g.connected - 1
      && (g.connected > 1 ==> f(g).state == g.state && f(g).prev == g.prev)
      && (g.state != Destroyed && (g.prev.Some? ==> g.prev.value != Destroyed) ==> f(g).state != Destroyed)
  }

  lemma FreedReleases(now: int)
    ensures Releases(FreedAt(now))
  {
  }

  lemma ReusedReleases()
    ensures Releases(Reused)
  {
  }

  lemma ReleaseKeepsPool(s: Sys, serial: nat, f: Guest -> Guest)
    requires PoolOk(s.pool, s.leases) && Span(s) && serial in s.leases
    requires Releases(f)
    ensures var p := s.pool.(guests := OnFirst(s.pool.guests, HasId(Id(serial)), f));
            PoolOk(p, s.leases - multiset{serial}) && forall n :: Span(Sys(p, n, s.leases - multiset{serial}))
  {
    var gs := s.pool.guests;
    var leases' := s.leases - multiset{serial};
    FirstWithId(s, serial);
    var k := FirstWhere(gs, HasId(Id(serial)));
    assert forall i | 0 <= i < |gs| :: GuestOk(gs[i], s.pool.born, s.leases);
    if k < |gs| {
      GuestChanged(gs, k, f(gs[k]), s.pool.born, s.leases, leases');
    } else {
      assert forall i | 0 <= i < |gs| :: GuestOk(gs[i], s.pool.born, leases');
    }
  }

  lemma Leased(s: Sys, serial: nat)
    requires Inv(s) && serial in s.leases
    ensures Id(serial) in s.table.bindings && forall k | k in s.leases :: k < s.pool.born
  {
  }

  lemma FreeKeeps(s: Sys, serial: nat, now: int)
    requires Inv(s) && serial in s.leases
    ensures Id(serial) in s.table.bindings && Inv(Step(s, Free(serial, now)))
  {
    Leased(s, serial);
    FreedReleases(now);
    hide PoolOk, NatOk, Span, Releases, OnFirst, FreedAt;
    ReleaseKeepsPool(s, serial, FreedAt(now));
    ReleaseKeepsNat(s, s.leases - multiset{serial}, serial);
  }

  lemma ReuseKeeps(s: Sys, serial: nat)
    requires Inv(s) && serial in s.leases
    ensures Id(serial) in s.table.bindings && Inv(Step(s, Reuse(serial)))
  {
    Leased(s, serial);
    ReusedReleases();
    hide PoolOk, NatOk, Span, Releases, OnFirst;
    ReleaseKeepsPool(s, serial, Reused);
    ReleaseKeepsNat(s, s.leases - multiset{serial}, serial);
  }

  // ---------------------------------------------------------------- the producer keeps it

  /** A change of state that keeps who a guest is, does not free a connected one and leaves a destroyed one. */
  ghost predicate OnlyState(g: Guest, h: Guest) {
    && h == g.(state := h.state)
    && (g.connected > 0 && Held(g.state) ==> Held(h.state) || h.state == Destroyed)
    && (g.state == Destroyed ==> h.state == Destroyed)
  }

  /** As `GuestsOk`, but inside an iteration a guest may be destroyed. */
  ghost predicate GuestsLoose(gs: seq<Guest>, born: nat, leases: multiset<nat>) {
    && (forall i | 0 <= i < |gs| :: gs[i].state != Destroyed ==> GuestOk(gs[i], born, leases))
    && (forall i | 0 <= i < |gs| :: gs[i].serial < born)
    && (forall i, j | 0 <= i < j < |gs| :: gs[i].serial != gs[j].serial && gs[i].ip != gs[j].ip)
  }

  lemma EachKeeps(gs: seq<Guest>, f: Guest -> Guest, born: nat, leases: multiset<nat>)
    requires GuestsLoose(gs, born, leases)
    requires forall i | 0 <= i < |gs| :: OnlyState(gs[i], f(gs[i]))
    ensures GuestsLoose(Each(gs, f), born, leases)
  {
    var r := Each(gs, f);
    forall i | 0 <= i < |r| ensures r[i].serial == gs[i].serial && r[i].ip == gs[i].ip {
      assert r[i] == f(gs[i]);
    }
    forall i | 0 <= i < |r| && r[i].state != Destroyed ensures GuestOk(r[i], born, leases) {
      assert r[i] == f(gs[i]) && OnlyState(gs[i], f(gs[i]));
      assert GuestOk(gs[i], born, leases);
    }
  }

  lemma {:induction false} FilterKeeps(gs: seq<Guest>, born: nat, leases: multiset<nat>)
    requires GuestsLoose(gs, born, leases)
    ensures GuestsOk(Filter(gs, Exists), born, leases)
  {
    if gs != [] {
      assert GuestsLoose(gs[1..], born, leases);
      FilterKeeps(gs[1..], born, leases);
      var rest := Filter(gs[1..], Exists);
      forall i | 0 <= i < |rest| ensures rest[i].serial != gs[0].serial && rest[i].ip != gs[0].ip {
        assert rest[i] in gs[1..];
        var j :| 0 <= j < |gs[1..]| && gs[1..][j] == rest[i];
        assert gs[j + 1] == rest[i];
      }
    }
  }

  lemma StageOnlyState(g: Guest, p: Pool, a: Answers)
    ensures OnlyState(g, TimeOut(p.timeout, a.now)(g))
    ensures OnlyState(g, Destroy(a.destroyed)(g))
    ensures OnlyState(g, Health(a.alive)(g))
  {
  }

  lemma CullKeeps(p: Pool, a: Answers, leases: multiset<nat>)
    requires PoolOk(p, leases)
    ensures GuestsLoose(Cull(p, a), p.born, leases)
  {
    hide OnlyState;
    var gs := p.guests;
    assert GuestsLoose(gs, p.born, leases);
    if ExistingSize(gs) > 1 {
      var marked := Each(gs, TimeOut(p.timeout, a.now));
      forall i | 0 <= i < |gs| ensures OnlyState(gs[i], TimeOut(p.timeout, a.now)(gs[i])) { StageOnlyState(gs[i], p, a); }
      EachKeeps(gs, TimeOut(p.timeout, a.now), p.born, leases);
      forall i | 0 <= i < |gs| ensures OnlyState(marked[i], Destroy(a.destroyed)(marked[i])) { StageOnlyState(marked[i], p, a); }
      EachKeeps(marked, Destroy(a.destroyed), p.born, leases);
    }
  }

  lemma RetireKeeps(p: Pool, a: Answers, leases: multiset<nat>)
    requires PoolOk(p, leases)
    ensures PoolOk(Retire(p, a), leases)
  {
    hide OnlyState, GuestsLoose, GuestsOk;
    var c := Cull(p, a);
    CullKeeps(p, a, leases);
    forall i | 0 <= i < |c| ensures OnlyState(c[i], Health(a.alive)(c[i])) { StageOnlyState(c[i], p, a); }
    EachKeeps(c, Health(a.alive), p.born, leases);
    FilterKeeps(Each(c, Health(a.alive)), p.born, leases);
    var r := Retire(p, a).guests;
    forall i | 0 <= i < |r| ensures r[i].state != Destroyed {
      assert r[i] in r;
    }
  }

  lemma NextIdIs(born: nat)
    ensures NextId(Id(born)) == Id(born + 1)
  {
  }

  lemma {:induction false} CreateKeeps(p: Pool, made: seq<Made>, leases: multiset<nat>)
    requires PoolOk(p, leases) && FreshIps(p.guests, made)
    ensures PoolOk(Create(p, made), leases)
    decreases |made|
  {
    if made != [] {
      NextIdIs(p.born);
      var q := CreateOne(p, made[0]);
      assert leases[p.born] == 0;
      assert forall i | 0 <= i < |p.guests| :: GuestOk(p.guests[i], p.born, leases);
      assert forall i | 0 <= i < |q.guests| :: GuestOk(q.guests[i], q.born, leases);
      assert FreshIps(q.guests, made[1..]);
      CreateKeeps(q, made[1..], leases);
    }
  }

  lemma IterateKeeps(s: Sys, a: Answers)
    requires Inv(s) && Enabled(s, Iterate(a))
    ensures Inv(Step(s, Iterate(a)))
  {
    RetireKeeps(s.pool, a, s.leases);
    var p1 := Retire(s.pool, a);
    CreateKeeps(p1, a.made, s.leases);
    var p2 := Create(p1, a.made);
    BootKeeps(p2, a.booted, s.leases);
  }

  lemma BootKeeps(p: Pool, alive: string -> bool, leases: multiset<nat>)
    requires PoolOk(p, leases)
    ensures PoolOk(p.(guests := Each(p.guests, Boot(alive))), leases)
  {
    var r := Each(p.guests, Boot(alive));
    forall i | 0 <= i < |r| ensures GuestOk(r[i], p.born, leases) && r[i].state != Destroyed {
      assert GuestOk(p.guests[i], p.born, leases);
      assert r[i] == Boot(alive)(p.guests[i]);
    }
  }

  lemma {:induction false} CreateFacts(p: Pool, made: seq<Made>)
    ensures var q := Create(p, made);
            && q.born == p.born + |made| && |q.guests| == |p.guests| + |made|
            && q.guests[..|p.guests|] == p.guests
            && (forall i | |p.guests| <= i < |q.guests| :: q.guests[i].state == Created)
            && q == p.(guests := q.guests, born := q.born, nextId := q.nextId)
    decreases |made|
  {
    if made != [] {
      CreateFacts(CreateOne(p, made[0]), made[1..]);
      var q := Create(p, made);
      var p' := CreateOne(p, made[0]);
      assert q.guests[|p.guests|] == p'.guests[|p.guests|];
      assert p'.guests[..|p.guests|] == p.guests;
      assert q.guests[..|p.guests|] == q.guests[..|p'.guests|][..|p.guests|];
    }
  }

  lemma StepKeeps(s: Sys, e: Event)
    requires Inv(s) && Enabled(s, e)
    ensures e.Free? ==> Id(e.serial) in s.table.bindings
    ensures e.Reuse? ==> Id(e.serial) in s.table.bindings
    ensures Inv(Step(s, e))
  {
    match e {
      case Init(maxVm, timeout, share) =>
        assert forall i | 0 <= i < |s.pool.guests| :: GuestOk(s.pool.guests[i], s.pool.born, s.leases);
      case Request(ip, ssh, telnet) => RequestKeeps(s, ip, ssh, telnet);
      case Free(serial, now) => FreeKeeps(s, serial, now);
      case Reuse(serial) => ReuseKeeps(s, serial);
      case Iterate(a) => IterateKeeps(s, a);
    }
  }

  // ---------------------------------------------------------------- stopping

  /** What a stop leaves behind: nothing is listened on any more, and the table is what it should be exactly if no
      lease was out. Otherwise ids stay bound to ports that are closed. */
  lemma StopLeavesStaleIff(s: Sys)
    requires Inv(s)
    ensures FreeAll(s.table).open == {}
    ensures NatOk(FreeAll(s.table), s.leases) <==> s.leases == multiset{}
  {
    var n := FreeAll(s.table);
    if s.leases == multiset{} {
      assert n.bindings == map[];
      assert PortsOf(n.bindings) == {};
    } else {
      var k :| k in s.leases;
      assert n.bindings[Id(k)].ssh in PortsOf(n.bindings);
    }
  }
}
