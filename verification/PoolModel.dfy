/** The backend pool as a protocol on values: producer iterations and consumer calls act on one guest list,
    next to a reference-counted NAT table and the leases that are out. */
module PoolModel {
  import opened Wrappers

  /** `NoState` is Python's None, which `reuse_vm` would write for a guest that remembers no earlier state. */
  datatype VmState = Created | Available | Using | Used | Unavailable | Destroyed | NoState

  /** A guest. `serial` numbers creations without wrapping; the program only knows `id`. */
  datatype Guest = Guest(
    serial: nat, id: nat, clientIps: seq<string>, connected: int, state: VmState, prev: Option<VmState>,
    start: int, freed: int, domain: string, ip: string, name: string, snapshot: string)

  datatype Pool = Pool(
    guests: seq<Guest>, nextId: nat, born: nat, maxVm: nat, timeout: nat, share: bool, anyUp: bool)

  /** States a guest can be handed out in. */
  predicate Usable(st: VmState) {
    st == Available || st == Using || st == Used
  }

  /** Ids are handed out modulo this. */
  const ID_SPACE := 252

  const START := Pool([], 0, 0, 2, 600, true, false)

  function Each(gs: seq<Guest>, f: Guest -> Guest): (r: seq<Guest>)
    ensures |r| == |gs| && forall i | 0 <= i < |gs| :: r[i] == f(gs[i])
  {
    seq(|gs|, i requires 0 <= i < |gs| => f(gs[i]))
  }

  function Filter(gs: seq<Guest>, p: Guest -> bool): (r: seq<Guest>)
    ensures forall g :: g in r <==> g in gs && p(g)
    ensures |r| <= |gs|
  {
    if gs == [] then [] else (if p(gs[0]) then [gs[0]] else []) + Filter(gs[1..], p)
  }

  // ---------------------------------------------------------------- producer

  predicate Exists(g: Guest) {
    g.state != Destroyed
  }

  function ExistingSize(gs: seq<Guest>): nat {
    |Filter(gs, Exists)|
  }

  /** `now` is what the clock says when it is the turn of the guest with that ip. */
  function TimeOut(timeout: int, now: string -> int): Guest -> Guest {
    (g: Guest) => if g.state == Used && g.freed + timeout < now(g.ip) then g.(state := Unavailable) else g
  }

  function Destroy(destroyed: string -> bool): Guest -> Guest {
    (g: Guest) => if g.state == Unavailable && destroyed(g.domain) then g.(state := Destroyed) else g
  }

  function Health(alive: string -> bool): Guest -> Guest {
    (g: Guest) => if Usable(g.state) && !alive(g.ip) then g.(state := Unavailable) else g
  }

  function Boot(alive: string -> bool): Guest -> Guest {
    (g: Guest) => if g.state == Created && alive(g.ip) then g.(state := Available) else g
  }

  /** What qemu hands back for one new guest. */
  datatype Made = Made(domain: string, snapshot: string, ip: string, start: int)

  function NextId(id: nat): nat {
    if id + 1 == ID_SPACE then 0 else id + 1
  }

  function NewGuest(p: Pool, m: Made): Guest {
    Guest(p.born, p.nextId, [], 0, Created, None, m.start, -1, m.domain, m.ip, "", m.snapshot)
  }

  function CreateOne(p: Pool, m: Made): Pool {
    p.(guests := p.guests + [NewGuest(p, m)], nextId := NextId(p.nextId), born := p.born + 1)
  }

  function Create(p: Pool, made: seq<Made>): Pool
    decreases |made|
  {
    if made == [] then p else Create(CreateOne(p, made[0]), made[1..])
  }

  /** The answers one producer iteration gets from clock, qemu and port scans. `made` ends where creation first fails. */
  datatype Answers = Answers(
    now: string -> int, destroyed: string -> bool, alive: string -> bool, booted: string -> bool, made: seq<Made>)

  /** Timed-out and destroyed guests: nothing happens to a pool of one. */
  function Cull(p: Pool, a: Answers): seq<Guest> {
    if ExistingSize(p.guests) > 1 then Each(Each(p.guests, TimeOut(p.timeout, a.now)), Destroy(a.destroyed))
    else p.guests
  }

  /** Marking, destroying and removing: the part of an iteration before new guests are made. */
  function Retire(p: Pool, a: Answers): Pool {
    p.(guests := Filter(Each(Cull(p, a), Health(a.alive)), Exists))
  }

  function Missing(p: Pool): nat {
    if p.maxVm <= ExistingSize(p.guests) then 0 else p.maxVm - ExistingSize(p.guests)
  }

  /** One run of `producer_loop`; the result is false when creation failed and the loop died. */
  function Produce(p: Pool, a: Answers): (Pool, bool) {
    var p1 := Retire(p, a);
    var p2 := Create(p1, a.made);
    if |a.made| < Missing(p1) then (p2, false)
    else
      (p2.(guests := Each(p2.guests, Boot(a.booted)), anyUp := p2.anyUp || exists g :: g in p2.guests && g.state == Created && a.booted(g.ip)),
       true)
  }

  // ---------------------------------------------------------------- consumers

  function FirstWhere(gs: seq<Guest>, p: Guest -> bool): (k: nat)
    ensures k <= |gs|
    ensures k < |gs| ==> p(gs[k])
    ensures forall i | 0 <= i < k :: !p(gs[i])
  {
    if gs == [] || p(gs[0]) then 0 else 1 + FirstWhere(gs[1..], p)
  }

  predicate Busy(g: Guest) {
    g.state == Used || g.state == Using
  }

  function ServedTo(ip: string): Guest -> bool {
    (g: Guest) => Busy(g) && ip in g.clientIps
  }

  predicate IsAvailable(g: Guest) {
    g.state == Available
  }

  /** A busy guest with as few connections as any. */
  predicate IsLeast(gs: seq<Guest>, k: nat) {
    k < |gs| && Busy(gs[k]) && forall i | 0 <= i < |gs| && Busy(gs[i]) :: gs[k].connected <= gs[i].connected
  }

  /** The first busy guest with the fewest connections (`|gs|` if none is busy): what `min` returns. */
  function LeastBusy(gs: seq<Guest>): (k: nat)
    ensures k <= |gs|
    ensures k < |gs| ==> IsLeast(gs, k) && forall i | 0 <= i < k :: !IsLeast(gs, i)
    ensures k == |gs| ==> forall i | 0 <= i < |gs| :: !Busy(gs[i])
  {
    if gs == [] then 0
    else
      var rest := gs[..|gs| - 1];
      var last := gs[|gs| - 1];
      var k := LeastBusy(rest);
      assert forall i | 0 <= i < |rest| && IsLeast(gs, i) :: IsLeast(rest, i) by {
        assert forall i | 0 <= i < |rest| :: rest[i] == gs[i];
      }
      if k == |rest| then (if Busy(last) then |rest| else |gs|)
      else if Busy(last) && last.connected < rest[k].connected then |rest|
      else k
  }

  datatype Choice = Chosen(index: nat) | NoGuest | EmptyMin

  /** Own guest first, then an available one, then, if guests are shared, the least busy one. */
  function Select(p: Pool, ip: string): (c: Choice)
    ensures c.Chosen? ==> c.index < |p.guests| && Usable(p.guests[c.index].state)
  {
    var gs := p.guests;
    var own := FirstWhere(gs, ServedTo(ip));
    if own < |gs| then Chosen(own)
    else
      var free := FirstWhere(gs, IsAvailable);
      if free < |gs| then Chosen(free)
      else if !p.share then NoGuest
      else
        var least := LeastBusy(gs);
        if least < |gs| then Chosen(least) else EmptyMin
  }

  function Take(g: Guest, ip: string): Guest {
    g.(prev := Some(g.state), state := Using, connected := g.connected + 1, clientIps := g.clientIps + [ip])
  }

  function HasId(id: nat): Guest -> bool {
    (g: Guest) => g.id == id
  }

  function Freed(g: Guest, now: int): Guest {
    g.(freed := now, connected := g.connected - 1, state := if g.connected == 1 then Used else g.state)
  }

  function FreedAt(now: int): Guest -> Guest {
    (g: Guest) => Freed(g, now)
  }

  function Reused(g: Guest): Guest {
    if g.connected == 1 then g.(connected := 0, state := if g.prev.Some? then g.prev.value else NoState, prev := None)
    else g.(connected := g.connected - 1)
  }

  function OnFirst(gs: seq<Guest>, p: Guest -> bool, f: Guest -> Guest): seq<Guest> {
    var k := FirstWhere(gs, p);
    if k < |gs| then gs[k := f(gs[k])] else gs
  }

  function FreeGuest(p: Pool, id: nat, now: int): Pool {
    p.(guests := OnFirst(p.guests, HasId(id), FreedAt(now)))
  }

  function ReuseGuest(p: Pool, id: nat): Pool {
    p.(guests := OnFirst(p.guests, HasId(id), Reused))
  }
}
