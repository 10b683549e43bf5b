/** `Guest` and `PoolService` as objects edited in place, refining PoolModel. */
module PoolService {
  import opened Wrappers
  import S = PoolSystem
  import opened PoolModel

  class GuestVm {
    ghost var serial: nat
    var id: nat
    var clientIps: seq<string>
    var connected: int
    var state: VmState
    var prev: Option<VmState>
    var start: int
    var freed: int
    var domain: string
    var ip: string
    var name: string
    var snapshot: string

    constructor (id: nat, start: int, ip: string, domain: string, snapshot: string, ghost serial: nat)
      ensures Value() == Guest(serial, id, [], 0, Created, None, start, -1, domain, ip, "", snapshot)
    {
      this.serial, this.id, clientIps, connected, state, prev := serial, id, [], 0, Created, None;
      this.start, freed, this.domain, this.ip, name, this.snapshot := start, -1, domain, ip, "", snapshot;
    }

    ghost function Value(): Guest
      reads this
    {
      Guest(serial, id, clientIps, connected, state, prev, start, freed, domain, ip, name, snapshot)
    }

    /** Equality of the dataclass: field by field. */
    predicate Equals(g: GuestVm)
      reads this, g
    {
      && id == g.id && clientIps == g.clientIps && connected == g.connected && state == g.state && prev == g.prev
      && start == g.start && freed == g.freed && domain == g.domain && ip == g.ip && name == g.name && snapshot == g.snapshot
    }
  }

  ghost function Values(gs: seq<GuestVm>): (r: seq<Guest>)
    reads gs
    ensures |r| == |gs| && forall i | 0 <= i < |gs| :: r[i] == gs[i].Value()
  {
    seq(|gs|, i requires 0 <= i < |gs| reads gs => gs[i].Value())
  }

  ghost predicate NoDup(gs: seq<GuestVm>) {
    forall i, j | 0 <= i < j < |gs| :: gs[i] != gs[j]
  }

  /** `get_guest_states` */
  function InStates(gs: seq<GuestVm>, wanted: VmState -> bool): seq<GuestVm>
    reads gs
  {
    if gs == [] then []
    else if wanted(gs[0].state) then [gs[0]] + InStates(gs[1..], wanted)
    else InStates(gs[1..], wanted)
  }

  function Only(st: VmState): VmState -> bool {
    (s: VmState) => s == st
  }

  lemma {:induction false} InStatesMembers(gs: seq<GuestVm>, wanted: VmState -> bool)
    ensures var r := InStates(gs, wanted);
            (forall g | g in r :: g in gs && wanted(g.state)) && (forall g | g in gs && wanted(g.state) :: g in r)
  {
    if gs != [] {
      InStatesMembers(gs[1..], wanted);
    }
  }

  lemma {:induction false} InStatesNoDup(gs: seq<GuestVm>, wanted: VmState -> bool)
    requires NoDup(gs)
    ensures NoDup(InStates(gs, wanted))
  {
    if gs != [] {
      InStatesMembers(gs[1..], wanted);
      InStatesNoDup(gs[1..], wanted);
    }
  }

  /** What a loop over the guests in wanted states can rely on, whatever its body does to them. */
  lemma LoopStart(gs: seq<GuestVm>, wanted: VmState -> bool, f: Guest -> Guest)
    requires NoDup(gs)
    ensures var todo, was := InStates(gs, wanted), Values(gs);
            && NoDup(todo) && Progress(gs, was, todo, 0, f)
            && (forall g | g in todo :: g in gs)
            && (forall i | 0 <= i < |gs| :: gs[i] in todo <==> wanted(was[i].state))
  {
    InStatesMembers(gs, wanted);
    InStatesNoDup(gs, wanted);
  }

  lemma NotBefore(gs: seq<GuestVm>, k: nat)
    requires NoDup(gs) && k < |gs|
    ensures gs[k] !in gs[..k]
  {
  }

  /** Where a loop over `todo` stands: the guests before `k` are as `f` makes them, the others as they were. */
  ghost predicate Progress(gs: seq<GuestVm>, was: seq<Guest>, todo: seq<GuestVm>, k: nat, f: Guest -> Guest)
    reads gs
  {
    |was| == |gs| && forall i | 0 <= i < |gs| :: gs[i].Value() == if gs[i] in todo[..Least(k, |todo|)] then f(was[i]) else was[i]
  }

  function Least(a: nat, b: nat): nat {
    if a < b then a else b
  }

  /** A loop over the guests in `states` that is through amounts to `f` on every guest, if `f` leaves the rest. */
  lemma LoopIsEach(gs: seq<GuestVm>, was: seq<Guest>, todo: seq<GuestVm>, f: Guest -> Guest)
    requires Progress(gs, was, todo, |todo|, f)
    requires forall i | 0 <= i < |gs| && gs[i] !in todo :: f(was[i]) == was[i]
    ensures Values(gs) == Each(was, f)
  {
    assert todo[..|todo|] == todo;
  }

  /** One turn of such a loop: only `todo[k]` changed, and as `f` says. */
  twostate lemma TurnDone(gs: seq<GuestVm>, new was: seq<Guest>, new todo: seq<GuestVm>, new k: nat, new f: Guest -> Guest)
    requires k < |todo| && NoDup(todo) && |was| == |gs|
    requires forall i | 0 <= i < |gs| :: old(gs[i].Value()) == if gs[i] in todo[..k] then f(was[i]) else was[i]
    requires forall i | 0 <= i < |gs| && gs[i] != todo[k] :: gs[i].Value() == old(gs[i].Value())
    requires forall i | 0 <= i < |gs| && gs[i] == todo[k] :: gs[i].Value() == f(old(gs[i].Value()))
    ensures Progress(gs, was, todo, k + 1, f)
  {
    forall i | 0 <= i < |gs|
      ensures gs[i].Value() == if gs[i] in todo[..k + 1] then f(was[i]) else was[i]
    {
      assert todo[..k + 1] == todo[..k] + [todo[k]];
      assert gs[i] == todo[k] ==> gs[i] !in todo[..k];
    }
  }

  ghost predicate DistinctIps(gs: seq<GuestVm>)
    reads gs`ip
  {
    forall i, j | 0 <= i < j < |gs| :: gs[i].ip != gs[j].ip
  }

  /** `gs` without the guests in `gone`, in order. */
  ghost function Keep(gs: seq<GuestVm>, gone: seq<GuestVm>): seq<GuestVm> {
    if gs == [] then [] else if gs[0] in gone then Keep(gs[1..], gone) else [gs[0]] + Keep(gs[1..], gone)
  }

  /** `list.remove(g)`: drops the first guest that equals `g`. */
  function RemoveFirst(gs: seq<GuestVm>, g: GuestVm): seq<GuestVm>
    reads gs, g
  {
    if gs == [] then [] else if gs[0].Equals(g) then gs[1..] else [gs[0]] + RemoveFirst(gs[1..], g)
  }

  lemma {:induction false} KeepMembers(gs: seq<GuestVm>, gone: seq<GuestVm>)
    ensures forall g | g in Keep(gs, gone) :: g in gs
  {
    if gs != [] {
      KeepMembers(gs[1..], gone);
    }
  }

  lemma {:induction false} KeepNone(gs: seq<GuestVm>)
    ensures Keep(gs, []) == gs
  {
    if gs != [] {
      KeepNone(gs[1..]);
    }
  }

  lemma {:induction false} KeepKeeps(gs: seq<GuestVm>, gone: seq<GuestVm>)
    requires NoDup(gs) && DistinctIps(gs)
    ensures NoDup(Keep(gs, gone)) && DistinctIps(Keep(gs, gone))
  {
    if gs != [] {
      KeepKeeps(gs[1..], gone);
      KeepMembers(gs[1..], gone);
      var rest := Keep(gs[1..], gone);
      forall i | 0 <= i < |rest| ensures rest[i] != gs[0] && rest[i].ip != gs[0].ip {
        assert rest[i] in gs[1..];
        var j :| 0 <= j < |gs[1..]| && gs[1..][j] == rest[i];
        assert gs[j + 1] == rest[i];
      }
    }
  }

  lemma {:induction false} KeepMore(gs: seq<GuestVm>, gone: seq<GuestVm>, g: GuestVm)
    requires g !in gs
    ensures Keep(gs, gone + [g]) == Keep(gs, gone)
  {
    if gs != [] {
      KeepMore(gs[1..], gone, g);
      assert gs[0] in gone + [g] <==> gs[0] in gone;
    }
  }

  /** Since ips are distinct, field-by-field equality removes exactly the guest that was meant. */
  lemma {:induction false} RemoveIsKeep(gs: seq<GuestVm>, gone: seq<GuestVm>, g: GuestVm)
    requires NoDup(gs) && DistinctIps(gs) && g in gs && g !in gone
    ensures RemoveFirst(Keep(gs, gone), g) == Keep(gs, gone + [g])
  {
    var rest := gs[1..];
    if gs[0] in gone {
      assert gs[0] in gone + [g];
      RemoveIsKeep(rest, gone, g);
    } else {
      var k := Keep(rest, gone);
      assert Keep(gs, gone)[1..] == k;
      if gs[0] == g {
        assert g !in rest;
        KeepMore(rest, gone, g);
      } else {
        assert g in rest;
        assert gs[0].ip != g.ip by {
          var j :| 0 <= j < |rest| && rest[j] == g;
          assert gs[j + 1] == g;
        }
        assert gs[0] !in gone + [g];
        RemoveIsKeep(rest, gone, g);
      }
    }
  }

  lemma ValuesCons(g: GuestVm, gs: seq<GuestVm>)
    ensures Values([g] + gs) == [g.Value()] + Values(gs)
  {
  }

  lemma {:induction false} KeepIsFilter(gs: seq<GuestVm>, gone: seq<GuestVm>)
    requires forall i | 0 <= i < |gs| :: gs[i] in gone <==> gs[i].state == Destroyed
    ensures Values(Keep(gs, gone)) == Filter(Values(gs), Exists)
  {
    if gs == [] {
      assert Values(gs) == [];
    } else {
      hide Values;
      var rest := gs[1..];
      KeepIsFilter(rest, gone);
      assert gs == [gs[0]] + rest;
      ValuesCons(gs[0], rest);
      ValuesCons(gs[0], Keep(rest, gone));
      assert Values(gs)[1..] == Values(rest) && Values(gs)[0] == gs[0].Value();
    }
  }

  /** One `qemu.create_guest`: the random picks of MAC addresses, and what qemu answers. */
  datatype Attempt = Attempt(pick: nat -> string, domain: string, snapshot: string, start: int, works: bool)

  const RETRIES := 500

  /** How `request_vm` ends: with a guest, with NoAvailableVMs (after stopping the pool if a guest was ever up),
      or with the ValueError of `min`. */
  datatype Granting = Granted(id: nat, ip: string, snapshot: string) | NoAvailableVMs(stop: bool) | ValueError

  predicate NotDestroyed(st: VmState) {
    st != Destroyed
  }

  predicate BusyState(st: VmState) {
    st == Used || st == Using
  }

  lemma {:induction false} ExistingIsInStates(gs: seq<GuestVm>)
    ensures |InStates(gs, NotDestroyed)| == ExistingSize(Values(gs))
  {
    if gs != [] {
      ExistingIsInStates(gs[1..]);
      assert Values(gs)[1..] == Values(gs[1..]);
    }
  }

  lemma SomeBooted(gs: seq<GuestVm>, was: seq<Guest>, created: seq<GuestVm>, alive: string -> bool)
    requires |was| == |gs| && (forall g | g in created :: g in gs)
    requires forall i | 0 <= i < |gs| :: gs[i].ip == was[i].ip && (gs[i] in created <==> was[i].state == Created)
    ensures (exists j | 0 <= j < |created| :: alive(created[j].ip)) <==> exists g :: g in was && g.state == Created && alive(g.ip)
  {
    if j :| 0 <= j < |created| && alive(created[j].ip) {
      assert created[j] in created;
      var i :| 0 <= i < |gs| && gs[i] == created[j];
      assert was[i] in was;
    }
    if g :| g in was && g.state == Created && alive(g.ip) {
      var i :| 0 <= i < |was| && was[i] == g;
      var j :| 0 <= j < |created| && created[j] == gs[i];
    }
  }

  lemma NothingCreated(p: Pool)
    ensures Create(p, []) == p
  {
  }

  lemma {:induction false} CreateSnoc(p: Pool, made: seq<Made>, m: Made)
    ensures Create(p, made + [m]) == CreateOne(Create(p, made), m)
    decreases |made|
  {
    if made == [] {
      assert (made + [m])[1..] == [];
    } else {
      assert (made + [m])[1..] == made[1..] + [m];
      CreateSnoc(CreateOne(p, made[0]), made[1..], m);
    }
  }

  /** After `made` was made out of `was`, every guest's ip is one of theirs. */
  ghost predicate MadeIps(gs: seq<GuestVm>, was: seq<Guest>, made: seq<Made>)
    reads gs`ip
  {
    && |gs| == |was| + |made|
    && (forall i | 0 <= i < |was| :: gs[i].ip == was[i].ip)
    && (forall i | 0 <= i < |made| :: gs[|was| + i].ip == made[i].ip)
  }

  lemma MadeOne(gs: seq<GuestVm>, g: GuestVm, was: seq<Guest>, made: seq<Made>, m: Made)
    requires MadeIps(gs, was, made) && S.FreshIps(was, made) && DistinctIps(gs)
    requires g.ip == m.ip && m.ip in S.TABLE && forall i | 0 <= i < |gs| :: gs[i].ip != m.ip
    ensures MadeIps(gs + [g], was, made + [m]) && S.FreshIps(was, made + [m]) && DistinctIps(gs + [g])
  {
    hide S.Table;
  }

  lemma NoneMade(gs: seq<GuestVm>)
    ensures MadeIps(gs, Values(gs), []) && S.FreshIps(Values(gs), [])
  {
  }

  /** One guest changed: the values change in one place. */
  twostate lemma OneChanged(gs: seq<GuestVm>, new k: nat)
    requires NoDup(gs) && k < |gs|
    requires forall i | 0 <= i < |gs| && gs[i] != gs[k] :: gs[i].Value() == old(gs[i].Value())
    ensures Values(gs) == old(Values(gs))[k := gs[k].Value()]
  {
    assert forall i | 0 <= i < |gs| && i != k :: gs[i] != gs[k];
  }

  lemma FirstIs(gs: seq<Guest>, p: Guest -> bool, k: nat)
    requires k <= |gs| && (forall i | 0 <= i < k :: !p(gs[i])) && (k < |gs| ==> p(gs[k]))
    ensures FirstWhere(gs, p) == k
  {
  }

  /** The first fitting guest among those in wanted states is the first in the pool that fits and is in such a state. */
  lemma {:induction false} FirstIn(gs: seq<GuestVm>, wanted: VmState -> bool, fits: Guest -> bool, j: nat)
      returns (k: nat)
    requires forall i | 0 <= i < |gs| && fits(gs[i].Value()) :: wanted(gs[i].state)
    requires var r := InStates(gs, wanted);
             && j <= |r| && (forall i | 0 <= i < j :: !fits(r[i].Value())) && (j < |r| ==> fits(r[j].Value()))
    ensures k == FirstWhere(Values(gs), fits)
    ensures if j == |InStates(gs, wanted)| then k == |gs| else k < |gs| && gs[k] == InStates(gs, wanted)[j]
  {
    if gs == [] {
      k := 0;
    } else {
      Heads(gs, wanted);
      hide InStates, Values, FirstWhere;
      FirstHead(Values(gs), fits);
      var r, r1 := InStates(gs, wanted), InStates(gs[1..], wanted);
      if !wanted(gs[0].state) {
        k := FirstIn(gs[1..], wanted, fits, j);
        k := k + 1;
      } else if j == 0 {
        k := 0;
      } else {
        assert forall i | 0 <= i < |r1| :: r1[i] == r[i + 1];
        assert !fits(r[0].Value());
        k := FirstIn(gs[1..], wanted, fits, j - 1);
        k := k + 1;
      }
    }
  }

  lemma FirstHead(gs: seq<Guest>, p: Guest -> bool)
    requires gs != []
    ensures FirstWhere(gs, p) == if p(gs[0]) then 0 else 1 + FirstWhere(gs[1..], p)
  {
  }

  lemma Heads(gs: seq<GuestVm>, wanted: VmState -> bool)
    requires gs != []
    ensures Values(gs)[0] == gs[0].Value() && Values(gs)[1..] == Values(gs[1..])
    ensures InStates(gs, wanted) ==
              if wanted(gs[0].state) then [gs[0]] + InStates(gs[1..], wanted) else InStates(gs[1..], wanted)
  {
  }

  lemma LeastIn(gs: seq<GuestVm>, j: nat) returns (k: nat)
    requires var r := InStates(gs, BusyState);
             && j < |r| && (forall i | 0 <= i < |r| :: r[j].connected <= r[i].connected)
             && (forall i | 0 <= i < j :: r[j].connected < r[i].connected)
    ensures k == LeastBusy(Values(gs)) && k < |gs| && gs[k] == InStates(gs, BusyState)[j]
  {
    var r, vs := InStates(gs, BusyState), Values(gs);
    InStatesMembers(gs, BusyState);
    var few := r[j].connected;
    k := FirstIn(gs, BusyState, (g: Guest) => Busy(g) && g.connected <= few, j);
    forall i | 0 <= i < |vs| && Busy(vs[i]) ensures few <= vs[i].connected {
      assert gs[i] in r;
    }
    assert IsLeast(vs, k);
    var k2 := LeastBusy(vs);
    assert k2 < |vs| && vs[k2].connected <= few;
  }

  class PoolService {
    var guests: seq<GuestVm>
    var guestId: nat
    var maxVm: nat
    var timeout: nat
    var share: bool
    var anyVmUp: bool
    ghost var born: nat

    constructor ()
      ensures Valid() && Value() == START
    {
      guests, guestId, maxVm, timeout, share, anyVmUp, born := [], 0, 2, 600, true, false, 0;
    }

    ghost predicate Valid()
      reads this
    {
      NoDup(guests)
    }

    ghost function Value(): Pool
      reads this, guests
    {
      Pool(Values(guests), guestId, born, maxVm, timeout, share, anyVmUp)
    }

    method SetConfigs(maxVm: nat, timeout: nat, share: bool)
      modifies this`maxVm, this`timeout, this`share
      ensures Value() == old(Value()).(maxVm := maxVm, timeout := timeout, share := share)
    {
      this.maxVm, this.timeout, this.share := maxVm, timeout, share;
    }

    // -------------------------------------------------------------- producer

    method MarkTimedOut(guestTimeout: nat, now: string -> int)
      requires Valid()
      modifies guests`state
      ensures Values(guests) == Each(old(Values(guests)), TimeOut(guestTimeout, now))
    {
      hide InStates, NoDup, Values, Each;
      ghost var was, f := Values(guests), TimeOut(guestTimeout, now);
      var used := InStates(guests, Only(Used));
      LoopStart(guests, Only(Used), f);
      for k := 0 to |used|
        invariant Progress(guests, was, used, k, f)
      {
        var guest := used[k];
        assert guest in used && guest in guests;
        label turn:
        var timedOut := guest.freed + guestTimeout < now(guest.ip);
        if timedOut {
          guest.state := Unavailable;
        }
        TurnDone@turn(guests, was, used, k, f);
      }
      LoopIsEach(guests, was, used, f);
    }

    method DestroyTimedOut(destroyed: string -> bool)
      requires Valid()
      modifies guests`state
      ensures Values(guests) == Each(old(Values(guests)), Destroy(destroyed))
    {
      hide InStates, NoDup, Values, Each;
      ghost var was, f := Values(guests), Destroy(destroyed);
      var unavailable := InStates(guests, Only(Unavailable));
      LoopStart(guests, Only(Unavailable), f);
      for k := 0 to |unavailable|
        invariant Progress(guests, was, unavailable, k, f)
      {
        var guest := unavailable[k];
        assert guest in unavailable && guest in guests;
        label turn:
        if destroyed(guest.domain) {
          guest.state := Destroyed;
        }
        TurnDone@turn(guests, was, unavailable, k, f);
      }
      LoopIsEach(guests, was, unavailable, f);
    }

    method CheckHealth(alive: string -> bool)
      requires Valid()
      modifies guests`state
      ensures Values(guests) == Each(old(Values(guests)), Health(alive))
    {
      hide InStates, NoDup, Values, Each;
      ghost var was, f := Values(guests), Health(alive);
      var usable := InStates(guests, Usable);
      LoopStart(guests, Usable, f);
      for k := 0 to |usable|
        invariant Progress(guests, was, usable, k, f)
      {
        var guest := usable[k];
        assert guest in usable && guest in guests;
        label turn:
        if !alive(guest.ip) {
          guest.state := Unavailable;
        }
        TurnDone@turn(guests, was, usable, k, f);
      }
      LoopIsEach(guests, was, usable, f);
    }

    method RemoveDestroyed()
      requires Valid() && DistinctIps(guests)
      modifies this`guests
      ensures Valid() && DistinctIps(guests) && Values(guests) == Filter(old(Values(guests)), Exists)
      ensures forall g | g in guests :: g in old(guests)
    {
      hide NoDup, DistinctIps, InStates, Values, Keep, RemoveFirst, Filter, Progress;
      ghost var all := guests;
      var destroyed := InStates(guests, Only(Destroyed));
      LoopStart(guests, Only(Destroyed), Reused);
      KeepNone(all);
      assert destroyed[..0] == [];
      for k := 0 to |destroyed|
        invariant guests == Keep(all, destroyed[..k])
      {
        NotBefore(destroyed, k);
        assert destroyed[k] in destroyed;
        RemoveIsKeep(all, destroyed[..k], destroyed[k]);
        assert destroyed[..k] + [destroyed[k]] == destroyed[..k + 1];
        guests := RemoveFirst(guests, destroyed[k]);
      }
      assert destroyed[..|destroyed|] == destroyed;
      KeepKeeps(all, destroyed);
      KeepMembers(all, destroyed);
      KeepIsFilter(all, destroyed);
    }

    method MarkAvailable(alive: string -> bool)
      requires Valid()
      modifies guests`state, this`anyVmUp
      ensures Values(guests) == Each(old(Values(guests)), Boot(alive))
      ensures anyVmUp == (old(anyVmUp) || exists g :: g in old(Values(guests)) && g.state == Created && alive(g.ip))
    {
      hide InStates, NoDup, Values, Each;
      ghost var was, f := Values(guests), Boot(alive);
      var created := InStates(guests, Only(Created));
      LoopStart(guests, Only(Created), f);
      for k := 0 to |created|
        invariant Progress(guests, was, created, k, f)
        invariant anyVmUp == (old(anyVmUp) || exists j | 0 <= j < k :: alive(created[j].ip))
      {
        var guest := created[k];
        assert guest in created && guest in guests;
        label turn:
        if alive(guest.ip) {
          anyVmUp := true;
          guest.state := Available;
        }
        TurnDone@turn(guests, was, created, k, f);
      }
      LoopIsEach(guests, was, created, f);
      SomeBooted(guests, was, created, alive);
    }

    method ExistingPoolSize() returns (n: nat)
      ensures n == ExistingSize(Values(guests))
    {
      n := |InStates(guests, NotDestroyed)|;
      ExistingIsInStates(guests);
    }

    /** A new guest object for what qemu made, and the next id. */
    method AppendGuest(m: Made)
      requires Valid()
      modifies this`guests, this`guestId, this`born
      ensures Valid() && Value() == CreateOne(old(Value()), m)
      ensures |guests| == |old(guests)| + 1 && guests == old(guests) + [guests[|old(guests)|]]
      ensures var g := guests[|old(guests)|]; fresh(g) && g.ip == m.ip
    {
      var g := new GuestVm(guestId, m.start, m.ip, m.domain, m.snapshot, born);
      assert Values(guests + [g]) == Values(guests) + [g.Value()];
      guests := guests + [g];
      guestId := guestId + 1;
      if guestId == ID_SPACE {
        guestId := 0;
      }
      born := born + 1;
    }

    /** The same next to the guests made so far. */
    method AddGuest(m: Made, ghost was: seq<Guest>, ghost made: seq<Made>)
      requires Valid() && DistinctIps(guests) && MadeIps(guests, was, made) && S.FreshIps(was, made)
      requires m.ip in S.TABLE && Free(m.ip)
      modifies this`guests, this`guestId, this`born
      ensures Valid() && DistinctIps(guests) && MadeIps(guests, was, made + [m]) && S.FreshIps(was, made + [m])
      ensures Value() == CreateOne(old(Value()), m) && forall g | g in guests :: g in old(guests) || fresh(g)
    {
      hide CreateOne, S.FreshIps, S.Table, DistinctIps, MadeIps, NoDup, Values;
      ghost var before := guests;
      AppendGuest(m);
      MadeOne(before, guests[|before|], was, made, m);
    }

    /** What qemu makes, unless no ip is left or qemu fails. */
    method CreateGuest(a: Attempt, table: map<string, string>) returns (r: Option<Made>)
      requires table.Values <= S.TABLE && forall n: nat :: a.pick(n) in table
      ensures r.Some? ==> a.works && r.value == Made(a.domain, a.snapshot, r.value.ip, a.start)
      ensures r.Some? ==> r.value.ip in S.TABLE && Free(r.value.ip)
    {
      hide S.Table;
      var ip := GetMacIp(table, a.pick);
      if ip.None? || !a.works {
        return None;
      }
      return Some(Made(a.domain, a.snapshot, ip.value, a.start));
    }

    method CreateGuests(attempts: nat -> Attempt, table: map<string, string>) returns (ok: bool, ghost made: seq<Made>)
      requires Valid() && DistinctIps(guests) && table.Values <= S.TABLE
      requires forall k: nat, n: nat :: attempts(k).pick(n) in table
      modifies this`guests, this`guestId, this`born
      ensures Valid() && DistinctIps(guests) && forall g | g in guests :: g in old(guests) || fresh(g)
      ensures Value() == Create(old(Value()), made) && S.FreshIps(old(Values(guests)), made)
      ensures if ok then |made| == Missing(old(Value())) else |made| < Missing(old(Value()))
    {
      hide Create, CreateOne, S.FreshIps, S.Table, DistinctIps, MadeIps, NoDup, Values;
      var existing := ExistingPoolSize();
      var toCreate := if maxVm < existing then 0 else maxVm - existing;
      made := [];
      ghost var was, start := Values(guests), Value();
      NoneMade(guests);
      assert start == Create(start, made) by { NothingCreated(start); }
      for i := 0 to toCreate
        invariant |made| == i && Valid() && DistinctIps(guests)
        invariant forall g | g in guests :: g in old(guests) || fresh(g)
        invariant Value() == Create(start, made) && S.FreshIps(was, made)
        invariant MadeIps(guests, was, made)
      {
        var r := CreateGuest(attempts(i), table);
        if r.None? {
          return false, made;
        }
        CreateSnoc(start, made, r.value);
        AddGuest(r.value, was, made);
        made := made + [r.value];
      }
      return true, made;
    }

    /** The part of `producer_loop` before new guests are made. */
    method RetireGuests(now: string -> int, destroyed: string -> bool, alive: string -> bool)
      requires Valid() && DistinctIps(guests)
      modifies this`guests, guests`state
      ensures Valid() && DistinctIps(guests) && forall g | g in guests :: g in old(guests)
      ensures forall booted, made :: Value() == Retire(old(Value()), Answers(now, destroyed, alive, booted, made))
    {
      hide Each, Filter, Values, NoDup, DistinctIps, TimeOut, Destroy, Health;
      var n := ExistingPoolSize();
      if n > 1 {
        MarkTimedOut(timeout, now);
        DestroyTimedOut(destroyed);
      }
      CheckHealth(alive);
      RemoveDestroyed();
    }

    /** The same and the making of new guests. */
    method RefillGuests(now: string -> int, destroyed: string -> bool, alive: string -> bool,
        attempts: nat -> Attempt, table: map<string, string>)
      returns (ok: bool, ghost made: seq<Made>)
      requires Valid() && DistinctIps(guests) && table.Values <= S.TABLE
      requires forall k: nat, n: nat :: attempts(k).pick(n) in table
      modifies this`guests, this`guestId, this`born, guests`state
      ensures Valid() && DistinctIps(guests) && forall g | g in guests :: g in old(guests) || fresh(g)
      ensures forall booted ::
                var p1 := Retire(old(Value()), Answers(now, destroyed, alive, booted, made));
                && Value() == Create(p1, made) && S.FreshIps(p1.guests, made)
                && (if ok then |made| == Missing(p1) else |made| < Missing(p1))
    {
      hide Each, Create, Retire, Missing, Values, NoDup, DistinctIps, S.FreshIps, S.Table;
      RetireGuests(now, destroyed, alive);
      ghost var kept, p1 := guests, Value();
      ok, made := CreateGuests(attempts, table);
      forall g | g in guests ensures g in old(guests) || fresh(g) {
        assert g in kept ==> g in old(guests);
      }
    }

    /** `producer_loop`, up to the scheduling of its next run. */
    method ProducerLoop(now: string -> int, destroyed: string -> bool, alive: string -> bool, booted: string -> bool,
        attempts: nat -> Attempt, table: map<string, string>)
      returns (ok: bool, ghost made: seq<Made>)
      requires Valid() && DistinctIps(guests) && table.Values <= S.TABLE
      requires forall k: nat, n: nat :: attempts(k).pick(n) in table
      modifies this`guests, this`guestId, this`born, this`anyVmUp, guests`state
      ensures Valid() && DistinctIps(guests) && forall g | g in guests :: g in old(guests) || fresh(g)
      ensures var a := Answers(now, destroyed, alive, booted, made);
              && (Value(), ok) == Produce(old(Value()), a)
              && |made| <= Missing(Retire(old(Value()), a)) && S.FreshIps(Retire(old(Value()), a).guests, made)
    {
      hide Each, Create, Retire, Missing, Values, NoDup, DistinctIps, S.FreshIps, S.Table, Boot, NewGuest;
      ok, made := RefillGuests(now, destroyed, alive, attempts, table);
      assert forall i | 0 <= i < |guests| :: guests[i] in old(guests) || fresh(guests[i]);
      if ok {
        MarkAvailable(booted);
      }
    }

    method IsIpFree(ip: string) returns (free: bool)
      ensures free <==> forall i | 0 <= i < |guests| :: guests[i].ip != ip
    {
      for k := 0 to |guests|
        invariant forall i | 0 <= i < k :: guests[i].ip != ip
      {
        if guests[k].ip == ip {
          return false;
        }
      }
      return true;
    }

    /** Whether no guest has this ip. */
    ghost predicate Free(ip: string)
      reads this, guests
    {
      forall i | 0 <= i < |guests| :: guests[i].ip != ip
    }

    /** `get_mac_ip`: the first pick whose ip is free, out of at most 500; otherwise it raises. */
    method GetMacIp(table: map<string, string>, pick: nat -> string) returns (r: Option<string>)
      requires forall n: nat :: pick(n) in table
      ensures r.Some? ==> exists n: nat :: n < RETRIES && table[pick(n)] == r.value && Free(r.value)
      ensures r.None? ==> forall n: nat | n < RETRIES :: !Free(table[pick(n)])
    {
      var retries := 0;
      while retries < RETRIES
        invariant retries <= RETRIES
        invariant forall n: nat | n < retries :: !Free(table[pick(n)])
      {
        var ip := table[pick(retries)];
        var free := IsIpFree(ip);
        if free {
          return Some(ip);
        }
        retries := retries + 1;
      }
      return None;
    }

    // -------------------------------------------------------------- consumers

    method GetGuestIp(srcIp: string) returns (r: GuestVm?)
      ensures var k := FirstWhere(Values(guests), ServedTo(srcIp));
              r == if k < |guests| then guests[k] else null
    {
      var usable := InStates(guests, BusyState);
      InStatesMembers(guests, BusyState);
      for j := 0 to |usable|
        invariant forall i | 0 <= i < j :: srcIp !in usable[i].clientIps
      {
        if srcIp in usable[j].clientIps {
          assert usable[j] in usable;
          ghost var k := FirstIn(guests, BusyState, ServedTo(srcIp), j);
          return usable[j];
        }
      }
      ghost var k := FirstIn(guests, BusyState, ServedTo(srcIp), |usable|);
      return null;
    }

    method GetAvailableGuest() returns (r: GuestVm?)
      ensures var k := FirstWhere(Values(guests), IsAvailable);
              r == if k < |guests| then guests[k] else null
    {
      var available := InStates(guests, Only(Available));
      InStatesMembers(guests, Only(Available));
      assert |available| > 0 ==> available[0] in available;
      ghost var k := FirstIn(guests, Only(Available), IsAvailable, 0);
      return if |available| > 0 then available[0] else null;
    }

    /** The first of the busy guests with the fewest connections; `min` of nothing raises. */
    method GetAnyGuest() returns (r: GuestVm?)
      ensures var k := LeastBusy(Values(guests));
              r == if k < |guests| then guests[k] else null
    {
      var usable := InStates(guests, BusyState);
      ghost var k;
      if usable == [] {
        k := FirstIn(guests, BusyState, Busy, 0);
        return null;
      }
      var best := 0;
      for j := 1 to |usable|
        invariant best < j
        invariant forall i | 0 <= i < j :: usable[best].connected <= usable[i].connected
        invariant forall i | 0 <= i < best :: usable[best].connected < usable[i].connected
      {
        if usable[j].connected < usable[best].connected {
          best := j;
        }
      }
      k := LeastIn(guests, best);
      return usable[best];
    }

    method SelectGuest(srcIp: string) returns (guest: GuestVm?)
      ensures var c := Select(Value(), srcIp);
              if c.Chosen? then guest == guests[c.index] else guest == null && c == if share then EmptyMin else NoGuest
    {
      hide Values, ServedTo, IsAvailable, FirstWhere, LeastBusy;
      guest := GetGuestIp(srcIp);
      if guest == null {
        guest := GetAvailableGuest();
      }
      if guest == null && share {
        guest := GetAnyGuest();
      }
    }

    method RequestVm(srcIp: string) returns (r: Granting)
      requires Valid()
      modifies guests`prev, guests`state, guests`connected, guests`clientIps
      ensures match old(Select(Value(), srcIp))
              case Chosen(i) =>
                var g := old(Value()).guests[i];
                && Value() == old(Value()).(guests := old(Value()).guests[i := Take(g, srcIp)])
                && r == Granted(g.id, g.ip, g.snapshot)
              case NoGuest => Value() == old(Value()) && r == NoAvailableVMs(anyVmUp)
              case EmptyMin => Value() == old(Value()) && r == ValueError
    {
      hide NoDup, Values, Select;
      var guest := SelectGuest(srcIp);
      if guest == null {
        return if share then ValueError else NoAvailableVMs(anyVmUp);
      }
      HandOut(guest, srcIp, Select(Value(), srcIp).index);
      return Granted(guest.id, guest.ip, guest.snapshot);
    }

    method HandOut(guest: GuestVm, srcIp: string, ghost k: nat)
      requires Valid() && k < |guests| && guests[k] == guest
      modifies guest`prev, guest`state, guest`connected, guest`clientIps
      ensures Values(guests) == old(Values(guests))[k := Take(old(guest.Value()), srcIp)]
    {
      hide NoDup, Values;
      guest.prev := Some(guest.state);
      guest.state := Using;
      guest.connected := guest.connected + 1;
      guest.clientIps := guest.clientIps + [srcIp];
      OneChanged(guests, k);
    }

    method FreeVm(id: nat, now: int)
      requires Valid()
      modifies guests`freed, guests`connected, guests`state
      ensures Value() == FreeGuest(old(Value()), id, now)
    {
      hide NoDup, Values, FirstWhere;
      for k := 0 to |guests|
        invariant Value() == old(Value())
        invariant forall i | 0 <= i < k :: guests[i].id != id
      {
        var guest := guests[k];
        if guest.id == id {
          FirstIs(Values(guests), HasId(id), k);
          label found:
          guest.freed := now;
          guest.connected := guest.connected - 1;
          if guest.connected == 0 {
            guest.state := Used;
          }
          OneChanged@found(guests, k);
          return;
        }
      }
      FirstIs(Values(guests), HasId(id), |guests|);
    }

    method HandBack(guest: GuestVm, ghost k: nat)
      requires Valid() && k < |guests| && guests[k] == guest
      modifies guest`connected, guest`state, guest`prev
      ensures Values(guests) == old(Values(guests))[k := Reused(old(guest.Value()))]
    {
      hide NoDup, Values;
      guest.connected := guest.connected - 1;
      if guest.connected == 0 {
        guest.state := if guest.prev.Some? then guest.prev.value else NoState;
        guest.prev := None;
      }
      OneChanged(guests, k);
    }

    method ReuseVm(id: nat)
      requires Valid()
      modifies guests`connected, guests`state, guests`prev
      ensures Value() == ReuseGuest(old(Value()), id)
    {
      hide NoDup, Values;
      for k := 0 to |guests|
        invariant Value() == old(Value())
        invariant forall i | 0 <= i < k :: guests[i].id != id
      {
        var guest := guests[k];
        if guest.id == id {
          FirstIs(Values(guests), HasId(id), k);
          HandBack(guest, k);
          return;
        }
      }
      FirstIs(Values(guests), HasId(id), |guests|);
    }
  }
}
