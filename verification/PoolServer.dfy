/** `NATService` and `PoolServer`: how bytes from a client become calls on pool and NAT table. */
module PoolServer {
  import opened Wrappers
  import S = PoolSystem
  import W = Wire
  import P = PoolService
  import U = PoolUse
  import opened PoolModel

  class NatService {
    var bindings: map<nat, S.Binding>
    /** The ports the reactor listens on for this table. */
    var open: set<int>

    constructor ()
      ensures Value() == S.INITIAL.table
    {
      bindings, open := map[], {};
    }

    ghost function Value(): S.Nat
      reads this
    {
      S.Nat(bindings, open)
    }

    /** `ssh` and `telnet` are the ports the system would give two new listeners. */
    method RequestBinding(id: nat, ssh: int, telnet: int) returns (sshPort: int, telnetPort: int)
      modifies this
      ensures Value() == S.RequestBinding(old(Value()), id, ssh, telnet)
      ensures id in bindings && bindings[id].ssh == sshPort && bindings[id].telnet == telnetPort
    {
      if id in bindings {
        bindings := bindings[id := bindings[id].(count := bindings[id].count + 1)];
      } else {
        open := open + {ssh, telnet};
        bindings := bindings[id := S.Binding(1, ssh, telnet)];
      }
      return bindings[id].ssh, bindings[id].telnet;
    }

    /** False where the lookup raises KeyError. */
    method FreeBinding(id: nat) returns (known: bool)
      modifies this
      ensures known <==> id in old(bindings)
      ensures Value() == if known then S.FreeBinding(old(Value()), id) else old(Value())
    {
      if id !in bindings {
        return false;
      }
      var b := bindings[id].(count := bindings[id].count - 1);
      bindings := bindings[id := b];
      if b.count <= 0 {
        open := open - {b.ssh, b.telnet};
        bindings := bindings - {id};
      }
      return true;
    }

    /** Closes the listeners of every binding, one after the other. */
    method FreeAll()
      modifies this`open
      ensures Value() == S.FreeAll(old(Value()))
    {
      var left := bindings.Keys;
      while left != {}
        invariant left <= bindings.Keys && bindings == old(bindings)
        invariant open == old(open) - S.PortsOf(bindings - left)
      {
        var id :| id in left;
        PortsOfOneMore(bindings, left, id);
        open := open - {bindings[id].ssh, bindings[id].telnet};
        left := left - {id};
      }
      assert bindings - {} == bindings;
    }
  }

  lemma PortsOfOneMore(b: map<nat, S.Binding>, left: set<nat>, id: nat)
    requires id in left && id in b
    ensures S.PortsOf(b - (left - {id})) == S.PortsOf(b - left) + {b[id].ssh, b[id].telnet}
  {
    var before, after := b - left, b - (left - {id});
    forall p | p in S.PortsOf(after) ensures p in S.PortsOf(before) + {b[id].ssh, b[id].telnet} {
      var i :| i in after && S.UsesPort(after[i], p);
      if i == id {
        assert after[id] == b[id] && S.UsesPort(b[id], p);
      } else {
        assert i in before && S.UsesPort(before[i], p);
        assert before[i].ssh in S.PortsOf(before) && before[i].telnet in S.PortsOf(before);
      }
    }
    forall p | p in S.PortsOf(before) + {b[id].ssh, b[id].telnet} ensures p in S.PortsOf(after) {
      if i :| i in before && S.UsesPort(before[i], p) {
        assert i in after && S.UsesPort(after[i], p);
      } else {
        assert id in after && S.UsesPort(after[id], p);
      }
    }
  }

  /** What a server instance is configured with. `useNat` is `(not local_pool and use_nat) or pool_only`. */
  datatype Config = Config(useNat: bool, publicIp: string, sshPort: nat, telnetPort: nat)

  /** What the outside contributes to one message: the clock and the ports of two new listeners. */
  datatype Env = Env(now: int, ssh: nat, telnet: nat)

  /** Pool and NAT table after a message, and the answer; no answer also where an exception escapes. */
  datatype Handled = Handled(pool: Pool, table: S.Nat, reply: Option<W.ToClient>)

  function PortNumber(p: int): nat {
    if p < 0 then 0 else p
  }

  /** What a message does, on values. */
  ghost function Handle(c: Config, p: Pool, n: S.Nat, m: W.ToServer, env: Env): Handled {
    match m
    case Initialise(maxVms, timeout, share) =>
      Handled(p.(maxVm := maxVms, timeout := timeout, share := share), n, Some(W.Initialised(0)))
    case RequestVm(ip) =>
      var choice := Select(p, ip);
      if choice.NoGuest? then Handled(p, if S.Stops(p, ip) && c.useNat then S.FreeAll(n) else n, Some(W.Refused(1)))
      else if choice.EmptyMin? then Handled(p, n, None)
      else
        var g := p.guests[choice.index];
        var q := p.(guests := p.guests[choice.index := Take(g, ip)]);
        if c.useNat then
          var t := S.RequestBinding(n, g.id, env.ssh, env.telnet);
          var b := t.bindings[g.id];
          Handled(q, t, Some(W.Granted(g.id, c.publicIp, PortNumber(b.ssh), PortNumber(b.telnet), g.snapshot)))
        else Handled(q, n, Some(W.Granted(g.id, g.ip, c.sshPort, c.telnetPort, g.snapshot)))
    case FreeVm(id) =>
      if c.useNat && id !in n.bindings then Handled(p, n, None)
      else Handled(FreeGuest(p, id, env.now), if c.useNat then S.FreeBinding(n, id) else n, None)
    case ReuseVm(id) =>
      if c.useNat && id !in n.bindings then Handled(p, n, None)
      else Handled(ReuseGuest(p, id), if c.useNat then S.FreeBinding(n, id) else n, None)
    case Unknown => Handled(p, n, None)
  }

  /** The bytes of an answer; `struct.pack` raises on what does not fit. */
  function Packed(reply: Option<W.ToClient>): Option<seq<byte>> {
    if reply.Some? && W.Answerable(reply.value) then Some(W.ToClientBytes(reply.value)) else None
  }

  class PoolServer {
    const pool: P.PoolService
    const table: NatService
    const config: Config
    var initialised: bool

    constructor (pool: P.PoolService, table: NatService, config: Config)
      ensures this.pool == pool && this.table == table && this.config == config && !initialised
    {
      this.pool, this.table, this.config, initialised := pool, table, config, false;
    }

    method DataReceived(data: seq<byte>, env: Env) returns (response: Option<seq<byte>>)
      requires pool.Valid()
      modifies this, table, pool`maxVm, pool`timeout, pool`share
      modifies pool.guests`prev, pool.guests`state, pool.guests`connected, pool.guests`clientIps, pool.guests`freed
      ensures pool.Valid() && pool.guests == old(pool.guests)
      ensures var m := W.ServerParse(data);
              var h := Handle(config, old(pool.Value()), old(table.Value()), if m.Ok? then m.value else W.Unknown, env);
              pool.Value() == h.pool && table.Value() == h.table && response == Packed(h.reply)
      ensures initialised == (old(initialised) || (W.ServerParse(data).Ok? && W.ServerParse(data).value.Initialise?))
    {
      hide Select, P.Values, P.NoDup, W.ServerParse, W.ToClientBytes, FreeGuest, ReuseGuest;
      var m := W.ServerParse(data);
      if m.Malformed? {
        return None;
      }
      match m.value {
        case Initialise(maxVms, timeout, share) =>
          pool.SetConfigs(maxVms, timeout, share);
          initialised := true;
          response := Packed(Some(W.Initialised(0)));
        case RequestVm(ip) =>
          response := Request(ip, env);
        case FreeVm(id) =>
          var known := true;
          if config.useNat {
            known := table.FreeBinding(id);
          }
          if known {
            pool.FreeVm(id, env.now);
          }
          response := None;
        case ReuseVm(id) =>
          var known := true;
          if config.useNat {
            known := table.FreeBinding(id);
          }
          if known {
            pool.ReuseVm(id);
          }
          response := None;
        case Unknown =>
          response := None;
      }
    }

    /** The branch of `dataReceived` for a request. */
    method Request(ip: string, env: Env) returns (response: Option<seq<byte>>)
      requires pool.Valid()
      modifies table, pool.guests`prev, pool.guests`state, pool.guests`connected, pool.guests`clientIps
      ensures pool.Valid()
      ensures var h := Handle(config, old(pool.Value()), old(table.Value()), W.RequestVm(ip), env);
              pool.Value() == h.pool && table.Value() == h.table && response == Packed(h.reply)
    {
      hide Select, Take, P.Values, P.NoDup, W.ToClientBytes, S.RequestBinding, S.FreeAll, S.PortsOf;
      var granted := pool.RequestVm(ip);
      match granted {
        case Granted(id, guestIp, snapshot) =>
          if config.useNat {
            var ssh, telnet := table.RequestBinding(id, env.ssh, env.telnet);
            response := Packed(Some(W.Granted(id, config.publicIp, PortNumber(ssh), PortNumber(telnet), snapshot)));
          } else {
            response := Packed(Some(W.Granted(id, guestIp, config.sshPort, config.telnetPort, snapshot)));
          }
        case NoAvailableVMs(stop) =>
          if stop && config.useNat {
            table.FreeAll();
          }
          response := Packed(Some(W.Refused(1)));
        case ValueError =>
          response := None;
      }
    }
  }

  // ---------------------------------------------------------------- the server is the protocol

  /** What a message means to the protocol when NAT is on; `serial` is the guest a given-back id stood for. */
  ghost function EventOf(m: W.ToServer, env: Env, serial: nat): S.Event
    requires !m.Unknown?
  {
    match m
    case Initialise(maxVms, timeout, share) => S.Init(maxVms, timeout, share)
    case RequestVm(ip) => S.Request(ip, env.ssh, env.telnet)
    case FreeVm(_) => S.Free(serial, env.now)
    case ReuseVm(_) => S.Reuse(serial)
  }

  /** The message gives back a guest by the id it was granted under. */
  predicate NamesLease(m: W.ToServer, serial: nat) {
    match m
    case FreeVm(id) => id == S.Id(serial)
    case ReuseVm(id) => id == S.Id(serial)
    case _ => true
  }

  /** With NAT on, handling a message of a client that keeps to its leases is a step of the protocol:
      everything proved of its runs holds of the server. */
  lemma HandleIsStep(c: Config, s: S.Sys, m: W.ToServer, env: Env, serial: nat)
    requires c.useNat && !m.Unknown? && NamesLease(m, serial)
    requires S.Inv(s) && S.Enabled(s, EventOf(m, env, serial))
    ensures var e := EventOf(m, env, serial);
            var h := Handle(c, s.pool, s.table, m, env);
            && (e.Free? || e.Reuse? ==> S.Id(serial) in s.table.bindings)
            && S.Inv(S.Step(s, e)) && S.Step(s, e).pool == h.pool && S.Step(s, e).table == h.table
  {
    S.StepKeeps(s, EventOf(m, env, serial));
    if m.RequestVm? {
      hide S.Inv, Select;
      assert !S.Stops(s.pool, m.srcIp);
    } else {
      hide S.Inv, S.Enabled, Select;
    }
  }

  // ---------------------------------------------------------------- what a client is told

  /** The guests in use that know this address. */
  ghost function Knows(ip: string): Guest -> bool {
    (g: Guest) => U.InUse(g) && ip in g.clientIps
  }

  /** What the guest `g` is to the client it was granted to: its id and snapshot, and where to reach it. */
  ghost predicate ToldOf(c: Config, g: Guest, n: S.Nat, after: S.Nat, env: Env, m: W.ToClient) {
    && m.Granted? && m.id == g.id && m.snapshot == g.snapshot
    && if !c.useNat then m.ip == g.ip && m.ssh == c.sshPort && m.telnet == c.telnetPort && after == n
       else
         && m.ip == c.publicIp && g.id in after.bindings
         && var b := after.bindings[g.id];
            && m.ssh == PortNumber(b.ssh) && m.telnet == PortNumber(b.telnet)
            && if g.id in n.bindings then b == n.bindings[g.id].(count := n.bindings[g.id].count + 1)
               else b == S.Binding(1, env.ssh, env.telnet)
  }

  /** What a request is answered, and what it does, with NAT or without: the guest that should serve it takes the
      client, and the client is told about that guest; where nobody serves, the answer is a refusal, or none if
      guests are shared. */
  lemma RequestAnswered(c: Config, p: Pool, n: S.Nat, ip: string, env: Env)
    ensures var h := Handle(c, p, n, W.RequestVm(ip), env);
            if U.NobodyServes(p, Knows(ip)) then
              && h.pool == p && h.reply == (if p.share then None else Some(W.Refused(1)))
              && h.table.bindings == n.bindings && (p.share || !p.anyUp || !c.useNat ==> h.table == n)
            else exists k :: 0 <= k < |p.guests| && U.ShouldServe(p, k, Knows(ip)) && h.reply.Some?
                             && ToldOf(c, p.guests[k], n, h.table, env, h.reply.value)
                             && var g := p.guests[k];
                                h.pool == p.(guests := p.guests[k :=
                                  g.(prev := Some(g.state), state := Using, connected := g.connected + 1, clientIps := g.clientIps + [ip])])
  {
    U.SelectShould(p, ip, Knows(ip));
    var choice := Select(p, ip);
    ServedOrNot(p, Knows(ip));
    if choice.Chosen? {
      ChosenTold(c, p, n, ip, env);
      hide *;
    } else {
      hide Select, U.ShouldServe, U.NobodyServes, Knows, S.PortsOf;
    }
  }

  lemma ChosenTold(c: Config, p: Pool, n: S.Nat, ip: string, env: Env)
    requires Select(p, ip).Chosen?
    ensures var h, k := Handle(c, p, n, W.RequestVm(ip), env), Select(p, ip).index;
            && k < |p.guests| && h.reply.Some? && ToldOf(c, p.guests[k], n, h.table, env, h.reply.value)
            && var g := p.guests[k];
               h.pool == p.(guests := p.guests[k :=
                 g.(prev := Some(g.state), state := Using, connected := g.connected + 1, clientIps := g.clientIps + [ip])])
  {
    hide Select;
  }

  lemma ServedOrNot(p: Pool, own: Guest -> bool)
    ensures forall k | 0 <= k < |p.guests| :: U.ShouldServe(p, k, own) ==> !U.NobodyServes(p, own)
  {
    forall k | 0 <= k < |p.guests| && U.ShouldServe(p, k, own) ensures !U.NobodyServes(p, own) {
      assert U.InUse(p.guests[k]) || U.IsFresh(p.guests[k]) || own(p.guests[k]);
    }
  }

  /** The other messages: settings are taken over, and giving back does to the pool what it does with NAT. */
  lemma OthersAnswered(c: Config, p: Pool, n: S.Nat, m: W.ToServer, env: Env)
    requires !m.RequestVm?
    ensures var h := Handle(c, p, n, m, env);
            && (m.Initialise? ==> h.reply == Some(W.Initialised(0)) && h.table == n
                                  && h.pool == p.(maxVm := m.maxVms, timeout := m.timeout, share := m.share))
            && (m.Unknown? ==> h == Handled(p, n, None))
            && (m.FreeVm? || m.ReuseVm? ==> h.reply == None)
            && (!c.useNat ==> h.table == n && (m.FreeVm? || m.ReuseVm? ==>
                  forall open, b :: h.pool == Handle(c.(useNat := true), p, S.Nat(map[m.id := b], open), m, env).pool))
  {
  }

  /** The ports a client is told are the ones that are bound for its guest, and they are listened on. */
  lemma ToldPortsAreOpen(c: Config, s: S.Sys, ip: string, env: Env, serial: nat)
    requires c.useNat && S.Inv(s) && S.Enabled(s, S.Request(ip, env.ssh, env.telnet))
    requires forall p | p in s.table.open :: p >= 0
    ensures var h := Handle(c, s.pool, s.table, W.RequestVm(ip), env);
            h.reply.Some? && h.reply.value.Granted? ==>
              && h.reply.value.id in h.table.bindings
              && h.table.bindings[h.reply.value.id].ssh == h.reply.value.ssh
              && h.table.bindings[h.reply.value.id].telnet == h.reply.value.telnet
              && {h.reply.value.ssh as int, h.reply.value.telnet as int} <= h.table.open
              && (s.leases == multiset{} ==> h.reply.value.ssh == env.ssh && h.reply.value.telnet == env.telnet)
  {
    var h := Handle(c, s.pool, s.table, W.RequestVm(ip), env);
    if h.reply.Some? && h.reply.value.Granted? {
      var id := h.reply.value.id;
      if id in s.table.bindings {
        var b := s.table.bindings[id];
        assert b.ssh in S.PortsOf(s.table.bindings) && b.telnet in S.PortsOf(s.table.bindings);
      }
    }
  }

  /** What a client sends is handled as what it meant, and it reads back the answer as the server meant it. */
  lemma ClientSeesHandled(c: Config, p: Pool, n: S.Nat, m: W.ToServer, env: Env, more: seq<byte>)
    requires W.Sendable(m)
    ensures var read := W.ServerParse(W.ToServerBytes(m));
            && read == W.Ok(m)
            && var reply := Handle(c, p, n, read.value, env).reply;
               Packed(reply).Some? ==> W.ClientParse(Packed(reply).value + more) == W.Ok(reply.value)
  {
    hide W.ServerParse, W.ToServerBytes, W.ClientParse, W.ToClientBytes, Handle;
    W.ServerReadsClient(m);
    var reply := Handle(c, p, n, m, env).reply;
    if Packed(reply).Some? {
      W.ClientReadsServer(reply.value, more);
    }
  }
}
