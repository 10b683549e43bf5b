/** Resolving a name through CNAME records: a depth-first search that shares one mutable set of visited names. */
module Cname {
  import opened Wrappers

  /** A dotted quad; never empty. */
  type Address = s: string | s != "" witness "0.0.0.0"

  /** The payloads the resolver looks at. Asking a AAAA record for its dotted quad raises. */
  datatype Record = CName(name: string) | A(address: Address) | Aaaa | Other

  /** What a lookup of each name gives; a name that is not there makes the lookup fail. A name is looked up at
      most once in a search, so the answers may as well be fixed. */
  type Dns = map<string, seq<Record>>

  class Visited {
    var names: set<string>

    constructor ()
      ensures names == {}
    {
      names := {};
    }
  }

  // ---------------------------------------------------------------- what is looked for

  /** The records before the first AAAA record, which ends the loop with an exception. */
  function Readable(rs: seq<Record>): seq<Record> {
    if rs == [] || rs[0].Aaaa? then [] else [rs[0]] + Readable(rs[1..])
  }

  predicate HasA(dns: Dns, name: string, a: Address) {
    name in dns && A(a) in Readable(dns[name])
  }

  predicate IsAlias(dns: Dns, name: string, target: string) {
    name in dns && CName(target) in Readable(dns[name])
  }

  /** A chain of aliases. */
  predicate IsChain(dns: Dns, chain: seq<string>) {
    chain != [] && forall i | 0 <= i < |chain| - 1 :: IsAlias(dns, chain[i], chain[i + 1])
  }

  ghost predicate Reaches(dns: Dns, name: string, target: string) {
    exists chain :: IsChain(dns, chain) && chain[0] == name && chain[|chain| - 1] == target
  }

  lemma ReachesSelf(dns: Dns, name: string)
    ensures Reaches(dns, name, name)
  {
    assert IsChain(dns, [name]) && [name][0] == name;
  }

  lemma ReachesMore(dns: Dns, name: string, next: string, target: string)
    requires IsAlias(dns, name, next) && Reaches(dns, next, target)
    ensures Reaches(dns, name, target)
  {
    var chain :| IsChain(dns, chain) && chain[0] == next && chain[|chain| - 1] == target;
    var longer := [name] + chain;
    forall i | 0 <= i < |longer| - 1 ensures IsAlias(dns, longer[i], longer[i + 1]) {
      if i > 0 {
        assert longer[i] == chain[i - 1] && longer[i + 1] == chain[i];
      }
    }
    assert longer[|longer| - 1] == target;
  }

  // ---------------------------------------------------------------- search along one path at a time

  /** The search without a shared set: every alias is followed again from each name that has it, and only the
      names on the way from the start to here are avoided. */
  function Follow(dns: Dns, name: string, path: set<string>): Option<Address>
    decreases dns.Keys - path, 0, 0
  {
    if name in path || name !in dns then None else FollowRecords(dns, dns[name], path + {name})
  }

  function FollowRecords(dns: Dns, rs: seq<Record>, path: set<string>): Option<Address>
    decreases dns.Keys - path, 1, |rs|
  {
    if rs == [] then None
    else match rs[0]
      case CName(target) =>
        var r := Follow(dns, target, path);
        if r.Some? then r else FollowRecords(dns, rs[1..], path)
      case A(a) => Some(a)
      case Aaaa => None
      case Other => FollowRecords(dns, rs[1..], path)
  }

  /** A record that ends the search for `name`: an address, or an alias that leads to one. */
  ghost predicate Gives(dns: Dns, r: Record, path: set<string>, a: Address) {
    r == A(a) || (r.CName? && Follow(dns, r.name, path) == Some(a))
  }

  ghost predicate GivesNone(dns: Dns, r: Record, path: set<string>) {
    forall a :: !Gives(dns, r, path, a)
  }

  /** The record at `k` is the first that gives an address. */
  ghost predicate FirstGives(dns: Dns, rs: seq<Record>, k: nat, path: set<string>, a: Address) {
    k < |rs| && Gives(dns, rs[k], path, a) && forall i | 0 <= i < k :: GivesNone(dns, rs[i], path)
  }

  lemma FirstGivesCons(dns: Dns, r: Record, rs: seq<Record>, path: set<string>, a: Address)
    ensures (exists k: nat :: FirstGives(dns, [r] + rs, k, path, a)) <==>
              Gives(dns, r, path, a) || (GivesNone(dns, r, path) && exists k: nat :: FirstGives(dns, rs, k, path, a))
  {
    var all := [r] + rs;
    if Gives(dns, r, path, a) {
      assert FirstGives(dns, all, 0, path, a);
    }
    if k: nat :| FirstGives(dns, rs, k, path, a) && GivesNone(dns, r, path) {
      forall i | 0 <= i < k + 1 ensures GivesNone(dns, all[i], path) {
        assert i > 0 ==> all[i] == rs[i - 1];
      }
      assert FirstGives(dns, all, k + 1, path, a);
    }
    if k: nat :| FirstGives(dns, all, k, path, a) && k > 0 {
      assert GivesNone(dns, all[0], path);
      forall i | 0 <= i < k - 1 ensures GivesNone(dns, rs[i], path) {
        assert rs[i] == all[i + 1];
      }
      assert FirstGives(dns, rs, k - 1, path, a);
    }
  }

  /** The first record decides, or the others do. */
  lemma FirstOrRest(dns: Dns, rs: seq<Record>, path: set<string>, a: Address)
    requires rs != [] && !rs[0].Aaaa?
    ensures FollowRecords(dns, rs, path) == Some(a) <==>
              Gives(dns, rs[0], path, a) || (GivesNone(dns, rs[0], path) && FollowRecords(dns, rs[1..], path) == Some(a))
  {
    if rs[0].CName? {
      var r := Follow(dns, rs[0].name, path);
      assert if r.Some? then Gives(dns, rs[0], path, r.value) else GivesNone(dns, rs[0], path);
    } else if rs[0].A? {
      assert Gives(dns, rs[0], path, rs[0].address);
    } else {
      assert GivesNone(dns, rs[0], path);
    }
  }

  lemma {:induction false} FirstRecordThatGives(dns: Dns, rs: seq<Record>, path: set<string>, a: Address)
    ensures FollowRecords(dns, rs, path) == Some(a) <==> exists k: nat :: FirstGives(dns, Readable(rs), k, path, a)
    decreases |rs|
  {
    if rs == [] || rs[0].Aaaa? {
      assert Readable(rs) == [];
    } else {
      FirstRecordThatGives(dns, rs[1..], path, a);
      FirstGivesCons(dns, rs[0], Readable(rs[1..]), path, a);
      FirstOrRest(dns, rs, path, a);
      assert [rs[0]] + Readable(rs[1..]) == Readable(rs);
      hide *;
    }
  }

  /** The address found is the one that the first record leads to that leads to any, with the same said of every name
      on the way; a name already on the way, or unknown, leads nowhere. */
  lemma FirstAddressFound(dns: Dns, name: string, path: set<string>, a: Address)
    ensures Follow(dns, name, path) == Some(a) <==>
              && name !in path && name in dns
              && exists k: nat :: FirstGives(dns, Readable(dns[name]), k, path + {name}, a)
  {
    if name !in path && name in dns {
      FirstRecordThatGives(dns, dns[name], path + {name}, a);
    }
  }

  // ---------------------------------------------------------------- names that were given up

  /** The names in `failed` have no A record, and their aliases have been given up too or are still being
      searched (`stack`). */
  ghost predicate Settled(dns: Dns, failed: set<string>, stack: set<string>) {
    && (forall f, a | f in failed :: !HasA(dns, f, a))
    && (forall f, t | f in failed && IsAlias(dns, f, t) :: t in failed || t in stack)
  }

  /** Following a name that was given up once more finds nothing, from wherever that is tried. */
  lemma {:induction false} FailedAgain(dns: Dns, name: string, path: set<string>, failed: set<string>, stack: set<string>)
    requires Settled(dns, failed, stack) && stack <= path && (name in failed || name in stack)
    ensures Follow(dns, name, path) == None
    decreases dns.Keys - path, 0, 0
  {
    if name !in path && name in dns {
      forall a ensures A(a) !in Readable(dns[name]) {
        assert !HasA(dns, name, a);
      }
      forall t | CName(t) in Readable(dns[name]) ensures t in failed || t in stack {
        assert IsAlias(dns, name, t);
      }
      FailedRecords(dns, dns[name], path + {name}, failed, stack);
    }
  }

  lemma {:induction false} FailedRecords(dns: Dns, rs: seq<Record>, path: set<string>, failed: set<string>, stack: set<string>)
    requires Settled(dns, failed, stack) && stack <= path
    requires forall a :: A(a) !in Readable(rs)
    requires forall t | CName(t) in Readable(rs) :: t in failed || t in stack
    ensures FollowRecords(dns, rs, path) == None
    decreases dns.Keys - path, 1, |rs|
  {
    hide Settled;
    if rs != [] && !rs[0].Aaaa? {
      assert rs[0] in Readable(rs);
      if rs[0].CName? {
        FailedAgain(dns, rs[0].name, path, failed, stack);
      }
      FailedRecords(dns, rs[1..], path, failed, stack);
    }
  }

  /** Nothing can be reached from a settled set but the set itself. */
  lemma {:induction false} SettledIsClosed(dns: Dns, failed: set<string>, chain: seq<string>)
    requires Settled(dns, failed, {}) && IsChain(dns, chain) && chain[0] in failed
    ensures chain[|chain| - 1] in failed
  {
    if |chain| > 1 {
      assert IsAlias(dns, chain[0], chain[1]);
      forall i | 0 <= i < |chain[1..]| - 1 ensures IsAlias(dns, chain[1..][i], chain[1..][i + 1]) {
        assert IsAlias(dns, chain[i + 1], chain[i + 1 + 1]);
      }
      SettledIsClosed(dns, failed, chain[1..]);
    }
  }

  // ---------------------------------------------------------------- the search of the program

  /** The record is not an A record, and if it is an alias its target has been visited. */
  predicate Dealt(rr: Record, names: set<string>) {
    !rr.A? && (rr.CName? ==> rr.name in names)
  }

  /** `resolve_cname`. The shared set cuts off more than cycles, and yet the answer is that of following every
      path (`stack`: the names whose search has begun and not ended). */
  method ResolveCname(dns: Dns, address: string, visited: Visited, ghost stack: set<string>) returns (r: Option<Address>)
    requires stack <= visited.names && Settled(dns, visited.names - stack, stack)
    modifies visited
    ensures old(visited.names) + {address} <= visited.names
    ensures r == Follow(dns, address, stack)
    ensures r.None? ==> Settled(dns, visited.names - stack, stack)
    ensures r.Some? ==> exists target :: Reaches(dns, address, target) && HasA(dns, target, r.value)
    decreases dns.Keys - visited.names
  {
    if address in visited.names {
      FailedAgain(dns, address, stack, visited.names - stack, stack);
      return None;
    }
    visited.names := visited.names + {address};
    if address !in dns {
      return None;
    }
    ghost var rest, inner := visited.names, stack + {address};
    assert visited.names - inner == old(visited.names) - stack;
    var left := dns[address];
    while left != []
      invariant old(visited.names) + {address} <= visited.names
      invariant Follow(dns, address, stack) == FollowRecords(dns, left, inner)
      invariant Settled(dns, visited.names - inner, inner)
      invariant forall rr | rr in Readable(dns[address]) :: rr in Readable(left) || Dealt(rr, visited.names)
      invariant forall rr | rr in Readable(left) :: rr in Readable(dns[address])
      decreases |left|
    {
      var rr := left[0];
      match rr {
        case CName(name) =>
          assert IsAlias(dns, address, name);
          r := ResolveCname(dns, name, visited, inner);
          if r.Some? {
            ghost var target :| Reaches(dns, name, target) && HasA(dns, target, r.value);
            ReachesMore(dns, address, name, target);
            return;
          }
        case A(a) =>
          assert A(a) in Readable(left);
          assert HasA(dns, address, a);
          ReachesSelf(dns, address);
          return Some(a);
        case Aaaa =>
          GivenUp(dns, address, visited.names, stack);
          return None;
        case Other =>
      }
      left := left[1..];
    }
    GivenUp(dns, address, visited.names, stack);
    return None;
  }

  /** A name all of whose records are dealt with joins the ones given up. */
  lemma GivenUp(dns: Dns, address: string, names: set<string>, stack: set<string>)
    requires address in dns && address in names && address !in stack
    requires Settled(dns, names - (stack + {address}), stack + {address})
    requires forall rr | rr in Readable(dns[address]) :: Dealt(rr, names)
    ensures Settled(dns, names - stack, stack)
  {
  }

  /** A search from the top: an address exactly if some name down the aliases has one, and then one of those.
      It ends on every answer, cyclic or not. */
  method Resolve(dns: Dns, address: string) returns (r: Option<Address>)
    ensures r == Follow(dns, address, {})
    ensures r.Some? ==> exists target :: Reaches(dns, address, target) && HasA(dns, target, r.value)
    ensures r.None? ==> forall target, a | Reaches(dns, address, target) :: !HasA(dns, target, a)
  {
    var visited := new Visited();
    r := ResolveCname(dns, address, visited, {});
    if r.None? {
      forall target, a | Reaches(dns, address, target) ensures !HasA(dns, target, a) {
        var chain :| IsChain(dns, chain) && chain[0] == address && chain[|chain| - 1] == target;
        SettledIsClosed(dns, visited.names - {}, chain);
      }
    }
  }

  // ---------------------------------------------------------------- who may be contacted

  datatype Ip = V4(n: nat) | V6(n: nat)

  /** A network: its first address and how many it has, a power of two. */
  datatype Network = Network(base: nat, size: nat)

  function Quad(a: nat, b: nat, c: nat, d: nat): nat {
    ((a * 256 + b) * 256 + c) * 256 + d
  }

  /** 2 to the 32 - `prefix`, for the prefix lengths that occur. */
  const SLASH4 := 0x1000_0000
  const SLASH8 := 0x100_0000
  const SLASH12 := 0x10_0000
  const SLASH16 := 0x1_0000

  const BLOCKED_IPS := [
    Network(Quad(0, 0, 0, 0), SLASH8), Network(Quad(10, 0, 0, 0), SLASH8), Network(Quad(172, 16, 0, 0), SLASH12),
    Network(Quad(192, 168, 0, 0), SLASH16), Network(Quad(169, 254, 0, 0), SLASH16), Network(Quad(100, 100, 100, 200), 1),
    Network(Quad(127, 0, 0, 0), SLASH8), Network(Quad(0, 0, 0, 0), SLASH8), Network(Quad(224, 0, 0, 0), SLASH4),
    Network(Quad(240, 0, 0, 0), SLASH4), Network(Quad(255, 255, 255, 255), 1)]

  /** Same leading bits; an address of version 6 is in no network of version 4. */
  predicate InNetwork(ip: Ip, net: Network)
    requires net.size > 0
  {
    ip.V4? && ip.n / net.size == net.base / net.size
  }

  /** The blocked addresses, range by range. */
  predicate Blocked(ip: Ip) {
    && ip.V4?
    && (|| ip.n <= Quad(0, 255, 255, 255)
        || Quad(10, 0, 0, 0) <= ip.n <= Quad(10, 255, 255, 255)
        || ip.n == Quad(100, 100, 100, 200)
        || Quad(127, 0, 0, 0) <= ip.n <= Quad(127, 255, 255, 255)
        || Quad(169, 254, 0, 0) <= ip.n <= Quad(169, 254, 255, 255)
        || Quad(172, 16, 0, 0) <= ip.n <= Quad(172, 31, 255, 255)
        || Quad(192, 168, 0, 0) <= ip.n <= Quad(192, 168, 255, 255)
        || Quad(224, 0, 0, 0) <= ip.n <= Quad(255, 255, 255, 255))
  }

  predicate InRange(ip: Ip, first: nat, last: nat) {
    ip.V4? && first <= ip.n <= last
  }

  lemma LowNetworks(ip: Ip)
    ensures InNetwork(ip, BLOCKED_IPS[0]) <==> InRange(ip, 0, Quad(0, 255, 255, 255))
    ensures InNetwork(ip, BLOCKED_IPS[1]) <==> InRange(ip, Quad(10, 0, 0, 0), Quad(10, 255, 255, 255))
    ensures InNetwork(ip, BLOCKED_IPS[2]) <==> InRange(ip, Quad(172, 16, 0, 0), Quad(172, 31, 255, 255))
    ensures InNetwork(ip, BLOCKED_IPS[3]) <==> InRange(ip, Quad(192, 168, 0, 0), Quad(192, 168, 255, 255))
    ensures InNetwork(ip, BLOCKED_IPS[4]) <==> InRange(ip, Quad(169, 254, 0, 0), Quad(169, 254, 255, 255))
  {
  }

  lemma HighNetworks(ip: Ip)
    ensures InNetwork(ip, BLOCKED_IPS[5]) <==> InRange(ip, Quad(100, 100, 100, 200), Quad(100, 100, 100, 200))
    ensures InNetwork(ip, BLOCKED_IPS[6]) <==> InRange(ip, Quad(127, 0, 0, 0), Quad(127, 255, 255, 255))
    ensures BLOCKED_IPS[7] == BLOCKED_IPS[0]
    ensures InNetwork(ip, BLOCKED_IPS[8]) <==> InRange(ip, Quad(224, 0, 0, 0), Quad(239, 255, 255, 255))
    ensures InNetwork(ip, BLOCKED_IPS[9]) <==> InRange(ip, Quad(240, 0, 0, 0), Quad(255, 255, 255, 255))
    ensures InNetwork(ip, BLOCKED_IPS[10]) <==> InRange(ip, Quad(255, 255, 255, 255), Quad(255, 255, 255, 255))
  {
  }

  lemma NetworksAreRanges(ip: Ip)
    ensures (exists i | 0 <= i < |BLOCKED_IPS| :: InNetwork(ip, BLOCKED_IPS[i])) <==> Blocked(ip)
  {
    hide InNetwork;
    LowNetworks(ip);
    HighNetworks(ip);
  }

  /** `communication_allowed`, given how the address library reads strings. A name is judged by the address that
      following its aliases finds first. */
  method CommunicationAllowed(dns: Dns, address: string, parse: string -> Option<Ip>) returns (allowed: bool)
    ensures var ip := if parse(address).Some? then parse(address)
                      else if Follow(dns, address, {}).Some? then parse(Follow(dns, address, {}).value) else None;
            allowed <==> ip.Some? && !Blocked(ip.value)
  {
    var ip := parse(address);
    if ip.None? {
      var result := Resolve(dns, address);
      if result.None? {
        return false;
      }
      ip := parse(result.value);
      if ip.None? {
        return false;
      }
    }
    NetworksAreRanges(ip.value);
    for i := 0 to |BLOCKED_IPS|
      invariant forall k | 0 <= k < i :: !InNetwork(ip.value, BLOCKED_IPS[k])
    {
      if InNetwork(ip.value, BLOCKED_IPS[i]) {
        return false;
      }
    }
    return true;
  }
}
