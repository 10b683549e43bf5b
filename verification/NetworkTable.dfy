/** The table of MAC addresses and the ips that the virtual network gives them. */
module NetworkTable {
  import opened PoolSystem

  function DigitValue(c: char): nat {
    if '0' <= c <= '9' then c as nat - '0' as nat else 0
  }

  /** The number a digit string stands for. */
  function Number(s: string): nat {
    if s == "" then 0 else Number(s[..|s| - 1]) * 10 + DigitValue(s[|s| - 1])
  }

  lemma {:induction false} NumberDigits(n: nat)
    ensures Number(Digits(n)) == n
  {
    if n < 10 {
      assert Digits(n)[..0] == "";
    } else {
      NumberDigits(n / 10);
      NumberDigits(n % 10);
      assert Digits(n)[..|Digits(n)| - 1] == Digits(n / 10);
    }
  }

  lemma IpsDiffer(a: nat, b: nat)
    requires TableIp(a) == TableIp(b)
    ensures a == b
  {
    var prefix := "192.168.150.";
    assert TableIp(a)[|prefix|..] == Digits(a) && TableIp(b)[|prefix|..] == Digits(b);
    NumberDigits(a);
    NumberDigits(b);
  }

  /** `generate_network_table` once the MACs are drawn: consecutive ips, one each, in whatever order the set is walked. */
  method GenerateNetworkTable(macs: set<string>) returns (table: map<string, string>)
    ensures table.Keys == macs && table.Values == Table(2 + |macs|)
    ensures forall a, b | a in macs && b in macs && a != b :: table[a] != table[b]
  {
    table := map[];
    var ipCounter := 2;
    var left := macs;
    while left != {}
      invariant left <= macs && table.Keys == macs - left && ipCounter + |left| == 2 + |macs| && ipCounter >= 2
      invariant table.Values == Table(ipCounter)
      invariant forall a, b | a in table && b in table && a != b :: table[a] != table[b]
    {
      var mac :| mac in left;
      NewIp(table, mac, ipCounter);
      table := table[mac := TableIp(ipCounter)];
      ipCounter := ipCounter + 1;
      left := left - {mac};
    }
  }

  lemma NewIp(table: map<string, string>, mac: string, n: nat)
    requires mac !in table && n >= 2 && table.Values == Table(n)
    ensures table[mac := TableIp(n)].Values == Table(n + 1)
    ensures forall a | a in table :: table[a] != TableIp(n)
  {
    var t := table[mac := TableIp(n)];
    assert Table(n + 1) == Table(n) + {TableIp(n)};
    assert t[mac] == TableIp(n);
    forall ip | ip in table.Values ensures ip in t.Values {
      var a :| a in table && table[a] == ip;
      assert t[a] == ip;
    }
    forall a | a in table ensures table[a] != TableIp(n) {
      assert table[a] in Table(n);
      var k :| 2 <= k < n && TableIp(k) == table[a];
      if TableIp(k) == TableIp(n) {
        IpsDiffer(k, n);
      }
    }
  }
}
