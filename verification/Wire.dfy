/** The wire protocol of the backend pool: what client and server put into bytes and read back. */
module Wire {
  import opened Wrappers

  datatype Result<+T> = Ok(value: T) | Malformed

  /** Messages to the server. */
  datatype ToServer =
    | Initialise(maxVms: nat, timeout: nat, share: bool)
    | RequestVm(srcIp: string)
    | FreeVm(id: nat)
    | ReuseVm(id: nat)
    | Unknown

  /** Messages to the client. */
  datatype ToClient =
    | Initialised(code: nat)
    | Granted(id: nat, ip: string, ssh: nat, telnet: nat, snapshot: string)
    | Refused(code: nat)
    | Other

  const U16 := 0x1_0000
  const U32 := 0x1_0000_0000

  predicate Ascii(s: string) {
    forall i | 0 <= i < |s| :: s[i] as int < 128
  }

  predicate Short(s: string) {
    Ascii(s) && |s| < U16
  }

  // ---------------------------------------------------------------- numbers and strings

  /** struct format `!H` */
  function PackH(n: nat): (b: seq<byte>)
    requires n < U16
    ensures |b| == 2
  {
    [n / 256, n % 256]
  }

  function UnpackH(b: seq<byte>): (n: nat)
    requires |b| == 2
    ensures n < U16
  {
    b[0] as int * 256 + b[1] as int
  }

  /** struct format `!I` */
  function PackI(n: nat): (b: seq<byte>)
    requires n < U32
    ensures |b| == 4
  {
    PackH(n / U16) + PackH(n % U16)
  }

  function UnpackI(b: seq<byte>): (n: nat)
    requires |b| == 4
    ensures n < U32
  {
    UnpackH(b[..2]) * U16 + UnpackH(b[2..])
  }

  function Encode(s: string): (b: seq<byte>)
    requires Ascii(s)
    ensures |b| == |s| && forall i | 0 <= i < |b| :: b[i] == s[i] as int
  {
    seq(|s|, i requires 0 <= i < |s| => s[i] as int as byte)
  }

  predicate AsciiBytes(b: seq<byte>) {
    forall i | 0 <= i < |b| :: b[i] < 128
  }

  function Decode(b: seq<byte>): (s: string)
    requires AsciiBytes(b)
    ensures Ascii(s) && |s| == |b| && forall i | 0 <= i < |b| :: b[i] == s[i] as int
  {
    seq(|b|, i requires 0 <= i < |b| => b[i] as char)
  }

  lemma PackUnpackI(n: nat)
    requires n < U32
    ensures UnpackI(PackI(n)) == n
  {
    var b := PackI(n);
    assert b[..2] == PackH(n / U16) && b[2..] == PackH(n % U16);
  }

  lemma UnpackPackI(b: seq<byte>)
    requires |b| == 4
    ensures PackI(UnpackI(b)) == b
  {
    var hi, lo := UnpackH(b[..2]), UnpackH(b[2..]);
    assert UnpackI(b) / U16 == hi && UnpackI(b) % U16 == lo;
    assert PackH(hi) == b[..2] && PackH(lo) == b[2..];
  }

  lemma EncodeDecode(b: seq<byte>)
    requires AsciiBytes(b)
    ensures Encode(Decode(b)) == b
  {
  }

  lemma DecodeEncode(s: string)
    requires Ascii(s)
    ensures AsciiBytes(Encode(s)) && Decode(Encode(s)) == s
  {
    var t := Decode(Encode(s));
    forall i | 0 <= i < |s| ensures t[i] == s[i] {
      assert t[i] as int == s[i] as int;
    }
  }

  // ---------------------------------------------------------------- to the server

  const OP_I: byte := 105
  const OP_R: byte := 114
  const OP_F: byte := 102
  const OP_U: byte := 117

  predicate Sendable(m: ToServer) {
    match m
    case Initialise(maxVms, timeout, _) => maxVms < U32 && timeout < U32
    case RequestVm(ip) => Short(ip)
    case FreeVm(id) => id < U32
    case ReuseVm(id) => id < U32
    case Unknown => false
  }

  /** `send_initialisation`, `send_vm_request` and `send_vm_free`. */
  function ToServerBytes(m: ToServer): seq<byte>
    requires Sendable(m)
  {
    match m
    case Initialise(maxVms, timeout, share) => [OP_I] + PackI(maxVms) + PackI(timeout) + [if share then 1 else 0]
    case RequestVm(ip) => [OP_R] + PackH(|ip|) + Encode(ip)
    case FreeVm(id) => [OP_F] + PackI(id)
    case ReuseVm(id) => [OP_U] + PackI(id)
  }

  /** How `PoolServer.dataReceived` takes a message apart; `Malformed` where `struct` raises. */
  function ServerParse(data: seq<byte>): Result<ToServer> {
    if data == [] then Malformed
    else if data[0] == OP_I then
      if |data| != 10 then Malformed
      else Ok(Initialise(UnpackI(data[1..5]), UnpackI(data[5..9]), data[9] != 0))
    else if data[0] == OP_R then
      if |data| < 3 || |data| - 3 != UnpackH(data[1..3]) || !AsciiBytes(data[3..]) then Malformed
      else Ok(RequestVm(Decode(data[3..])))
    else if data[0] == OP_F || data[0] == OP_U then
      if |data| != 5 then Malformed
      else if data[0] == OP_F then Ok(FreeVm(UnpackI(data[1..]))) else Ok(ReuseVm(UnpackI(data[1..])))
    else Ok(Unknown)
  }

  /** The server reads exactly what the client sent. */
  lemma ServerReadsClient(m: ToServer)
    requires Sendable(m)
    ensures ServerParse(ToServerBytes(m)) == Ok(m)
  {
    var b := ToServerBytes(m);
    match m {
      case Initialise(maxVms, timeout, share) =>
        assert b[1..5] == PackI(maxVms) && b[5..9] == PackI(timeout);
        PackUnpackI(maxVms);
        PackUnpackI(timeout);
      case RequestVm(ip) =>
        assert b[1..3] == PackH(|ip|) && b[3..] == Encode(ip);
        DecodeEncode(ip);
      case FreeVm(id) =>
        assert b[1..] == PackI(id);
        PackUnpackI(id);
      case ReuseVm(id) =>
        assert b[1..] == PackI(id);
        PackUnpackI(id);
      case Unknown =>
    }
  }

  /** What the server accepts is what some client message would have been, byte for byte, except that the
      flag byte of an initialisation may be any non-zero value. */
  lemma AcceptedIsEncoded(data: seq<byte>)
    requires ServerParse(data).Ok? && !ServerParse(data).value.Unknown?
    ensures var m := ServerParse(data).value;
            && Sendable(m)
            && (ToServerBytes(m) == data <==> m.Initialise? ==> data[9] <= 1)
  {
    var m := ServerParse(data).value;
    if m.Initialise? {
      UnpackPackI(data[1..5]);
      UnpackPackI(data[5..9]);
      hide PackH, PackI, UnpackH, UnpackI;
      var b := ToServerBytes(m);
      assert data == [data[0]] + data[1..5] + data[5..9] + [data[9]];
      assert b[9] == if m.share then 1 else 0;
    } else if m.RequestVm? {
      EncodeDecode(data[3..]);
      assert PackH(UnpackH(data[1..3])) == data[1..3];
      assert data == [data[0]] + data[1..3] + data[3..];
      assert |m.srcIp| == UnpackH(data[1..3]);
    } else {
      UnpackPackI(data[1..]);
      hide PackH, PackI, UnpackH, UnpackI;
      assert data == [data[0]] + data[1..];
    }
  }

  /** Distinct messages have distinct bytes. */
  lemma ServerBytesInjective(a: ToServer, b: ToServer)
    requires Sendable(a) && Sendable(b) && ToServerBytes(a) == ToServerBytes(b)
    ensures a == b
  {
    ServerReadsClient(a);
    ServerReadsClient(b);
  }

  // ---------------------------------------------------------------- to the client

  predicate Answerable(m: ToClient) {
    match m
    case Initialised(code) => code < U32
    case Granted(id, ip, ssh, telnet, snapshot) => id < U32 && Short(ip) && ssh < U16 && telnet < U16 && Short(snapshot)
    case Refused(code) => 0 < code < U32
    case Other => false
  }

  function ToClientBytes(m: ToClient): seq<byte>
    requires Answerable(m)
  {
    match m
    case Initialised(code) => [OP_I] + PackI(code)
    case Granted(id, ip, ssh, telnet, snapshot) =>
      [OP_R] + PackI(0) + GrantBody(id, ip, ssh, telnet, snapshot, [])
    case Refused(code) => [OP_R] + PackI(code)
  }

  /** The fields of a grant, and what follows them. */
  function GrantBody(id: nat, ip: string, ssh: nat, telnet: nat, snapshot: string, more: seq<byte>): seq<byte>
    requires Answerable(Granted(id, ip, ssh, telnet, snapshot))
  {
    PackI(id) + (PackH(|ip|) + (Encode(ip) + (PackH(ssh) + PackH(telnet) + (PackH(|snapshot|) + (Encode(snapshot) + more)))))
  }

  /** `data[:n]` and `data[n:]` never raise; reading a number from too short a slice does. */
  function Cut(data: seq<byte>, n: nat): (r: (seq<byte>, seq<byte>))
    ensures r.0 + r.1 == data
  {
    if n <= |data| then (data[..n], data[n..]) else (data, [])
  }

  function ParseGrant(data: seq<byte>): Result<ToClient> {
    var (idB, d1) := Cut(data, 4);
    if |idB| != 4 then Malformed else
    var (lenB, d2) := Cut(d1, 2);
    if |lenB| != 2 then Malformed else
    var (ipB, d3) := Cut(d2, UnpackH(lenB));
    if |ipB| != UnpackH(lenB) || !AsciiBytes(ipB) then Malformed else
    var (portB, d4) := Cut(d3, 4);
    if |portB| != 4 then Malformed else
    var (slenB, d5) := Cut(d4, 2);
    if |slenB| != 2 then Malformed else
    var (snapB, d6) := Cut(d5, UnpackH(slenB));
    if |snapB| != UnpackH(slenB) || !AsciiBytes(snapB) then Malformed else
    Ok(Granted(UnpackI(idB), Decode(ipB), UnpackH(portB[..2]), UnpackH(portB[2..]), Decode(snapB)))
  }

  /** How `PoolClient.dataReceived` takes a reply apart; it reads what it needs and ignores what follows. */
  function ClientParse(data: seq<byte>): Result<ToClient> {
    if |data| < 5 then Malformed
    else
      var code := UnpackI(data[1..5]);
      if data[0] == OP_I then Ok(Initialised(code))
      else if data[0] == OP_R then (if code != 0 then Ok(Refused(code)) else ParseGrant(data[5..]))
      else Ok(Other)
  }

  lemma CutAt(a: seq<byte>, b: seq<byte>)
    ensures Cut(a + b, |a|) == (a, b)
  {
    assert (a + b)[..|a|] == a && (a + b)[|a|..] == b;
  }

  lemma GrantRoundTrip(id: nat, ip: string, ssh: nat, telnet: nat, snapshot: string, more: seq<byte>)
    requires Answerable(Granted(id, ip, ssh, telnet, snapshot))
    ensures ParseGrant(GrantBody(id, ip, ssh, telnet, snapshot, more)) == Ok(Granted(id, ip, ssh, telnet, snapshot))
  {
    var d5 := Encode(snapshot) + more;
    var d4 := PackH(|snapshot|) + d5;
    var ports := PackH(ssh) + PackH(telnet);
    var d3 := ports + d4;
    var d2 := Encode(ip) + d3;
    var d1 := PackH(|ip|) + d2;
    CutAt(PackI(id), d1);
    CutAt(PackH(|ip|), d2);
    CutAt(Encode(ip), d3);
    CutAt(ports, d4);
    CutAt(PackH(|snapshot|), d5);
    CutAt(Encode(snapshot), more);
    assert ports[..2] == PackH(ssh) && ports[2..] == PackH(telnet);
    PackUnpackI(id);
    DecodeEncode(ip);
    DecodeEncode(snapshot);
  }

  lemma Assoc(a: seq<byte>, b: seq<byte>, c: seq<byte>)
    ensures a + b + c == a + (b + c)
  {
  }

  lemma GrantBodyMore(id: nat, ip: string, ssh: nat, telnet: nat, snapshot: string, more: seq<byte>)
    requires Answerable(Granted(id, ip, ssh, telnet, snapshot))
    ensures GrantBody(id, ip, ssh, telnet, snapshot, []) + more == GrantBody(id, ip, ssh, telnet, snapshot, more)
  {
    hide PackI, PackH, Encode;
    var e, l, ports, i, h := Encode(snapshot), PackH(|snapshot|), PackH(ssh) + PackH(telnet), Encode(ip), PackH(|ip|);
    assert e + [] == e;
    Assoc(l, e, more);
    Assoc(ports, l + e, more);
    Assoc(i, ports + (l + e), more);
    Assoc(h, i + (ports + (l + e)), more);
    Assoc(PackI(id), h + (i + (ports + (l + e))), more);
  }

  /** The client reads exactly what the server answered, whatever arrives after it. */
  lemma ClientReadsServer(m: ToClient, more: seq<byte>)
    requires Answerable(m)
    ensures ClientParse(ToClientBytes(m) + more) == Ok(m)
  {
    hide GrantBody, ParseGrant;
    match m {
      case Initialised(code) => HeadRead(OP_I, code, [], more);
      case Refused(code) => HeadRead(OP_R, code, [], more);
      case Granted(id, ip, ssh, telnet, snapshot) =>
        HeadRead(OP_R, 0, GrantBody(id, ip, ssh, telnet, snapshot, []), more);
        GrantBodyMore(id, ip, ssh, telnet, snapshot, more);
        GrantRoundTrip(id, ip, ssh, telnet, snapshot, more);
      case Other =>
    }
  }

  lemma HeadRead(op: byte, code: nat, body: seq<byte>, more: seq<byte>)
    requires code < U32
    ensures var data := [op] + PackI(code) + body + more;
            && |data| >= 5 && data[0] == op && UnpackI(data[1..5]) == code && data[5..] == body + more
            && (body == [] ==> data == [op] + PackI(code) + more)
  {
    var data := [op] + PackI(code) + body + more;
    assert data[1..5] == PackI(code);
    PackUnpackI(code);
  }

  lemma ClientBytesInjective(a: ToClient, b: ToClient)
    requires Answerable(a) && Answerable(b) && ToClientBytes(a) == ToClientBytes(b)
    ensures a == b
  {
    ClientReadsServer(a, []);
    ClientReadsServer(b, []);
  }

  // ---------------------------------------------------------------- the bytes themselves

  /** A number in network byte order. */
  function BigEndian(b: seq<byte>): nat {
    if b == [] then 0 else BigEndian(b[..|b| - 1]) * 256 + b[|b| - 1] as int
  }

  lemma TwoBytes(n: nat)
    requires n < U16
    ensures BigEndian(PackH(n)) == n
  {
    var b := PackH(n);
    assert b[..1] == [n / 256] && b[..1][..0] == [] && b[1] == n % 256;
    assert BigEndian(b[..1]) == n / 256;
  }

  lemma FourBytes(n: nat)
    requires n < U32
    ensures BigEndian(PackI(n)) == n
  {
    var b, hi, lo := PackI(n), PackH(n / U16), PackH(n % U16);
    TwoBytes(n / U16);
    assert b[..3] == hi + [lo[0]] && b[..3][..2] == hi && b[3] == lo[1] && b[..3][2] == lo[0];
    assert BigEndian(b[..3]) == BigEndian(hi) * 256 + lo[0] as int;
  }

  /** What goes over the wire to the server, byte by byte: a letter, then numbers in network order and text as ASCII. */
  lemma ToServerLayout(m: ToServer)
    requires Sendable(m)
    ensures var b := ToServerBytes(m);
            && (m.Initialise? ==>
                  && |b| == 10 && b[0] == 'i' as int && BigEndian(b[1..5]) == m.maxVms && BigEndian(b[5..9]) == m.timeout
                  && b[9] == if m.share then 1 else 0)
            && (m.RequestVm? ==>
                  && |b| == 3 + |m.srcIp| && b[0] == 'r' as int && BigEndian(b[1..3]) == |m.srcIp|
                  && forall k | 0 <= k < |m.srcIp| :: b[3 + k] == m.srcIp[k] as int)
            && (m.FreeVm? ==> |b| == 5 && b[0] == 'f' as int && BigEndian(b[1..]) == m.id)
            && (m.ReuseVm? ==> |b| == 5 && b[0] == 'u' as int && BigEndian(b[1..]) == m.id)
  {
    var b := ToServerBytes(m);
    hide BigEndian, PackH, PackI;
    match m {
      case Initialise(maxVms, timeout, share) =>
        assert b[1..5] == PackI(maxVms) && b[5..9] == PackI(timeout);
        FourBytes(maxVms);
        FourBytes(timeout);
      case RequestVm(ip) =>
        assert b[1..3] == PackH(|ip|) && b[3..] == Encode(ip);
        TwoBytes(|ip|);
        forall k | 0 <= k < |ip| ensures b[3 + k] == ip[k] as int {
          assert b[3 + k] == b[3..][k];
        }
      case FreeVm(id) =>
        assert b[1..] == PackI(id);
        FourBytes(id);
      case ReuseVm(id) =>
        assert b[1..] == PackI(id);
        FourBytes(id);
    }
  }

  /** And to the client. */
  lemma ToClientLayout(m: ToClient)
    requires Answerable(m)
    ensures var b := ToClientBytes(m);
            && (m.Initialised? ==> |b| == 5 && b[0] == 'i' as int && BigEndian(b[1..]) == m.code)
            && (m.Refused? ==> |b| == 5 && b[0] == 'r' as int && BigEndian(b[1..]) == m.code)
            && (m.Granted? ==>
                  var n := |m.ip|;
                  && |b| == 17 + n + |m.snapshot| && b[0] == 'r' as int && BigEndian(b[1..5]) == 0 && BigEndian(b[5..9]) == m.id
                  && BigEndian(b[9..11]) == n && (forall k | 0 <= k < n :: b[11 + k] == m.ip[k] as int)
                  && BigEndian(b[11 + n..13 + n]) == m.ssh && BigEndian(b[13 + n..15 + n]) == m.telnet
                  && BigEndian(b[15 + n..17 + n]) == |m.snapshot|
                  && forall k | 0 <= k < |m.snapshot| :: b[17 + n + k] == m.snapshot[k] as int)
  {
    hide BigEndian, PackH, PackI;
    match m {
      case Initialised(code) =>
        assert ToClientBytes(m)[1..] == PackI(code);
        FourBytes(code);
      case Refused(code) =>
        assert ToClientBytes(m)[1..] == PackI(code);
        FourBytes(code);
      case Granted(_, _, _, _, _) => GrantLayout(m);
    }
  }

  /** Parts put one after the other are found again at their offsets. */
  lemma PartsAt(b: seq<byte>, head: seq<byte>, name: seq<byte>, mid: seq<byte>, snap: seq<byte>)
    requires b == head + name + mid + snap && |head| == 11 && |mid| == 6
    ensures |b| == 17 + |name| + |snap| && b[..11] == head
    ensures forall i, j | 0 <= i <= j <= 6 :: b[11 + |name| + i..11 + |name| + j] == mid[i..j]
    ensures forall k | 0 <= k < |name| :: b[11 + k] == name[k]
    ensures forall k | 0 <= k < |snap| :: b[17 + |name| + k] == snap[k]
  {
  }

  /** The first eleven bytes of a grant: the letter, the code 0, the id and how long the address is. */
  lemma GrantHead(b: seq<byte>, id: nat, n: nat)
    requires id < U32 && n < U16 && |b| >= 11 && b[..11] == [OP_R] + PackI(0) + PackI(id) + PackH(n)
    ensures b[0] == OP_R && BigEndian(b[1..5]) == 0 && BigEndian(b[5..9]) == id && BigEndian(b[9..11]) == n
  {
    hide BigEndian, PackH, PackI;
    assert b[1..5] == b[..11][1..5] == PackI(0);
    assert b[5..9] == b[..11][5..9] == PackI(id);
    assert b[9..11] == b[..11][9..11] == PackH(n);
    FourBytes(0);
    FourBytes(id);
    TwoBytes(n);
  }

  /** The six bytes behind the address: both ports, and how long the name of the snapshot is. */
  lemma GrantMid(mid: seq<byte>, ssh: nat, telnet: nat, n: nat)
    requires ssh < U16 && telnet < U16 && n < U16 && mid == PackH(ssh) + PackH(telnet) + PackH(n)
    ensures |mid| == 6
    ensures BigEndian(mid[0..2]) == ssh && BigEndian(mid[2..4]) == telnet && BigEndian(mid[4..6]) == n
  {
    hide BigEndian, PackH;
    assert mid[0..2] == PackH(ssh) && mid[2..4] == PackH(telnet) && mid[4..6] == PackH(n);
    TwoBytes(ssh);
    TwoBytes(telnet);
    TwoBytes(n);
  }

  lemma GrantLayout(m: ToClient)
    requires Answerable(m) && m.Granted?
    ensures var b, n := ToClientBytes(m), |m.ip|;
            && |b| == 17 + n + |m.snapshot| && b[0] == 'r' as int && BigEndian(b[1..5]) == 0 && BigEndian(b[5..9]) == m.id
            && BigEndian(b[9..11]) == n && (forall k | 0 <= k < n :: b[11 + k] == m.ip[k] as int)
            && BigEndian(b[11 + n..13 + n]) == m.ssh && BigEndian(b[13 + n..15 + n]) == m.telnet
            && BigEndian(b[15 + n..17 + n]) == |m.snapshot|
            && forall k | 0 <= k < |m.snapshot| :: b[17 + n + k] == m.snapshot[k] as int
  {
    hide BigEndian, PackH, PackI;
    var b, n := ToClientBytes(m), |m.ip|;
    var head, mid := [OP_R] + PackI(0) + PackI(m.id) + PackH(n), PackH(m.ssh) + PackH(m.telnet) + PackH(|m.snapshot|);
    var snap := Encode(m.snapshot);
    assert snap + [] == snap;
    assert b == head + Encode(m.ip) + mid + snap;
    PartsAt(b, head, Encode(m.ip), mid, snap);
    GrantHead(b, m.id, n);
    GrantMid(mid, m.ssh, m.telnet, |m.snapshot|);
    assert b[11 + n + 0..11 + n + 2] == mid[0..2] && b[11 + n + 2..11 + n + 4] == mid[2..4];
    assert b[11 + n + 4..11 + n + 6] == mid[4..6];
  }
}
