/** Session recordings: one writer of binary records, and the three programs that read them back. */
module TtyLog {
  import opened Wrappers

  const OP_OPEN := 1
  const OP_CLOSE := 2
  const OP_WRITE := 3
  const TYPE_INPUT := 1
  const TYPE_OUTPUT := 2
  const TYPE_INTERACT := 3

  const U32 := 0x1_0000_0000
  const I31 := 0x8000_0000

  // ---------------------------------------------------------------- the record header

  /** struct format `<iLiiLL` */
  datatype Header = Header(op: int, tty: int, length: int, direction: int, sec: int, usec: int)

  const SIZE := 24

  predicate Packable(h: Header) {
    && -I31 <= h.op < I31 && 0 <= h.tty < U32 && -I31 <= h.length < I31
    && -I31 <= h.direction < I31 && 0 <= h.sec < U32 && 0 <= h.usec < U32
  }

  function Pack4(n: int): (b: seq<byte>)
    requires 0 <= n < U32
    ensures |b| == 4
  {
    [n % 256, n / 256 % 256, n / 0x1_0000 % 256, n / 0x100_0000]
  }

  function Unpack4(b: seq<byte>): (n: int)
    requires |b| == 4
    ensures 0 <= n < U32
  {
    b[0] as int + 256 * b[1] as int + 0x1_0000 * b[2] as int + 0x100_0000 * b[3] as int
  }

  /** Two's complement. */
  function PackSigned(n: int): (b: seq<byte>)
    requires -I31 <= n < I31
    ensures |b| == 4
  {
    Pack4(if n < 0 then n + U32 else n)
  }

  function UnpackSigned(b: seq<byte>): (n: int)
    requires |b| == 4
    ensures -I31 <= n < I31
  {
    var n := Unpack4(b);
    if n >= I31 then n - U32 else n
  }

  function Pack(h: Header): (b: seq<byte>)
    requires Packable(h)
    ensures |b| == SIZE
  {
    PackSigned(h.op) + Pack4(h.tty) + PackSigned(h.length) + PackSigned(h.direction) + Pack4(h.sec) + Pack4(h.usec)
  }

  function Unpack(b: seq<byte>): Header
    requires |b| == SIZE
  {
    Header(UnpackSigned(b[..4]), Unpack4(b[4..8]), UnpackSigned(b[8..12]), UnpackSigned(b[12..16]), Unpack4(b[16..20]), Unpack4(b[20..]))
  }

  lemma UnpackPack4(n: int)
    requires 0 <= n < U32
    ensures Unpack4(Pack4(n)) == n
  {
    var n1, n2 := n / 256, n / 0x1_0000;
    assert n == 256 * n1 + n % 256;
    assert n2 == n1 / 256 && n1 == 256 * n2 + n1 % 256;
    assert n / 0x100_0000 == n2 / 256 && n2 == 256 * (n2 / 256) + n2 % 256;
  }

  lemma UnpackPack(h: Header)
    requires Packable(h)
    ensures Unpack(Pack(h)) == h
  {
    var b := Pack(h);
    assert b[..4] == PackSigned(h.op) && b[4..8] == Pack4(h.tty) && b[8..12] == PackSigned(h.length);
    assert b[12..16] == PackSigned(h.direction) && b[16..20] == Pack4(h.sec) && b[20..] == Pack4(h.usec);
    hide Pack, Pack4, Unpack4;
    UnpackPack4(if h.op < 0 then h.op + U32 else h.op);
    UnpackPack4(h.tty);
    UnpackPack4(if h.length < 0 then h.length + U32 else h.length);
    UnpackPack4(if h.direction < 0 then h.direction + U32 else h.direction);
    UnpackPack4(h.sec);
    UnpackPack4(h.usec);
  }

  /** A number with its lowest byte first. */
  function LittleEndian(b: seq<byte>): nat {
    if b == [] then 0 else b[0] as int + 256 * LittleEndian(b[1..])
  }

  lemma FourBytes(n: int)
    requires 0 <= n < U32
    ensures LittleEndian(Pack4(n)) == n
  {
    UnpackPack4(n);
    var b := Pack4(n);
    assert b[1..] == [b[1], b[2], b[3]] && b[1..][1..] == [b[2], b[3]] && [b[2], b[3]][1..] == [b[3]] && [b[3]][1..] == [];
    assert LittleEndian([b[3]]) == b[3] as int;
    assert LittleEndian([b[2], b[3]]) == b[2] as int + 256 * b[3] as int;
    assert LittleEndian(b[1..]) == b[1] as int + 256 * LittleEndian([b[2], b[3]]);
  }

  /** The header in the file: six numbers of four bytes, the lowest byte first, negative ones as two's complement. */
  lemma HeaderLayout(h: Header)
    requires Packable(h)
    ensures var b := Pack(h);
            && LittleEndian(b[0..4]) == (if h.op < 0 then h.op + U32 else h.op) && LittleEndian(b[4..8]) == h.tty
            && LittleEndian(b[8..12]) == (if h.length < 0 then h.length + U32 else h.length)
            && LittleEndian(b[12..16]) == (if h.direction < 0 then h.direction + U32 else h.direction)
            && LittleEndian(b[16..20]) == h.sec && LittleEndian(b[20..24]) == h.usec
  {
    hide LittleEndian, Pack4;
    var b := Pack(h);
    assert b[0..4] == PackSigned(h.op) && b[4..8] == Pack4(h.tty) && b[8..12] == PackSigned(h.length);
    assert b[12..16] == PackSigned(h.direction) && b[16..20] == Pack4(h.sec) && b[20..24] == Pack4(h.usec);
    FourBytes(if h.op < 0 then h.op + U32 else h.op);
    FourBytes(h.tty);
    FourBytes(if h.length < 0 then h.length + U32 else h.length);
    FourBytes(if h.direction < 0 then h.direction + U32 else h.direction);
    FourBytes(h.sec);
    FourBytes(h.usec);
  }

  // ---------------------------------------------------------------- writing

  /** A call of the writer; stamps in microseconds. `Write` passes the length of its data. */
  datatype Call = Open(stamp: nat) | Write(direction: int, stamp: nat, data: seq<byte>) | Close(stamp: nat)

  datatype Record = Record(header: Header, data: seq<byte>)

  function HeaderOf(c: Call): Header {
    var sec, usec := c.stamp / 1000000, c.stamp % 1000000;
    match c
    case Open(_) => Header(OP_OPEN, 0, 0, 0, sec, usec)
    case Write(direction, _, data) => Header(OP_WRITE, 0, |data|, direction, sec, usec)
    case Close(_) => Header(OP_CLOSE, 0, 0, 0, sec, usec)
  }

  function DataOf(c: Call): seq<byte> {
    if c.Write? then c.data else []
  }

  function RecordOf(c: Call): Record {
    Record(HeaderOf(c), DataOf(c))
  }

  function Records(cs: seq<Call>): (r: seq<Record>)
    ensures |r| == |cs| && forall i | 0 <= i < |r| :: r[i] == RecordOf(cs[i])
  {
    seq(|cs|, i requires 0 <= i < |cs| => RecordOf(cs[i]))
  }

  predicate AllFit(cs: seq<Call>) {
    forall i | 0 <= i < |cs| :: Packable(HeaderOf(cs[i]))
  }

  /** The file after these calls. */
  function FileOf(cs: seq<Call>): seq<byte>
    requires AllFit(cs)
  {
    if cs == [] then [] else FileOf(cs[..|cs| - 1]) + Pack(HeaderOf(cs[|cs| - 1])) + DataOf(cs[|cs| - 1])
  }

  class LogFile {
    var bytes: seq<byte>
    ghost var calls: seq<Call>

    ghost predicate Valid()
      reads this
    {
      AllFit(calls) && bytes == FileOf(calls)
    }

    constructor ()
      ensures Valid() && calls == []
    {
      bytes, calls := [], [];
    }

    /** Appends a header; false where packing a field that does not fit raises. */
    method Append(h: Header) returns (ok: bool)
      modifies this`bytes
      ensures ok <==> Packable(h)
      ensures bytes == if ok then old(bytes) + Pack(h) else old(bytes)
    {
      ok := Packable(h);
      if ok {
        bytes := bytes + Pack(h);
      }
    }

    method TtylogOpen(stamp: nat) returns (ok: bool)
      requires Valid()
      modifies this
      ensures Valid() && calls == if ok then old(calls) + [Open(stamp)] else old(calls)
    {
      ok := Append(Header(OP_OPEN, 0, 0, 0, stamp / 1000000, stamp % 1000000));
      if ok {
        Grow(calls, Open(stamp));
        calls := calls + [Open(stamp)];
      }
    }

    method TtylogWrite(direction: int, stamp: nat, data: seq<byte>) returns (ok: bool)
      requires Valid()
      modifies this
      ensures Valid() && calls == if ok then old(calls) + [Write(direction, stamp, data)] else old(calls)
    {
      ok := Append(Header(OP_WRITE, 0, |data|, direction, stamp / 1000000, stamp % 1000000));
      if ok {
        bytes := bytes + data;
        Grow(calls, Write(direction, stamp, data));
        calls := calls + [Write(direction, stamp, data)];
      }
    }

    method TtylogClose(stamp: nat) returns (ok: bool)
      requires Valid()
      modifies this
      ensures Valid() && calls == if ok then old(calls) + [Close(stamp)] else old(calls)
    {
      ok := Append(Header(OP_CLOSE, 0, 0, 0, stamp / 1000000, stamp % 1000000));
      if ok {
        Grow(calls, Close(stamp));
        calls := calls + [Close(stamp)];
      }
    }
  }

  /** The records of the calls: op 1 opens, 2 closes, 3 writes, and stamps are split into seconds and microseconds. */
  lemma RecordsSay(c: Call)
    ensures var r := RecordOf(c);
            && r.header.op == (if c.Open? then 1 else if c.Close? then 2 else 3) && r.header.tty == 0
            && r.header.sec * 1000000 + r.header.usec == c.stamp && 0 <= r.header.usec < 1000000
            && (c.Write? ==> r.data == c.data && r.header.length == |c.data| && r.header.direction == c.direction)
            && (!c.Write? ==> r.data == [] && r.header.length == 0)
  {
  }

  lemma Grow(cs: seq<Call>, c: Call)
    requires AllFit(cs) && Packable(HeaderOf(c))
    ensures AllFit(cs + [c]) && FileOf(cs + [c]) == FileOf(cs) + Pack(HeaderOf(c)) + DataOf(c)
  {
    assert (cs + [c])[..|cs|] == cs;
  }

  // ---------------------------------------------------------------- reading

  /** `fd.read(length)`: all that is left for -1, and never more than there is. */
  function ReadData(rest: seq<byte>, length: int): (data: seq<byte>)
    requires length >= -1
    ensures data <= rest && (0 <= length <= |rest| ==> |data| == length)
  {
    if length == -1 || length > |rest| then rest else rest[..length]
  }

  /** What a reader's loop gets to see of a file, and whether it ends with the ValueError for a length below -1. */
  function Parse(f: seq<byte>): (seq<Record>, bool)
    decreases |f|
  {
    if |f| < SIZE then ([], false)
    else
      var h, rest := Unpack(f[..SIZE]), f[SIZE..];
      if h.length < -1 then ([], true)
      else
        var data := ReadData(rest, h.length);
        var (rs, raised) := Parse(rest[|data|..]);
        ([Record(h, data)] + rs, raised)
  }

  lemma ParseOne(c: Call, more: seq<byte>)
    requires Packable(HeaderOf(c))
    ensures Parse(Pack(HeaderOf(c)) + DataOf(c) + more) == ([RecordOf(c)] + Parse(more).0, Parse(more).1)
  {
    var h, data := HeaderOf(c), DataOf(c);
    var file := Pack(h) + data + more;
    assert file[..SIZE] == Pack(h) && file[SIZE..] == data + more;
    UnpackPack(h);
    assert (data + more)[..|data|] == data && (data + more)[|data|..] == more;
  }

  /** A reader gets back exactly the records that were written, then what follows them. */
  lemma {:induction false} ParseAfter(cs: seq<Call>, more: seq<byte>)
    requires AllFit(cs)
    ensures Parse(FileOf(cs) + more) == (Records(cs) + Parse(more).0, Parse(more).1)
  {
    hide Parse, Pack, HeaderOf, Packable;
    if cs == [] {
      assert FileOf(cs) + more == more;
      assert Records(cs) + Parse(more).0 == Parse(more).0;
    } else {
      var before, c := cs[..|cs| - 1], cs[|cs| - 1];
      var tail := Pack(HeaderOf(c)) + DataOf(c) + more;
      assert FileOf(cs) + more == FileOf(before) + tail;
      ParseAfter(before, tail);
      ParseOne(c, more);
      assert Records(before) + ([RecordOf(c)] + Parse(more).0) == Records(cs) + Parse(more).0;
    }
  }

  lemma ReaderRecovers(cs: seq<Call>)
    requires AllFit(cs)
    ensures Parse(FileOf(cs)) == (Records(cs), false)
  {
    ParseAfter(cs, []);
    assert FileOf(cs) + [] == FileOf(cs);
    assert Records(cs) + [] == Records(cs);
  }

  // ---------------------------------------------------------------- the input hash

  predicate IsOutput(r: Record) {
    r.header.op == OP_WRITE && r.header.direction == TYPE_OUTPUT
  }

  /** The data of all records but output, one after the other. */
  function InputBytes(rs: seq<Record>): seq<byte> {
    if rs == [] then []
    else if IsOutput(rs[0]) then InputBytes(rs[1..])
    else rs[0].data + InputBytes(rs[1..])
  }

  /** `ttylog_inputhash` with its hash function; None where the read raises. */
  method InputHash(file: seq<byte>, sha256: seq<byte> -> string) returns (r: Option<string>)
    ensures r == if Parse(file).1 then None else Some(sha256(InputBytes(Parse(file).0)))
  {
    hide Parse, InputBytes, Unpack;
    var inputBytes: seq<byte> := [];
    var fd := file;
    assert [] + InputBytes(Parse(fd).0) == InputBytes(Parse(file).0);
    while |fd| >= SIZE
      invariant Parse(fd).1 == Parse(file).1
      invariant inputBytes + InputBytes(Parse(fd).0) == InputBytes(Parse(file).0)
      decreases |fd|
    {
      ParseHead(fd);
      var h, rest := Unpack(fd[..SIZE]), fd[SIZE..];
      if h.length < -1 {
        return None;
      }
      var data := ReadData(rest, h.length);
      ghost var later := InputBytes(Parse(rest[|data|..]).0);
      fd := rest[|data|..];
      if !(h.op == OP_WRITE && h.direction == TYPE_OUTPUT) {
        assert inputBytes + (data + later) == inputBytes + data + later;
        inputBytes := inputBytes + data;
      }
    }
    NothingLeft(fd);
    assert inputBytes + [] == inputBytes;
    return Some(sha256(inputBytes));
  }

  lemma NothingLeft(fd: seq<byte>)
    requires |fd| < SIZE
    ensures Parse(fd) == ([], false) && InputBytes(Parse(fd).0) == []
  {
  }

  /** The first record of what is left to read. */
  lemma ParseHead(fd: seq<byte>)
    requires |fd| >= SIZE
    ensures var h, rest := Unpack(fd[..SIZE]), fd[SIZE..];
            if h.length < -1 then Parse(fd).1
            else
              var data := ReadData(rest, h.length);
              var later := Parse(rest[|data|..]);
              && Parse(fd).1 == later.1
              && InputBytes(Parse(fd).0) ==
                   (if IsOutput(Record(h, data)) then InputBytes(later.0) else data + InputBytes(later.0))
  {
    hide Unpack;
    var h, rest := Unpack(fd[..SIZE]), fd[SIZE..];
    if h.length >= -1 {
      var data := ReadData(rest, h.length);
      var r, later := Record(h, data), Parse(rest[|data|..]).0;
      assert Parse(fd).0 == [r] + later;
      assert ([r] + later)[1..] == later;
    }
  }

  function InputOf(cs: seq<Call>): seq<byte> {
    if cs == [] then []
    else if cs[0].Write? && cs[0].direction != TYPE_OUTPUT then cs[0].data + InputOf(cs[1..])
    else InputOf(cs[1..])
  }

  /** What is hashed of a written log is the data of all writes that were not output, in order. */
  lemma {:induction false} HashedIsInput(cs: seq<Call>)
    ensures InputBytes(Records(cs)) == InputOf(cs)
  {
    if cs != [] {
      assert Records(cs)[1..] == Records(cs[1..]);
      HashedIsInput(cs[1..]);
    }
  }

  /** Of any truncated file, written or not, the input bytes are a prefix of those of the whole. */
  lemma {:induction false} TruncatedInput(p: seq<byte>, f: seq<byte>)
    requires p <= f && !Parse(f).1
    ensures !Parse(p).1 && InputBytes(Parse(p).0) <= InputBytes(Parse(f).0)
    decreases |f|
  {
    if |p| >= SIZE {
      assert p[..SIZE] == f[..SIZE] && p[SIZE..] <= f[SIZE..];
      var h, restP, restF := Unpack(p[..SIZE]), p[SIZE..], f[SIZE..];
      var dataP, dataF := ReadData(restP, h.length), ReadData(restF, h.length);
      var laterP, laterF := restP[|dataP|..], restF[|dataF|..];
      assert Parse(p).0 == [Record(h, dataP)] + Parse(laterP).0;
      assert Parse(f).0 == [Record(h, dataF)] + Parse(laterF).0;
      if |dataP| == |dataF| {
        assert dataP == dataF && laterP <= laterF;
        TruncatedInput(laterP, laterF);
      } else {
        assert dataP == restP && dataP <= dataF && laterP == [];
      }
    }
  }
}
