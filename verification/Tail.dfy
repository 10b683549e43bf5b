/** `tail`: the last lines of a file, found by reading blocks from its end. */
module Tail {

  type Data = seq<char>

  const NL := '\n'
  const BLOCK := 1024

  /** `readlines`: every line keeps its newline; the last may have none. */
  function Lines(b: Data): seq<Data> {
    if b == [] then []
    else
      var rest := Lines(b[1..]);
      if b[0] == NL then [[NL]] + rest
      else if rest == [] then [[b[0]]]
      else [[b[0]] + rest[0]] + rest[1..]
  }

  function Count(b: Data): nat {
    if b == [] then 0 else (if b[0] == NL then 1 else 0) + Count(b[1..])
  }

  function Flat(ls: seq<Data>): Data {
    if ls == [] then [] else ls[0] + Flat(ls[1..])
  }

  /** A newline at the end and nowhere else. */
  predicate IsWhole(line: Data) {
    line != [] && line[|line| - 1] == NL && NL !in line[..|line| - 1]
  }

  predicate IsLastLine(line: Data) {
    line != [] && NL !in line
  }

  lemma {:induction false} LinesFlat(b: Data)
    ensures Flat(Lines(b)) == b
  {
    if b != [] {
      LinesFlat(b[1..]);
      var rest, ls := Lines(b[1..]), Lines(b);
      if b[0] != NL && rest != [] {
        assert ls[1..] == rest[1..];
        assert Flat(ls) == [b[0]] + (rest[0] + Flat(rest[1..]));
      } else if b[0] == NL {
        assert ls[1..] == rest;
      }
    }
  }

  lemma LongerLine(c: char, line: Data)
    requires c != NL
    ensures IsWhole(line) ==> IsWhole([c] + line)
    ensures IsLastLine(line) ==> IsLastLine([c] + line)
  {
    if IsWhole(line) {
      assert ([c] + line)[..|line|] == [c] + line[..|line| - 1];
    }
  }

  ghost predicate AllWhole(ls: seq<Data>) {
    forall i | 0 <= i < |ls| :: IsWhole(ls[i]) || (i == |ls| - 1 && IsLastLine(ls[i]))
  }

  lemma {:induction false} LinesWhole(b: Data)
    ensures AllWhole(Lines(b))
  {
    hide IsWhole, IsLastLine;
    if b != [] {
      LinesWhole(b[1..]);
      var rest, ls := Lines(b[1..]), Lines(b);
      forall i | 0 <= i < |ls| ensures IsWhole(ls[i]) || (i == |ls| - 1 && IsLastLine(ls[i])) {
        if b[0] == NL {
          NewlineLine();
          assert i > 0 ==> ls[i] == rest[i - 1];
        } else if rest == [] {
          SingleLine(b[0]);
        } else {
          LongerLine(b[0], rest[0]);
          assert i > 0 ==> ls[i] == rest[i];
        }
      }
    }
  }

  lemma NewlineLine()
    ensures IsWhole([NL])
  {
  }

  lemma SingleLine(c: char)
    requires c != NL
    ensures IsLastLine([c])
  {
  }

  /** The lines are the bytes cut after every newline: only the last may lack one. */
  lemma LinesCut(b: Data)
    ensures var ls := Lines(b);
            Flat(ls) == b && AllWhole(ls)
  {
    LinesFlat(b);
    LinesWhole(b);
  }

  lemma {:induction false} CountLines(b: Data)
    ensures |Lines(b)| >= Count(b)
  {
    if b != [] {
      CountLines(b[1..]);
    }
  }

  lemma {:induction false} CountConcat(a: Data, b: Data)
    ensures Count(a + b) == Count(a) + Count(b)
  {
    if a == [] {
      assert a + b == b;
    } else {
      assert (a + b)[1..] == a[1..] + b;
      CountConcat(a[1..], b);
    }
  }

  /** `s[-n:]` */
  function Last(s: seq<Data>, n: nat): seq<Data> {
    if n == 0 || n >= |s| then s else s[|s| - n..]
  }

  /** The last `n` of `all`, or all if there are not so many. */
  ghost predicate IsEnd(r: seq<Data>, all: seq<Data>, n: nat) {
    |r| <= |all| && r == all[|all| - |r|..] && |r| == if n < |all| then n else |all|
  }

  /** What comes before more than `n` lines does not matter to the last `n`. */
  lemma {:induction false} BeforeDoesNotMatter(a: Data, t: Data, n: nat)
    requires 1 <= n < |Lines(t)|
    ensures n < |Lines(a + t)| && Last(Lines(a + t), n) == Last(Lines(t), n)
  {
    if a == [] {
      assert a + t == t;
    } else {
      assert (a + t)[1..] == a[1..] + t;
      BeforeDoesNotMatter(a[1..], t, n);
      var l, l' := Lines(a[1..] + t), Lines(a + t);
      assert if a[0] == NL then l' == [[NL]] + l else l'[1..] == l[1..];
      if a[0] != NL {
        assert l'[1..][|l| - n - 1..] == l[1..][|l| - n - 1..];
      }
    }
  }

  /** `f.seek(at); f.read(n)` */
  function ReadAt(f: Data, at: nat, n: nat): Data
    requires at <= |f|
  {
    if at + n <= |f| then f[at..at + n] else f[at..]
  }

  /** Whole blocks from the end, as few as hold more than `n` newlines; all of the file if no number of them does. */
  ghost predicate IsStart(f: Data, n: nat, start: nat) {
    && start <= |f| && (start > 0 ==> (|f| - start) % BLOCK == 0 && Count(f[start..]) > n)
    && FewAfter(f, n, start)
  }

  ghost predicate FewAfter(f: Data, n: nat, start: int) {
    forall at | 0 <= start < at <= |f| && (|f| - at) % BLOCK == 0 :: Count(f[at..]) <= n
  }

  lemma OneBlockMore(f: Data, n: nat, start: int, byteBlock: nat)
    requires 0 <= start <= |f| && (|f| - start) % BLOCK == 0 && FewAfter(f, n, start) && Count(f[start..]) <= n
    requires byteBlock <= BLOCK && byteBlock <= start
    ensures FewAfter(f, n, start - byteBlock)
  {
    hide Count;
    forall at | start - byteBlock < at <= |f| && (|f| - at) % BLOCK == 0 ensures Count(f[at..]) <= n {
      if at <= start {
        assert (start - at) % BLOCK == 0;
      }
    }
  }

  lemma NoneAtTheEnd(f: Data, n: nat)
    ensures Count(f[|f|..]) == 0 && FewAfter(f, n, |f|)
  {
  }

  /** The scan stops as soon as it has seen one newline more than lines wanted, or all of the file; the short
      block at the front is read beyond its end and newlines there are counted twice. */
  method TailScan(f: Data, lines2find: nat) returns (start: nat)
    ensures IsStart(f, lines2find, start)
  {
    hide Count, FewAfter;
    var linesFound, totalBytesScanned := 0, 0;
    NoneAtTheEnd(f, lines2find);
    while lines2find + 1 > linesFound && |f| > totalBytesScanned
      invariant totalBytesScanned <= |f|
      invariant totalBytesScanned < |f| ==> totalBytesScanned % BLOCK == 0 && linesFound == Count(f[|f| - totalBytesScanned..])
      invariant FewAfter(f, lines2find, |f| - totalBytesScanned)
      decreases |f| - totalBytesScanned
    {
      var byteBlock := if BLOCK < |f| - totalBytesScanned then BLOCK else |f| - totalBytesScanned;
      var at := |f| - (byteBlock + totalBytesScanned);
      var block := ReadAt(f, at, BLOCK);
      OneBlockMore(f, lines2find, |f| - totalBytesScanned, byteBlock);
      CountConcat(f[at..at + byteBlock], f[|f| - totalBytesScanned..]);
      assert f[at..] == f[at..at + byteBlock] + f[|f| - totalBytesScanned..];
      totalBytesScanned := totalBytesScanned + byteBlock;
      linesFound := linesFound + Count(block);
    }
    return |f| - totalBytesScanned;
  }

  /** For every file and every number of lines but zero, the scan from the end gives what reading the whole file
      and keeping its last lines would give. */
  method TailOf(f: Data, lines2find: nat) returns (r: seq<Data>)
    ensures lines2find >= 1 ==> r == Last(Lines(f), lines2find)
    ensures lines2find >= 1 ==> IsEnd(r, Lines(f), lines2find)
    ensures lines2find == 0 ==> exists start | 0 <= start <= |f| :: IsStart(f, 0, start) && r == Lines(f[start..])
  {
    var start := TailScan(f, lines2find);
    var lineList := Lines(f[start..]);
    r := Last(lineList, lines2find);
    assert lines2find == 0 ==> r == Lines(f[start..]);
    CountLines(f[start..]);
    assert f == f[..start] + f[start..];
    if start > 0 && lines2find >= 1 {
      BeforeDoesNotMatter(f[..start], f[start..], lines2find);
    }
  }
}
