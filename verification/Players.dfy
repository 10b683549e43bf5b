/** The two players of session recordings: `playlog`, which writes to the terminal, and `asciinema`, which makes a cast. */
module Players {
  import opened Wrappers
  import opened TtyLog

  datatype Settings = Settings(maxdelay: int, inputOnly: bool, bothDirs: bool, colorify: bool)

  const CYAN: seq<byte> := [27, 91, 51, 54, 109]
  const YELLOW: seq<byte> := [27, 91, 51, 51, 109]
  const RESET: seq<byte> := [27, 91, 48, 109]

  function ColorOf(direction: int, color: Option<seq<byte>>): Option<seq<byte>> {
    if direction == TYPE_INTERACT then Some(CYAN) else if direction == TYPE_INPUT then Some(YELLOW) else color
  }

  /** Microseconds. */
  function TimeOf(h: Header): int {
    h.sec * 1000000 + h.usec
  }

  /** Where a player's loop goes on with, ends with, or raises. */
  datatype Turn<T> = Go(state: T) | Stop(state: T) | Raise

  datatype Outcome<T> = Done(state: T) | Raised

  // ---------------------------------------------------------------- playlog

  datatype Play = Play(currtty: int, prevtime: int, prefdir: int, color: Option<seq<byte>>, out: seq<byte>, sleeps: seq<int>)

  const PLAY := Play(0, 0, 0, None, [], [])

  function PreferredDir(prefdir: int, direction: int, inputOnly: bool): int {
    if prefdir != 0 then prefdir
    else if !inputOnly then direction
    else if direction == TYPE_INPUT then TYPE_OUTPUT else TYPE_INPUT
  }

  /** One record, by `playlog`. Sleeping for a negative time raises. */
  function PlayStep(p: Play, r: Record, c: Settings): Turn<Play> {
    var h := r.header;
    var cur := if p.currtty == 0 then h.tty else p.currtty;
    if h.tty == cur && h.op == OP_WRITE then
      var pref := PreferredDir(p.prefdir, h.direction, c.inputOnly);
      var color := ColorOf(h.direction, p.color);
      if h.direction == pref || c.bothDirs then
        var t := TimeOf(h);
        var sleep := if t - p.prevtime > c.maxdelay then c.maxdelay else t - p.prevtime;
        var sleeps := p.prevtime != 0 && c.maxdelay > 0;
        var colored := c.colorify && color.Some?;
        if sleeps && sleep < 0 then Raise
        else Go(Play(cur, t, pref, if colored then None else color,
                     if colored then p.out + color.value + r.data + RESET else p.out + r.data,
                     if sleeps then p.sleeps + [sleep] else p.sleeps))
      else Go(p.(currtty := cur, prefdir := pref, color := color))
    else if h.tty == cur && h.op == OP_CLOSE then Stop(p.(currtty := cur))
    else Go(p.(currtty := cur))
  }

  function PlayAll(p: Play, rs: seq<Record>, raised: bool, c: Settings): Outcome<Play>
    decreases |rs|
  {
    if rs == [] then (if raised then Raised else Done(p))
    else match PlayStep(p, rs[0], c)
      case Go(q) => PlayAll(q, rs[1..], raised, c)
      case Stop(q) => Done(q)
      case Raise => Raised
  }

  /** `playlog` without `tail`: what goes to the terminal, and the sleeps in between. */
  method Playlog(file: seq<byte>, c: Settings) returns (r: Outcome<Play>)
    ensures r == PlayAll(PLAY, Parse(file).0, Parse(file).1, c)
  {
    hide PlayStep;
    var fd, p := file, PLAY;
    while |fd| >= SIZE
      invariant PlayAll(p, Parse(fd).0, Parse(fd).1, c) == PlayAll(PLAY, Parse(file).0, Parse(file).1, c)
      decreases |fd|
    {
      var h, rest := Unpack(fd[..SIZE]), fd[SIZE..];
      if h.length < -1 {
        return Raised;
      }
      var data := ReadData(rest, h.length);
      assert Parse(fd).0 == [Record(h, data)] + Parse(rest[|data|..]).0;
      var turn := PlayStep(p, Record(h, data), c);
      match turn {
        case Go(q) => p := q;
        case Stop(q) => return Done(q);
        case Raise => return Raised;
      }
      fd := rest[|data|..];
    }
    return Done(p);
  }

  /** The writes before the first close. */
  function WritesBeforeClose(cs: seq<Call>): (ws: seq<Call>)
    ensures forall w | w in ws :: w.Write?
  {
    if cs == [] || cs[0].Close? then []
    else if cs[0].Write? then [cs[0]] + WritesBeforeClose(cs[1..])
    else WritesBeforeClose(cs[1..])
  }

  /** Some write comes right after one that has a later stamp. */
  ghost predicate GoesBack(ws: seq<Call>) {
    exists i :: 0 <= i < |ws| - 1 && ws[i].stamp != 0 && ws[i + 1].stamp < ws[i].stamp
  }

  /** The same, counting the time `prev` of a write before them (0: none). */
  ghost predicate GoesBackFrom(prev: int, ws: seq<Call>) {
    (ws != [] && prev != 0 && ws[0].stamp < prev) || GoesBack(ws)
  }

  lemma StampKept(c: Call)
    ensures TimeOf(HeaderOf(c)) == c.stamp
  {
  }

  lemma GoesBackHead(w: Call, rest: seq<Call>, prev: int)
    ensures GoesBackFrom(prev, [w] + rest) <==> (prev != 0 && w.stamp < prev) || GoesBackFrom(w.stamp, rest)
  {
    var ws := [w] + rest;
    if i :| 0 <= i < |ws| - 1 && ws[i].stamp != 0 && ws[i + 1].stamp < ws[i].stamp {
      assert i > 0 ==> rest[i - 1] == ws[i] && rest[i - 1 + 1] == ws[i + 1];
    }
    if i :| 0 <= i < |rest| - 1 && rest[i].stamp != 0 && rest[i + 1].stamp < rest[i].stamp {
      assert ws[i + 1] == rest[i] && ws[i + 1 + 1] == rest[i + 1];
    }
    if rest != [] {
      assert ws[0] == w && ws[0 + 1] == rest[0];
    }
  }

  /** The writes of one direction. */
  function InDirection(ws: seq<Call>, direction: int): seq<Call> {
    if ws == [] then []
    else (if ws[0].Write? && ws[0].direction == direction then [ws[0]] else []) + InDirection(ws[1..], direction)
  }

  /** Which writes are shown: all, or those of direction `pref`. */
  function Shown(ws: seq<Call>, c: Settings, pref: int): seq<Call> {
    if c.bothDirs then ws else InDirection(ws, pref)
  }

  /** How one write is shown. */
  function Painted(w: Call, colorify: bool): seq<byte>
    requires w.Write?
  {
    if colorify && w.direction == TYPE_INTERACT then CYAN + w.data + RESET
    else if colorify && w.direction == TYPE_INPUT then YELLOW + w.data + RESET
    else w.data
  }

  function AllPainted(ws: seq<Call>, colorify: bool): seq<byte> {
    if ws == [] then [] else (if ws[0].Write? then Painted(ws[0], colorify) else []) + AllPainted(ws[1..], colorify)
  }

  /** How long is slept before each of the writes, after one at `prev` (0: none): never more than `maxdelay`. */
  function Pauses(ws: seq<Call>, prev: int, maxdelay: int): seq<int> {
    if ws == [] || maxdelay <= 0 then []
    else
      var gap := ws[0].stamp - prev;
      (if prev == 0 then [] else [if gap > maxdelay then maxdelay else gap]) + Pauses(ws[1..], ws[0].stamp, maxdelay)
  }

  /** The player is in the middle of a log of one terminal. */
  predicate Playing(p: Play, c: Settings) {
    p.currtty == 0 && (c.colorify ==> c.bothDirs && p.color == None) && (c.bothDirs || p.prefdir != 0)
  }

  /** What one write does to the player. */
  lemma PlayWrite(w: Call, p: Play, c: Settings)
    requires Playing(p, c) && w.Write?
    ensures var turn := PlayStep(p, RecordOf(w), c);
            if !(c.bothDirs || w.direction == p.prefdir) then
              turn.Go? && turn.state.(color := p.color) == p
            else if c.maxdelay > 0 && p.prevtime != 0 && w.stamp < p.prevtime then turn == Raise
            else
              && turn.Go? && Playing(turn.state, c) && turn.state.prevtime == w.stamp
              && (!c.bothDirs ==> turn.state.prefdir == p.prefdir)
              && turn.state.out == p.out + Painted(w, c.colorify)
              && turn.state.sleeps == p.sleeps + Pauses([w], p.prevtime, c.maxdelay)
  {
    StampKept(w);
    var turn := PlayStep(p, RecordOf(w), c);
    if turn.Go? && c.colorify {
      assert p.out + Painted(w, c.colorify) == turn.state.out;
    }
  }

  lemma PlayOpen(w: Call, p: Play, c: Settings)
    requires p.currtty == 0 && w.Open?
    ensures PlayStep(p, RecordOf(w), c) == Go(p)
  {
  }

  /** What the player makes of a log, from the middle on. */
  ghost predicate PlaysWell(r: Outcome<Play>, p: Play, shown: seq<Call>, c: Settings) {
    && (r.Done? <==> c.maxdelay <= 0 || !GoesBackFrom(p.prevtime, shown))
    && (r.Done? ==>
          && r.state.out == p.out + AllPainted(shown, c.colorify)
          && r.state.sleeps == p.sleeps + Pauses(shown, p.prevtime, c.maxdelay))
  }

  lemma NothingLeft(p: Play, c: Settings)
    ensures PlaysWell(Done(p), p, [], c)
  {
  }

  lemma OneMoreShown(r: Outcome<Play>, p: Play, q: Play, w: Call, rest: seq<Call>, c: Settings)
    requires w.Write? && PlaysWell(r, q, rest, c) && q.prevtime == w.stamp && !(c.maxdelay > 0 && p.prevtime != 0 && w.stamp < p.prevtime)
    requires q.out == p.out + Painted(w, c.colorify) && q.sleeps == p.sleeps + Pauses([w], p.prevtime, c.maxdelay)
    ensures PlaysWell(r, p, [w] + rest, c)
  {
    GoesBackHead(w, rest, p.prevtime);
    hide GoesBackFrom, Painted, Pauses, AllPainted;
    FirstShown(w, rest, p.prevtime, c);
    if r.Done? {
      Regrouped(p.out, Painted(w, c.colorify), AllPainted(rest, c.colorify));
      Regrouped(p.sleeps, Pauses([w], p.prevtime, c.maxdelay), Pauses(rest, w.stamp, c.maxdelay));
    }
  }

  lemma FirstShown(w: Call, rest: seq<Call>, prev: int, c: Settings)
    requires w.Write?
    ensures AllPainted([w] + rest, c.colorify) == Painted(w, c.colorify) + AllPainted(rest, c.colorify)
    ensures Pauses([w] + rest, prev, c.maxdelay) == Pauses([w], prev, c.maxdelay) + Pauses(rest, w.stamp, c.maxdelay)
  {
    assert ([w] + rest)[1..] == rest && [w][1..] == [];
  }

  lemma RaisesNow(p: Play, w: Call, rest: seq<Call>, c: Settings)
    requires c.maxdelay > 0 && p.prevtime != 0 && w.stamp < p.prevtime
    ensures PlaysWell(Raised, p, [w] + rest, c)
  {
    GoesBackHead(w, rest, p.prevtime);
  }

  /** A player that shows both directions, or knows which one, raises exactly if it sleeps and the clock went back
      from one write shown to the next; otherwise all that is to be shown comes out. */
  lemma {:induction false} Plays(cs: seq<Call>, p: Play, c: Settings)
    requires Playing(p, c)
    ensures PlaysWell(PlayAll(p, Records(cs), false, c), p, Shown(WritesBeforeClose(cs), c, p.prefdir), c)
    decreases |cs|
  {
    hide PlayStep, RecordOf, HeaderOf, PlaysWell, Painted;
    if cs == [] || cs[0].Close? {
      NothingLeft(p, c);
      ClosedNow(cs, p, c);
    } else {
      assert Records(cs)[1..] == Records(cs[1..]);
      if cs[0].Open? {
        PlayOpen(cs[0], p, c);
        Plays(cs[1..], p, c);
      } else {
        var w, rest := cs[0], cs[1..];
        PlayWrite(w, p, c);
        WriteFirst(cs, c, p.prefdir);
        var turn := PlayStep(p, RecordOf(w), c);
        if turn.Raise? {
          RaisesNow(p, w, Shown(WritesBeforeClose(rest), c, p.prefdir), c);
        } else {
          var q := turn.state;
          Plays(rest, q, c);
          if c.bothDirs || w.direction == p.prefdir {
            OneMoreShown(PlayAll(q, Records(rest), false, c), p, q, w, Shown(WritesBeforeClose(rest), c, q.prefdir), c);
          } else {
            ColorNotSeen(PlayAll(q, Records(rest), false, c), p, q, Shown(WritesBeforeClose(rest), c, p.prefdir), c);
          }
        }
      }
    }
  }

  lemma ClosedNow(cs: seq<Call>, p: Play, c: Settings)
    requires (cs == [] || cs[0].Close?) && p.currtty == 0
    ensures PlayAll(p, Records(cs), false, c) == Done(p) && Shown(WritesBeforeClose(cs), c, p.prefdir) == []
  {
  }

  lemma WriteFirst(cs: seq<Call>, c: Settings, pref: int)
    requires cs != [] && cs[0].Write?
    ensures var shown, rest := Shown(WritesBeforeClose(cs), c, pref), Shown(WritesBeforeClose(cs[1..]), c, pref);
            shown == if c.bothDirs || cs[0].direction == pref then [cs[0]] + rest else rest
  {
    assert ([cs[0]] + WritesBeforeClose(cs[1..]))[1..] == WritesBeforeClose(cs[1..]);
  }

  lemma ColorNotSeen(r: Outcome<Play>, p: Play, q: Play, shown: seq<Call>, c: Settings)
    requires PlaysWell(r, q, shown, c) && q.(color := p.color) == p
    ensures PlaysWell(r, p, shown, c)
  {
  }

  lemma Regrouped<T>(a: seq<T>, b: seq<T>, c: seq<T>)
    ensures a + b + c == a + (b + c)
  {
  }

  lemma FromTheStart(r: Outcome<Play>, shown: seq<Call>, c: Settings)
    requires PlaysWell(r, PLAY, shown, c)
    ensures r.Done? <==> c.maxdelay <= 0 || !GoesBack(shown)
    ensures r.Done? ==> r.state.out == AllPainted(shown, c.colorify) && r.state.sleeps == Pauses(shown, 0, c.maxdelay)
  {
    hide GoesBack, AllPainted, Pauses;
    assert [] + AllPainted(shown, c.colorify) == AllPainted(shown, c.colorify);
    assert [] + Pauses(shown, 0, c.maxdelay) == Pauses(shown, 0, c.maxdelay);
  }

  /** A written log played in both directions, with colours or without: the player gets to the end exactly if it never
      sleeps or no write before the first close has an earlier stamp than the stamped write before it; then what
      comes out is all that was written before the first close, in order and each in its colour, and it has slept
      for the times between, but never for more than `maxdelay`. */
  lemma PlaylogShowsAllIff(cs: seq<Call>, c: Settings)
    requires AllFit(cs) && c.bothDirs
    ensures var (rs, raised) := Parse(FileOf(cs));
            var r, ws := PlayAll(PLAY, rs, raised, c), WritesBeforeClose(cs);
            && (r.Done? <==> c.maxdelay <= 0 || !GoesBack(ws))
            && (r.Done? ==> r.state.out == AllPainted(ws, c.colorify) && r.state.sleeps == Pauses(ws, 0, c.maxdelay))
  {
    ReaderRecovers(cs);
    Plays(cs, PLAY, c);
    FromTheStart(PlayAll(PLAY, Records(cs), false, c), WritesBeforeClose(cs), c);
    assert Shown(WritesBeforeClose(cs), c, PLAY.prefdir) == WritesBeforeClose(cs);
    hide *;
  }

  /** The direction that is shown, by that of the first write. */
  function Wanted(first: int, inputOnly: bool): int {
    if !inputOnly then first else if first == TYPE_INPUT then TYPE_OUTPUT else TYPE_INPUT
  }

  /** Of these writes, those of the direction that the first one settles. */
  function OneWay(ws: seq<Call>, inputOnly: bool): seq<Call> {
    if ws == [] || !ws[0].Write? then [] else InDirection(ws, Wanted(ws[0].direction, inputOnly))
  }

  /** The first write settles the direction. */
  lemma {:induction false} PlaysOneDirectionFrom(cs: seq<Call>, p: Play, c: Settings)
    requires p.currtty == 0 && p.prefdir == 0 && !c.bothDirs && !c.colorify
    requires forall i | 0 <= i < |cs| && cs[i].Write? :: cs[i].direction != 0
    ensures PlaysWell(PlayAll(p, Records(cs), false, c), p, OneWay(WritesBeforeClose(cs), c.inputOnly), c)
    decreases |cs|
  {
    if cs == [] || cs[0].Close? {
      NothingLeft(p, c);
    } else {
      hide PlaysWell;
      assert Records(cs)[1..] == Records(cs[1..]);
      if cs[0].Open? {
        PlayOpen(cs[0], p, c);
        hide PlayStep;
        assert forall i | 0 <= i < |cs| - 1 :: cs[1..][i] == cs[i + 1];
        PlaysOneDirectionFrom(cs[1..], p, c);
      } else {
        var q := p.(prefdir := Wanted(cs[0].direction, c.inputOnly));
        assert PlayStep(p, RecordOf(cs[0]), c) == PlayStep(q, RecordOf(cs[0]), c);
        hide PlayStep;
        Plays(cs, q, c);
        PrefNotSeen(PlayAll(q, Records(cs), false, c), p, q, InDirection(WritesBeforeClose(cs), q.prefdir), c);
      }
    }
  }

  lemma PrefNotSeen(r: Outcome<Play>, p: Play, q: Play, shown: seq<Call>, c: Settings)
    requires PlaysWell(r, q, shown, c) && q.(prefdir := p.prefdir) == p
    ensures PlaysWell(r, p, shown, c)
  {
  }

  /** By default a player shows the direction of the first write, and asked for input the other one: what comes out is
      the data of the writes of that direction before the first close, if the clock does not go back between them. */
  lemma PlaylogShowsOneDirection(cs: seq<Call>, c: Settings)
    requires AllFit(cs) && !c.bothDirs && !c.colorify
    requires forall i | 0 <= i < |cs| && cs[i].Write? :: cs[i].direction != 0
    ensures var (rs, raised) := Parse(FileOf(cs));
            var r, shown := PlayAll(PLAY, rs, raised, c), OneWay(WritesBeforeClose(cs), c.inputOnly);
            && (r.Done? <==> c.maxdelay <= 0 || !GoesBack(shown))
            && (r.Done? ==> r.state.out == AllPainted(shown, false) && r.state.sleeps == Pauses(shown, 0, c.maxdelay))
  {
    ReaderRecovers(cs);
    PlaysOneDirectionFrom(cs, PLAY, c);
    FromTheStart(PlayAll(PLAY, Records(cs), false, c), OneWay(WritesBeforeClose(cs), c.inputOnly), c);
    hide *;
  }

  /** So any log in which one write follows a later one makes a sleeping player raise. */
  lemma ClockGoingBackRaises(cs: seq<Call>, c: Settings, i: nat)
    requires AllFit(cs) && c.bothDirs && c.maxdelay > 0
    requires var ws := WritesBeforeClose(cs); i + 1 < |ws| && ws[i + 1].stamp < ws[i].stamp
    ensures var (rs, raised) := Parse(FileOf(cs)); PlayAll(PLAY, rs, raised, c) == Raised
  {
    hide Parse, FileOf, PlayAll, WritesBeforeClose, AllFit;
    PlaylogShowsAllIff(cs, c);
    assert GoesBack(WritesBeforeClose(cs));
  }

  // ---------------------------------------------------------------- terminals

  /** The records of one terminal. */
  function OnTty(rs: seq<Record>, tty: int): seq<Record> {
    if rs == [] then [] else (if rs[0].header.tty == tty then [rs[0]] else []) + OnTty(rs[1..], tty)
  }

  /** Once a terminal is settled on, what happens on others is as if it were not in the file. */
  lemma {:induction false} OthersIgnored(p: Play, rs: seq<Record>, raised: bool, c: Settings)
    requires p.currtty != 0
    ensures PlayAll(p, rs, raised, c) == PlayAll(p, OnTty(rs, p.currtty), raised, c)
    decreases |rs|
  {
    if rs != [] {
      var turn := PlayStep(p, rs[0], c);
      if rs[0].header.tty == p.currtty {
        assert OnTty(rs, p.currtty)[1..] == OnTty(rs[1..], p.currtty);
        assert turn.Go? ==> turn.state.currtty == p.currtty;
        hide PlayStep;
        if turn.Go? {
          OthersIgnored(turn.state, rs[1..], raised, c);
        }
      } else {
        assert turn == Go(p);
        hide PlayStep;
        OthersIgnored(p, rs[1..], raised, c);
        assert [] + OnTty(rs[1..], p.currtty) == OnTty(rs[1..], p.currtty);
      }
    }
  }

  /** A player settles on the first terminal with a number but 0: everything before it is played, and nothing of any
      other terminal after. */
  lemma {:induction false} FirstTtySettles(p: Play, rs: seq<Record>, k: nat, raised: bool, c: Settings)
    requires p.currtty == 0 && k < |rs| && rs[k].header.tty != 0 && forall i | 0 <= i < k :: rs[i].header.tty == 0
    ensures PlayAll(p, rs, raised, c) == PlayAll(p, rs[..k] + OnTty(rs[k..], rs[k].header.tty), raised, c)
    decreases k
  {
    var turn, rest := PlayStep(p, rs[0], c), rs[..k] + OnTty(rs[k..], rs[k].header.tty);
    assert turn.Go? ==> turn.state.currtty == rs[0].header.tty;
    hide PlayStep;
    if k == 0 {
      var q := p.(currtty := rs[0].header.tty);
      OthersIgnored(q, rs, raised, c);
      assert rest == OnTty(rs, rs[0].header.tty);
      AsIfSettled(p, rs, raised, c);
      assert rest[0] == rs[0];
      AsIfSettled(p, rest, raised, c);
    } else {
      assert rest[0] == rs[0] && rest[1..] == rs[1..][..k - 1] + OnTty(rs[1..][k - 1..], rs[1..][k - 1].header.tty);
      if turn.Go? {
        FirstTtySettles(turn.state, rs[1..], k - 1, raised, c);
      }
    }
  }

  lemma AsIfSettled(p: Play, rs: seq<Record>, raised: bool, c: Settings)
    requires p.currtty == 0 && rs != []
    ensures PlayAll(p, rs, raised, c) == PlayAll(p.(currtty := rs[0].header.tty), rs, raised, c)
  {
    assert PlayStep(p, rs[0], c) == PlayStep(p.(currtty := rs[0].header.tty), rs[0], c);
    hide PlayStep;
  }

  // ---------------------------------------------------------------- asciinema

  datatype Frame = Frame(delay: int, data: seq<byte>)

  datatype Cast = Cast(currtty: int, prevtime: int, prefdir: int, sleeptime: int, color: Option<seq<byte>>,
                       duration: int, frames: seq<Frame>, out: seq<byte>)

  const CAST := Cast(0, 0, 0, 0, None, 0, [], [])

  const LF: byte := 10
  const CR: byte := 13

  /** `data.replace(b"\\n", b"\\r\\n")` */
  function Crlf(data: seq<byte>): seq<byte> {
    if data == [] then [] else (if data[0] == LF then [CR, LF] else [data[0]]) + Crlf(data[1..])
  }

  /** One record, by `asciinema`. Data that is not UTF-8 raises. */
  function CastStep(p: Cast, r: Record, colorify: bool, utf8: seq<byte> -> bool): Turn<Cast> {
    var h := r.header;
    var cur := if p.currtty == 0 then h.tty else p.currtty;
    if h.tty == cur && h.op == OP_WRITE then
      var pref := if p.prefdir == 0 then h.direction else p.prefdir;
      var color := ColorOf(h.direction, p.color);
      if h.direction == pref then
        var t, data := TimeOf(h), Crlf(r.data);
        var sleeptime := if p.prevtime != 0 then t - p.prevtime else p.sleeptime;
        var colored := colorify && color.Some?;
        if !utf8(data) then Raise
        else Go(Cast(cur, t, pref, sleeptime, if colored then None else color, p.duration + sleeptime,
                     p.frames + [Frame(sleeptime, data)], if colored then p.out + color.value + RESET else p.out))
      else Go(p.(currtty := cur, prefdir := pref, color := color))
    else if h.tty == cur && h.op == OP_CLOSE then Stop(p.(currtty := cur))
    else Go(p.(currtty := cur))
  }

  function CastAll(p: Cast, rs: seq<Record>, raised: bool, colorify: bool, utf8: seq<byte> -> bool): Outcome<Cast>
    decreases |rs|
  {
    if rs == [] then (if raised then Raised else Done(p))
    else match CastStep(p, rs[0], colorify, utf8)
      case Go(q) => CastAll(q, rs[1..], raised, colorify, utf8)
      case Stop(q) => Done(q)
      case Raise => Raised
  }

  /** `playlog` of asciinema.py: the recording before it is dumped as JSON. */
  method MakeCast(file: seq<byte>, colorify: bool, utf8: seq<byte> -> bool) returns (r: Outcome<Cast>)
    ensures r == CastAll(CAST, Parse(file).0, Parse(file).1, colorify, utf8)
    ensures r.Done? ==> r.state.duration == Sum(r.state.frames)
  {
    hide CastStep;
    var fd, p := file, CAST;
    while |fd| >= SIZE
      invariant CastAll(p, Parse(fd).0, Parse(fd).1, colorify, utf8) == CastAll(CAST, Parse(file).0, Parse(file).1, colorify, utf8)
      invariant p.duration == Sum(p.frames)
      decreases |fd|
    {
      var h, rest := Unpack(fd[..SIZE]), fd[SIZE..];
      if h.length < -1 {
        return Raised;
      }
      var data := ReadData(rest, h.length);
      assert Parse(fd).0 == [Record(h, data)] + Parse(rest[|data|..]).0;
      SumStep(p, Record(h, data), colorify, utf8);
      var turn := CastStep(p, Record(h, data), colorify, utf8);
      match turn {
        case Go(q) => p := q;
        case Stop(q) => return Done(q);
        case Raise => return Raised;
      }
      fd := rest[|data|..];
    }
    return Done(p);
  }

  function Sum(fs: seq<Frame>): int {
    if fs == [] then 0 else fs[0].delay + Sum(fs[1..])
  }

  lemma {:induction false} SumSnoc(fs: seq<Frame>, f: Frame)
    ensures Sum(fs + [f]) == Sum(fs) + f.delay
  {
    if fs == [] {
      assert (fs + [f])[1..] == [];
    } else {
      assert (fs + [f])[1..] == fs[1..] + [f];
      SumSnoc(fs[1..], f);
    }
  }

  /** The duration stays the sum of the delays, whatever the records. */
  lemma SumStep(p: Cast, r: Record, colorify: bool, utf8: seq<byte> -> bool)
    requires p.duration == Sum(p.frames)
    ensures var turn := CastStep(p, r, colorify, utf8);
            !turn.Raise? ==> turn.state.duration == Sum(turn.state.frames)
  {
    hide Sum, Crlf;
    SumSnoc(p.frames, Frame(if p.prevtime != 0 then TimeOf(r.header) - p.prevtime else p.sleeptime, Crlf(r.data)));
  }

  /** The writes that are replayed: those of the preferred direction, up to the first close. */
  function Replayed(cs: seq<Call>, prefdir: int): seq<Call> {
    if cs == [] || cs[0].Close? then []
    else if cs[0].Open? then Replayed(cs[1..], prefdir)
    else
      var pref := if prefdir == 0 then cs[0].direction else prefdir;
      if cs[0].direction == pref then [cs[0]] + Replayed(cs[1..], pref) else Replayed(cs[1..], pref)
  }

  /** The frames of these writes after one at `prev` (0: none yet). */
  function FramesOf(ws: seq<Call>, prev: int): (r: seq<Frame>)
    ensures |r| == |ws|
  {
    if ws == [] then []
    else [Frame(if prev != 0 then ws[0].stamp - prev else 0, Crlf(DataOf(ws[0])))] + FramesOf(ws[1..], ws[0].stamp)
  }

  ghost predicate AllStamped(cs: seq<Call>) {
    forall i | 0 <= i < |cs| :: cs[i].stamp != 0
  }

  /** What the cast makes of one call that is no close. */
  lemma CastTurn(w: Call, p: Cast, colorify: bool, utf8: seq<byte> -> bool)
    requires p.currtty == 0 && !w.Close? && utf8(Crlf(DataOf(w)))
    ensures var turn, pref := CastStep(p, RecordOf(w), colorify, utf8), if w.Write? && p.prefdir == 0 then w.direction else p.prefdir;
            && turn.Go? && turn.state.currtty == 0 && turn.state.prefdir == (if w.Open? then p.prefdir else pref)
            && if w.Open? || w.direction != pref
               then turn.state.(prefdir := p.prefdir, color := p.color) == p
               else && turn.state.prevtime == w.stamp
                    && turn.state.frames == p.frames + [Frame(if p.prevtime != 0 then w.stamp - p.prevtime else p.sleeptime, Crlf(DataOf(w)))]
  {
    StampKept(w);
    hide Crlf;
  }

  lemma {:induction false} CastIsFrames(cs: seq<Call>, p: Cast, colorify: bool, utf8: seq<byte> -> bool)
    requires p.currtty == 0 && AllStamped(cs) && (p.prevtime == 0 ==> p.sleeptime == 0)
    requires forall i | 0 <= i < |cs| :: utf8(Crlf(DataOf(cs[i])))
    ensures var r := CastAll(p, Records(cs), false, colorify, utf8);
            r.Done? && r.state.frames == p.frames + FramesOf(Replayed(cs, p.prefdir), p.prevtime)
    decreases |cs|
  {
    if cs == [] || cs[0].Close? {
      assert p.frames + [] == p.frames;
    } else {
      CastTurn(cs[0], p, colorify, utf8);
      hide Crlf, FramesOf, CastStep;
      assert Records(cs)[1..] == Records(cs[1..]);
      var turn := CastStep(p, RecordOf(cs[0]), colorify, utf8);
      assert forall i | 0 <= i < |cs[1..]| :: cs[1..][i] == cs[i + 1];
      CastIsFrames(cs[1..], turn.state, colorify, utf8);
      var pref := turn.state.prefdir;
      if cs[0].Write? && cs[0].direction == pref {
        FramesJoin(p.frames, cs[0], Replayed(cs[1..], pref), p.prevtime);
      }
    }
  }

  lemma FramesFront(w: Call, rest: seq<Call>, prev: int)
    ensures FramesOf([w] + rest, prev) == [Frame(if prev != 0 then w.stamp - prev else 0, Crlf(DataOf(w)))] + FramesOf(rest, w.stamp)
  {
    assert ([w] + rest)[1..] == rest;
  }

  lemma FramesJoin(frames: seq<Frame>, w: Call, rest: seq<Call>, prev: int)
    ensures var f := Frame(if prev != 0 then w.stamp - prev else 0, Crlf(DataOf(w)));
            frames + [f] + FramesOf(rest, w.stamp) == frames + FramesOf([w] + rest, prev)
  {
    hide Crlf, FramesOf;
    FramesFront(w, rest, prev);
  }

  /** Delays between stamped writes telescope. */
  lemma {:induction false} DelaysTelescope(ws: seq<Call>, prev: int)
    requires AllStamped(ws) && ws != []
    ensures Sum(FramesOf(ws, prev)) == ws[|ws| - 1].stamp - (if prev != 0 then prev else ws[0].stamp)
  {
    hide Crlf;
    assert FramesOf(ws, prev)[1..] == FramesOf(ws[1..], ws[0].stamp);
    if |ws| > 1 {
      DelaysTelescope(ws[1..], ws[0].stamp);
    }
  }

  /** One frame per write, with its data and the time since the write before it; the delays add up to the time from
      the first write to the last. */
  ghost predicate IsCastOf(fs: seq<Frame>, ws: seq<Call>) {
    && |fs| == |ws|
    && (forall i | 0 <= i < |ws| :: fs[i].data == Crlf(DataOf(ws[i])))
    && (forall i | 0 <= i < |ws| :: fs[i].delay == if i == 0 then 0 else ws[i].stamp - ws[i - 1].stamp)
    && Sum(fs) == if ws == [] then 0 else ws[|ws| - 1].stamp - ws[0].stamp
  }

  /** The cast of a written log is that of the writes replayed. */
  lemma CastOfLog(cs: seq<Call>, colorify: bool, utf8: seq<byte> -> bool)
    requires AllFit(cs) && AllStamped(cs)
    requires forall i | 0 <= i < |cs| :: utf8(Crlf(DataOf(cs[i])))
    ensures var (rs, raised) := Parse(FileOf(cs));
            var r := CastAll(CAST, rs, raised, colorify, utf8);
            r.Done? && IsCastOf(r.state.frames, Replayed(cs, 0))
  {
    hide Crlf, AllFit, IsCastOf, FramesOf, Replayed, CastAll, Parse, FileOf, AllStamped;
    ReaderRecovers(cs);
    CastIsFrames(cs, CAST, colorify, utf8);
    ReplayedStamped(cs, 0);
    FramesAreCast(Replayed(cs, 0));
    assert [] + FramesOf(Replayed(cs, 0), 0) == FramesOf(Replayed(cs, 0), 0);
  }

  lemma FramesAreCast(ws: seq<Call>)
    requires AllStamped(ws)
    ensures IsCastOf(FramesOf(ws, 0), ws)
  {
    FrameData(ws, 0);
    if ws != [] {
      DelaysTelescope(ws, 0);
    }
    hide FramesOf, Crlf, DataOf, AllStamped;
  }

  lemma {:induction false} FrameData(ws: seq<Call>, prev: int)
    requires AllStamped(ws)
    ensures forall i | 0 <= i < |ws| :: FramesOf(ws, prev)[i].data == Crlf(DataOf(ws[i]))
    ensures forall i | 0 <= i < |ws| ::
              FramesOf(ws, prev)[i].delay == if i > 0 then ws[i].stamp - ws[i - 1].stamp else if prev != 0 then ws[0].stamp - prev else 0
  {
    hide Crlf;
    if ws != [] {
      FrameData(ws[1..], ws[0].stamp);
    }
  }

  /** The replayed writes are those before the first close that go in the direction of the first of them. */
  lemma {:induction false} ReplayedIsInDirection(cs: seq<Call>, prefdir: int)
    requires forall i | 0 <= i < |cs| && cs[i].Write? :: cs[i].direction != 0
    ensures var ws := WritesBeforeClose(cs);
            Replayed(cs, prefdir) ==
              if prefdir != 0 then InDirection(ws, prefdir) else OneWay(ws, false)
    decreases |cs|
  {
    if cs != [] && !cs[0].Close? {
      assert forall i | 0 <= i < |cs| - 1 :: cs[1..][i] == cs[i + 1];
      ReplayedIsInDirection(cs[1..], if cs[0].Write? && prefdir == 0 then cs[0].direction else prefdir);
      if cs[0].Write? {
        assert ([cs[0]] + WritesBeforeClose(cs[1..]))[1..] == WritesBeforeClose(cs[1..]);
      }
    }
  }

  /** Every newline gets a carriage return in front, and nothing else changes. */
  lemma {:induction false} CrlfMeaning(a: seq<byte>, b: seq<byte>)
    ensures LF !in a ==> Crlf(a) == a && Crlf(a + [LF] + b) == a + [CR, LF] + Crlf(b)
  {
    if a == [] {
      assert a + [LF] + b == [LF] + b && a + [CR, LF] + Crlf(b) == [CR, LF] + Crlf(b);
    } else if LF !in a {
      assert forall x | x in a[1..] :: x in a;
      CrlfMeaning(a[1..], b);
      assert (a + [LF] + b)[1..] == a[1..] + [LF] + b && (a + [LF] + b)[0] == a[0];
      assert [a[0]] + a[1..] == a;
      Regrouped([a[0]], a[1..] + [CR, LF], Crlf(b));
      Regrouped([a[0]], a[1..], [CR, LF]);
    }
  }

  lemma {:induction false} ReplayedStamped(cs: seq<Call>, prefdir: int)
    requires AllStamped(cs)
    ensures AllStamped(Replayed(cs, prefdir))
  {
    if cs != [] && !cs[0].Close? {
      assert AllStamped(cs[1..]);
      ReplayedStamped(cs[1..], if cs[0].Write? && prefdir == 0 then cs[0].direction else prefdir);
    }
  }
}
