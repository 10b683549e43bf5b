/** Command lines with pipes: how they are split, how the chain of stages is linked from right to left, and how
    running the first stage runs all of them. */
module Pipeline {
  import opened Wrappers

  /** A command that finishes at once: from the world, its arguments and its stdin to the world after it and the
      data of each of its writes. */
  type Program<!W> = (W, seq<string>, Option<string>) -> (W, seq<string>)

  datatype Stage<!W> = Stage(program: Program<W>, args: seq<string>)

  function Concat(chunks: seq<string>): string {
    if chunks == [] then "" else chunks[0] + Concat(chunks[1..])
  }

  lemma {:induction false} ConcatSnoc(chunks: seq<string>, c: string)
    ensures Concat(chunks + [c]) == Concat(chunks) + c
  {
    if chunks == [] {
      assert (chunks + [c])[1..] == [];
    } else {
      assert (chunks + [c])[1..] == chunks[1..] + [c];
      ConcatSnoc(chunks[1..], c);
    }
  }

  /** What a stage gets from the writes of the one before it: nothing at all if it never wrote. */
  function Fed(chunks: seq<string>): Option<string> {
    if chunks == [] then None else Some(Concat(chunks))
  }

  lemma NoChunks(chunks: seq<string>)
    ensures chunks[..0] == [] && Concat([]) == "" && chunks[..|chunks|] == chunks
  {
  }

  lemma NextChunk(chunks: seq<string>, i: nat)
    requires i < |chunks|
    ensures Concat(chunks[..i + 1]) == Concat(chunks[..i]) + chunks[i]
    ensures Fed(chunks[..i + 1]) == Some(if i == 0 then chunks[i] else Fed(chunks[..i]).value + chunks[i])
  {
    ConcatSnoc(chunks[..i], chunks[i]);
    assert chunks[..i + 1] == chunks[..i] + [chunks[i]];
    assert "" + chunks[i] == chunks[i];
  }

  // ---------------------------------------------------------------- the meaning of a pipeline

  /** One after the other, each fed with what the one before it wrote: the world after them, and the last one's writes. */
  function Compose<W>(stages: seq<Stage<W>>, w: W, stdin: Option<string>): (W, seq<string>)
    requires stages != []
    decreases |stages|
  {
    var (w1, chunks) := stages[0].program(w, stages[0].args, stdin);
    if |stages| == 1 then (w1, chunks) else Compose(stages[1..], w1, Fed(chunks))
  }

  /** A pipeline put behind another is one pipeline: the second starts where the first ends, on what it wrote. */
  lemma {:induction false} PipelinesCompose<W>(a: seq<Stage<W>>, b: seq<Stage<W>>, w: W, stdin: Option<string>)
    requires a != [] && b != []
    ensures var (w1, chunks) := Compose(a, w, stdin);
            Compose(a + b, w, stdin) == Compose(b, w1, Fed(chunks))
    decreases |a|
  {
    assert (a + b)[1..] == a[1..] + b;
    if |a| == 1 {
      assert a[1..] + b == b;
    } else {
      var (w1, chunks) := a[0].program(w, a[0].args, stdin);
      PipelinesCompose(a[1..], b, w1, Fed(chunks));
    }
  }

  // ---------------------------------------------------------------- running a chain

  /** `HoneyPotBaseProtocol`, as far as a pipeline uses it. */
  class Shell<!W> {
    var world: W
    var terminal: string
    var pp: Link?<W>
    var cmdstack: seq<Link<W>>

    constructor (world: W)
      ensures this.world == world && terminal == "" && pp == null && cmdstack == []
    {
      this.world, terminal, pp, cmdstack := world, "", null, [];
    }

    /** The command of `link` starts: it acts on the world, writes, and exits. */
    method RunStage(link: Link<W>, ghost chain: seq<Link<W>>)
      requires IsChain(chain, this) && chain[0] == link && Unfed(chain)
      modifies this, chain`data, chain`redirectedData, chain`inputData
      ensures IsChain(chain, this) && Unfed(chain[1..])
      ensures var (w, chunks) := link.stage.program(old(world), link.stage.args, old(link.inputData));
              && world == w && cmdstack == old(cmdstack) && pp == link
              && if |chain| == 1
                 then terminal == old(terminal) + (if link.redirect then "" else Concat(chunks))
                      && link.redirectedData == old(link.redirectedData) + (if link.redirect then Concat(chunks) else "")
                 else terminal == old(terminal) && chain[1].inputData == Fed(chunks) && link.redirectedData == old(link.redirectedData)
      ensures forall i | 1 <= i < |chain| :: chain[i].redirectedData == old(chain[i].redirectedData)
    {
      ChainTail(chain, this);
      hide Concat, IsChain;
      pp := link;
      cmdstack := cmdstack + [link];
      var (w, chunks) := link.stage.program(world, link.stage.args, link.inputData);
      world := w;
      link.WriteAll(chunks);
      cmdstack := cmdstack[..|cmdstack| - 1];
    }

    /** Runs the stage of `link` and, from there, all stages after it (`chain`, with `link` first). */
    method CallCommand(link: Link<W>, ghost chain: seq<Link<W>>)
      requires IsChain(chain, this) && chain[0] == link && Unfed(chain)
      modifies this, chain`data, chain`redirectedData, chain`inputData
      ensures HasRun(chain, this, old(world), old(link.inputData), old(terminal), old(chain[|chain| - 1].redirectedData))
      ensures forall i | 0 <= i < |chain| - 1 :: chain[i].redirectedData == old(chain[i].redirectedData)
      ensures cmdstack == old(cmdstack) && pp == chain[|chain| - 1]
      decreases |chain|, 1
    {
      ChainTail(chain, this);
      OneStage(Stages(chain), world, link.inputData);
      RunStage(link, chain);
      hide IsChain, Stages, Concat, Compose, Unfed;
      pp.OutConnectionLost(chain);
    }
  }

  /** No stage but the first has been given anything. */
  ghost predicate Unfed<W>(chain: seq<Link<W>>)
    reads chain`inputData
  {
    forall i | 1 <= i < |chain| :: chain[i].inputData == None
  }

  lemma OneStage<W>(stages: seq<Stage<W>>, w: W, stdin: Option<string>)
    requires stages != []
    ensures var (w1, chunks) := stages[0].program(w, stages[0].args, stdin);
            Compose(stages, w, stdin) == if |stages| == 1 then (w1, chunks) else Compose(stages[1..], w1, Fed(chunks))
  {
  }

  lemma ChainTail<W>(chain: seq<Link<W>>, shell: Shell<W>)
    requires IsChain(chain, shell)
    ensures if |chain| == 1 then chain[0].nextCommand == null else chain[0].nextCommand == chain[1] && chain[1] != chain[0]
    ensures |chain| > 1 ==> IsChain(chain[1..], shell) && Stages(chain)[1..] == Stages(chain[1..])
    ensures |chain| > 1 && Unfed(chain) ==> chain[1].inputData == None && Unfed(chain[1..])
    ensures chain[0].protocol == shell && forall i | 1 <= i < |chain| :: chain[i] != chain[0]
  {
  }

  /** The whole chain has run on `stdin` in world `w0`: the world is what composing the stages makes of it, and
      what the last stage wrote was added to the terminal, or to its own store if output is redirected. */
  ghost predicate HasRun<W>(chain: seq<Link<W>>, shell: Shell<W>, w0: W, stdin: Option<string>, terminal0: string, redirected0: string)
    reads shell, chain
    requires chain != []
  {
    var (w, chunks) := Compose(Stages(chain), w0, stdin);
    var last := chain[|chain| - 1];
    && shell.world == w
    && shell.terminal == terminal0 + (if last.redirect then "" else Concat(chunks))
    && last.redirectedData == redirected0 + (if last.redirect then Concat(chunks) else "")
  }

  /** The links follow one another, write to `shell`, and are all different. */
  ghost predicate IsChain<W>(chain: seq<Link<W>>, shell: Shell<W>)
    reads chain`nextCommand
  {
    && chain != [] && (forall i, j | 0 <= i < j < |chain| :: chain[i] != chain[j])
    && (forall i | 0 <= i < |chain| :: chain[i].protocol == shell)
    && (forall i | 0 <= i < |chain| - 1 :: chain[i].nextCommand == chain[i + 1])
    && chain[|chain| - 1].nextCommand == null
  }

  lemma NotInTail<W>(chain: seq<Link<W>>, other: Link<W>, shell: Shell<W>)
    requires IsChain(chain, shell) && other !in chain
    ensures chain[0] !in [other] + chain[1..] && other !in chain[1..] && chain[0].protocol == shell
    ensures chain[1..] != [] ==> chain[1..][0] == chain[1]
  {
  }

  /** A link in front of a chain, or on its own. */
  lemma ConsChain<W>(first: Link<W>, rest: seq<Link<W>>, shell: Shell<W>)
    requires first.protocol == shell && first !in rest
    requires if rest == [] then first.nextCommand == null else IsChain(rest, shell) && first.nextCommand == rest[0]
    ensures IsChain([first] + rest, shell) && Stages([first] + rest) == [first.stage] + Stages(rest)
  {
  }

  ghost function Stages<W>(chain: seq<Link<W>>): (r: seq<Stage<W>>)
    ensures |r| == |chain| && forall i | 0 <= i < |r| :: r[i] == chain[i].stage
  {
    seq(|chain|, i requires 0 <= i < |chain| => chain[i].stage)
  }

  /** `StdOutStdErrEmulationProtocol` */
  class Link<!W> {
    const protocol: Shell<W>
    const stage: Stage<W>
    const redirect: bool
    var inputData: Option<string>
    var nextCommand: Link?<W>
    var data: string
    var redirectedData: string

    constructor (protocol: Shell<W>, stage: Stage<W>, inputData: Option<string>, nextCommand: Link?<W>, redirect: bool)
      ensures this.protocol == protocol && this.stage == stage && this.redirect == redirect
      ensures this.inputData == inputData && this.nextCommand == nextCommand && redirectedData == ""
    {
      this.protocol, this.stage, this.redirect := protocol, stage, redirect;
      this.inputData, this.nextCommand, data, redirectedData := inputData, nextCommand, "", "";
    }

    /** To the next stage's stdin if there is one, else to the terminal, else aside. */
    method OutReceived(d: string)
      requires nextCommand != this
      modifies this`data, this`redirectedData, protocol`terminal
      modifies if nextCommand == null then {} else {nextCommand}`inputData
      ensures data == d
      ensures nextCommand == null && !redirect ==> protocol.terminal == old(protocol.terminal) + d
      ensures nextCommand != null || redirect ==> protocol.terminal == old(protocol.terminal)
      ensures nextCommand == null && redirect ==> redirectedData == old(redirectedData) + d
      ensures nextCommand != null || !redirect ==> redirectedData == old(redirectedData)
      ensures nextCommand != null ==>
                nextCommand.inputData == Some(if old(nextCommand.inputData).None? then d else old(nextCommand.inputData).value + d)
    {
      data := d;
      if nextCommand == null {
        if !redirect {
          protocol.terminal := protocol.terminal + d;
        } else {
          redirectedData := redirectedData + d;
        }
      } else {
        if nextCommand.inputData.None? {
          nextCommand.inputData := Some(d);
        } else {
          nextCommand.inputData := Some(nextCommand.inputData.value + d);
        }
      }
    }

    /** The writes of this link's command. */
    method WriteAll(chunks: seq<string>)
      requires nextCommand != this && (nextCommand != null ==> nextCommand.inputData == None)
      modifies this`data, this`redirectedData, protocol`terminal
      modifies if nextCommand == null then {} else {nextCommand}`inputData
      ensures nextCommand == null ==>
                && protocol.terminal == old(protocol.terminal) + (if redirect then "" else Concat(chunks))
                && redirectedData == old(redirectedData) + (if redirect then Concat(chunks) else "")
      ensures nextCommand != null ==>
                && nextCommand.inputData == Fed(chunks)
                && protocol.terminal == old(protocol.terminal) && redirectedData == old(redirectedData)
    {
      hide Concat;
      NoChunks(chunks);
      for i := 0 to |chunks|
        invariant nextCommand == null ==>
                    && protocol.terminal == old(protocol.terminal) + (if redirect then "" else Concat(chunks[..i]))
                    && redirectedData == old(redirectedData) + (if redirect then Concat(chunks[..i]) else "")
        invariant nextCommand != null ==>
                    && nextCommand.inputData == Fed(chunks[..i])
                    && protocol.terminal == old(protocol.terminal) && redirectedData == old(redirectedData)
      {
        NextChunk(chunks, i);
        OutReceived(chunks[i]);
      }
    }

    /** Called when this link's command has exited: the next command runs, if there is one. */
    method OutConnectionLost(ghost chain: seq<Link<W>>)
      requires IsChain(chain, protocol) && chain[0] == this && Unfed(chain[1..])
      modifies protocol, chain`data, chain`redirectedData, chain`inputData
      ensures if |chain| == 1
              then protocol.world == old(protocol.world) && protocol.terminal == old(protocol.terminal)
              else HasRun(chain[1..], protocol, old(protocol.world), old(chain[1].inputData), old(protocol.terminal), old(chain[|chain| - 1].redirectedData))
      ensures redirectedData == old(redirectedData)
      ensures forall i | 0 <= i < |chain| - 1 :: chain[i].redirectedData == old(chain[i].redirectedData)
      ensures protocol.cmdstack == old(protocol.cmdstack)
      ensures protocol.pp == if |chain| == 1 then old(protocol.pp) else chain[|chain| - 1]
      decreases |chain|, 0
    {
      ChainTail(chain, protocol);
      if nextCommand != null {
        protocol.CallCommand(nextCommand, chain[1..]);
        forall i | 0 <= i < |chain| - 1 ensures chain[i].redirectedData == old(chain[i].redirectedData) {
          assert i > 0 ==> chain[i] == chain[1..][i - 1];
        }
      }
    }

    /** `command` is put between this link and the rest: what was a chain is one with `command` second. */
    method InsertCommand(command: Link<W>, ghost chain: seq<Link<W>>)
      requires IsChain(chain, protocol) && chain[0] == this
      requires command !in chain && command.protocol == protocol
      modifies this`nextCommand, command`nextCommand
      ensures IsChain([this] + ([command] + chain[1..]), protocol)
    {
      ghost var rest := chain[1..];
      ChainTail(chain, protocol);
      NotInTail(chain, command, protocol);
      hide IsChain, Stages;
      command.nextCommand := nextCommand;
      nextCommand := command;
      ConsChain(command, rest, protocol);
      ConsChain(this, [command] + rest, protocol);
    }
  }

  /** What such a chain does: the inserted command runs between the first stage and the rest, fed by the one and
      feeding the other. */
  lemma InsertedRunsSecond<W>(chain: seq<Link<W>>, command: Link<W>, w: W, stdin: Option<string>)
    requires chain != []
    ensures var first, rest := chain[0].stage, Stages(chain[1..]);
            var (w1, chunks1) := first.program(w, first.args, stdin);
            var (w2, chunks2) := command.stage.program(w1, command.stage.args, Fed(chunks1));
            Compose(Stages([chain[0]] + ([command] + chain[1..])), w, stdin) ==
            if rest == [] then (w2, chunks2) else Compose(rest, w2, Fed(chunks2))
  {
    var all := Stages([chain[0]] + ([command] + chain[1..]));
    assert all[1..][1..] == Stages(chain[1..]);
  }

  // ---------------------------------------------------------------- splitting at pipes

  const PIPE := "|"

  /** The parts put together again with a pipe between any two. */
  function Joined(parts: seq<seq<string>>): seq<string>
    requires parts != []
  {
    if |parts| == 1 then parts[0] else parts[0] + [PIPE] + Joined(parts[1..])
  }

  ghost predicate NoPipe(parts: seq<seq<string>>) {
    forall i | 0 <= i < |parts| :: PIPE !in parts[i]
  }

  lemma {:induction false} JoinedSnoc(parts: seq<seq<string>>, part: seq<string>)
    requires parts != []
    ensures Joined(parts + [part]) == Joined(parts) + [PIPE] + part
  {
    assert (parts + [part])[1..] == parts[1..] + [part];
    if |parts| > 1 {
      JoinedSnoc(parts[1..], part);
      assert parts[0] + [PIPE] + (Joined(parts[1..]) + [PIPE] + part) == parts[0] + [PIPE] + Joined(parts[1..]) + [PIPE] + part;
    }
  }

  function FirstPipe(words: seq<string>): nat {
    if words == [] || words[0] == PIPE then 0 else 1 + FirstPipe(words[1..])
  }

  lemma {:induction false} FirstPipeAt(part: seq<string>, more: seq<string>)
    requires PIPE !in part && (more != [] ==> more[0] == PIPE)
    ensures FirstPipe(part + more) == |part|
  {
    if part == [] {
      assert part + more == more;
    } else {
      assert (part + more)[1..] == part[1..] + more;
      FirstPipeAt(part[1..], more);
    }
  }

  lemma FirstPart(parts: seq<seq<string>>)
    requires parts != [] && NoPipe(parts)
    ensures var j, n := Joined(parts), |parts[0]|;
            && FirstPipe(j) == n <= |j| && j[..n] == parts[0]
            && (if |parts| == 1 then |j| == n else |j| > n && j[n + 1..] == Joined(parts[1..]))
  {
    var more := if |parts| == 1 then [] else [PIPE] + Joined(parts[1..]);
    assert Joined(parts) == parts[0] + more;
    assert PIPE !in parts[0];
    FirstPipeAt(parts[0], more);
  }

  /** There is only one way to take words apart at pipes. */
  lemma {:induction false} SplitUnique(a: seq<seq<string>>, b: seq<seq<string>>)
    requires a != [] && b != [] && NoPipe(a) && NoPipe(b) && Joined(a) == Joined(b)
    ensures a == b
  {
    FirstPart(a);
    FirstPart(b);
    if |a| > 1 {
      assert |b| > 1;
      SplitUnique(a[1..], b[1..]);
    }
  }

  /** Splitting at pipes loses nothing. */
  method SplitAtPipes(words: seq<string>) returns (parts: seq<seq<string>>)
    ensures parts != [] && NoPipe(parts) && Joined(parts) == words
  {
    parts := [];
    var start := 0;
    for i := 0 to |words|
      invariant start <= i && PIPE !in words[start..i]
      invariant NoPipe(parts)
      invariant if parts == [] then start == 0 else Joined(parts) + [PIPE] == words[..start]
    {
      if words[i] == PIPE {
        var part := words[start..i];
        if parts != [] {
          JoinedSnoc(parts, part);
          assert words[..i + 1] == words[..start] + part + [PIPE];
        } else {
          assert Joined([part]) + [PIPE] == words[..i + 1];
        }
        parts := parts + [part];
        start := i + 1;
      } else {
        assert words[start..i + 1] == words[start..i] + [words[i]];
      }
    }
    var part := words[start..];
    assert words == words[..start] + part;
    if parts != [] {
      JoinedSnoc(parts, part);
    }
    parts := parts + [part];
  }

  // ---------------------------------------------------------------- a command line

  /** How `runCommand` ends for one line. `Failed` is the IndexError of an empty stage. */
  datatype Outcome = Nothing | Ran | NotFound(name: string) | Failed

  predicate IsAssignment(piece: string) {
    '=' in piece
  }

  /** The first word that is no assignment, or the end. */
  function CommandAt(words: seq<string>): (k: nat)
    ensures k <= |words| && (forall i | 0 <= i < k :: IsAssignment(words[i])) && (k < |words| ==> !IsAssignment(words[k]))
  {
    if words == [] || !IsAssignment(words[0]) then 0 else 1 + CommandAt(words[1..])
  }

  /** Name and arguments of each stage. */
  datatype Command = Command(name: string, args: seq<string>)

  /** The words of a line of commands. */
  function Words(cmds: seq<Command>): seq<string>
    requires cmds != []
  {
    Joined(Parts(cmds))
  }

  function Parts(cmds: seq<Command>): (r: seq<seq<string>>)
    ensures |r| == |cmds| && forall i | 0 <= i < |r| :: r[i] == [cmds[i].name] + cmds[i].args
  {
    seq(|cmds|, i requires 0 <= i < |cmds| => [cmds[i].name] + cmds[i].args)
  }

  lemma JoinedHead(name: string, parts: seq<seq<string>>)
    requires parts != []
    ensures Joined([[name] + parts[0]] + parts[1..]) == [name] + Joined(parts)
  {
    assert ([[name] + parts[0]] + parts[1..])[1..] == parts[1..];
    if |parts| > 1 {
      var rest := Joined(parts[1..]);
      assert [name] + parts[0] + [PIPE] + rest == [name] + (parts[0] + [PIPE] + rest);
    }
  }

  /** `cmds` are the stages of a line `name` + `parts`. */
  ghost predicate IsStages(cmds: seq<Command>, name: string, parts: seq<seq<string>>) {
    && |cmds| == |parts| > 0 && cmds[0] == Command(name, parts[0])
    && (forall k | 0 <= k < |cmds| :: PIPE !in cmds[k].args)
    && (forall k | 1 <= k < |cmds| :: cmds[k].name != PIPE && [cmds[k].name] + cmds[k].args == parts[k])
  }

  lemma NextStage(cmds: seq<Command>, name: string, parts: seq<seq<string>>, i: nat)
    requires 0 < i < |parts| && NoPipe(parts) && parts[i] != [] && IsStages(cmds, name, parts[..i])
    ensures IsStages(cmds + [Command(parts[i][0], parts[i][1..])], name, parts[..i + 1])
  {
    assert PIPE !in parts[i];
    assert [parts[i][0]] + parts[i][1..] == parts[i];
    assert forall k | 0 <= k < i :: parts[..i + 1][k] == parts[..i][k];
  }

  lemma EmptyStage(parts: seq<seq<string>>, i: nat)
    requires 0 < i < |parts| && parts[i] == []
    ensures [] in parts[1..]
  {
    assert parts[1..][i - 1] == [];
  }

  lemma StagesAreWords(cmds: seq<Command>, name: string, parts: seq<seq<string>>)
    requires IsStages(cmds, name, parts)
    ensures Words(cmds) == [name] + Joined(parts)
  {
    assert Parts(cmds) == [[name] + parts[0]] + parts[1..];
    JoinedHead(name, parts);
  }

  class LineRunner<!W> {
    const shell: Shell<W>
    const redirect: bool
    /** `getCommand`, for the path of the line. */
    const lookup: string -> Option<Program<W>>

    constructor (shell: Shell<W>, redirect: bool, lookup: string -> Option<Program<W>>)
      ensures this.shell == shell && this.redirect == redirect && this.lookup == lookup
    {
      this.shell, this.redirect, this.lookup := shell, redirect, lookup;
    }

    ghost predicate AllFound(cmds: seq<Command>) {
      forall i | 0 <= i < |cmds| :: lookup(cmds[i].name).Some?
    }

    ghost function StagesOf(cmds: seq<Command>): (r: seq<Stage<W>>)
      requires AllFound(cmds)
      ensures |r| == |cmds|
    {
      seq(|cmds|, i requires 0 <= i < |cmds| => Stage(lookup(cmds[i].name).value, cmds[i].args))
    }

    /** Links the stages from right to left; stops at the first, from the right, that is not found. */
    method BuildChain(cmds: seq<Command>) returns (missing: Option<string>, first: Link?<W>, ghost chain: seq<Link<W>>)
      requires cmds != []
      ensures missing.None? <==> AllFound(cmds)
      ensures missing.Some? ==> exists k | 0 <= k < |cmds| ::
                cmds[k].name == missing.value && lookup(missing.value).None? && AllFound(cmds[k + 1..])
      ensures missing.None? ==>
                && IsChain(chain, shell) && first == chain[0] && fresh(chain) && Stages(chain) == StagesOf(cmds)
                && forall i | 0 <= i < |chain| :: chain[i].inputData == None && chain[i].redirect == redirect && chain[i].redirectedData == ""
    {
      hide IsChain;
      var lastpp: Link?<W> := null;
      chain := [];
      var index := |cmds|;
      while index > 0
        invariant 0 <= index <= |cmds| && AllFound(cmds[index..])
        invariant |chain| == |cmds| - index && fresh(chain)
        invariant chain == [] ==> lastpp == null
        invariant chain != [] ==> IsChain(chain, shell) && lastpp == chain[0] && Stages(chain) == StagesOf(cmds[index..])
        invariant forall i | 0 <= i < |chain| :: chain[i].inputData == None && chain[i].redirect == redirect && chain[i].redirectedData == ""
      {
        index := index - 1;
        var cmd := cmds[index];
        var program := lookup(cmd.name);
        if program.None? {
          return Some(cmd.name), null, chain;
        }
        assert cmds[index..] == [cmd] + cmds[index + 1..];
        var pp := new Link<W>(shell, Stage(program.value, cmd.args), None, lastpp, redirect);
        ConsChain(pp, chain, shell);
        chain := [pp] + chain;
        lastpp := pp;
      }
      assert cmds[0..] == cmds;
      return None, lastpp, chain;
    }

    /** Takes the stages of a line apart; `Failed` if one after a pipe is empty. */
    method ParseStages(name: string, rest: seq<string>) returns (ok: bool, cmds: seq<Command>)
      ensures ok ==> cmds != [] && Words(cmds) == [name] + rest && cmds[0].name == name
      ensures ok ==> forall i | 0 <= i < |cmds| :: PIPE !in cmds[i].args && (i > 0 ==> cmds[i].name != PIPE)
      ensures !ok ==> exists parts :: parts != [] && NoPipe(parts) && Joined(parts) == rest && [] in parts[1..]
    {
      var parts := SplitAtPipes(rest);
      cmds := [Command(name, parts[0])];
      for i := 1 to |parts|
        invariant IsStages(cmds, name, parts[..i])
      {
        if parts[i] == [] {
          EmptyStage(parts, i);
          return false, cmds;
        }
        NextStage(cmds, name, parts, i);
        cmds := cmds + [Command(parts[i][0], parts[i][1..])];
      }
      assert parts[..|parts|] == parts;
      StagesAreWords(cmds, name, parts);
      return true, cmds;
    }

    /** One line: assignments are skipped, then the stages are found and run. */
    method RunLine(words: seq<string>) returns (outcome: Outcome, ghost cmds: seq<Command>)
      modifies shell
      ensures var k := CommandAt(words);
              && (forall i | 0 <= i < k :: '=' in words[i]) && (k < |words| ==> '=' !in words[k])
              && (outcome.Nothing? <==> k == |words| || words[k] == "")
              && (outcome.Ran? || outcome.NotFound? ==>
                    && cmds != [] && Words(cmds) == words[k..]
                    && (forall i | 0 <= i < |cmds| :: PIPE !in cmds[i].args && (i > 0 ==> cmds[i].name != PIPE)))
              && (outcome.Failed? ==> exists parts :: parts != [] && NoPipe(parts) && Joined(parts) == words[k + 1..] && [] in parts[1..])
      ensures outcome.Ran? ==>
                && AllFound(cmds) && cmds != []
                && var (w, chunks) := Compose(StagesOf(cmds), old(shell.world), None);
                   && shell.world == w
                   && shell.terminal == old(shell.terminal) + (if redirect then "" else Concat(chunks))
                   && shell.pp != null && shell.pp.redirectedData == if redirect then Concat(chunks) else ""
      ensures outcome.NotFound? ==>
                && (exists i | 0 <= i < |cmds| :: cmds[i].name == outcome.name && lookup(outcome.name).None? && AllFound(cmds[i + 1..]))
                && shell.terminal == old(shell.terminal) + "-bash: " + outcome.name + ": command not found\n"
      ensures !outcome.Ran? ==> shell.world == old(shell.world)
      ensures outcome.Nothing? || outcome.Failed? ==> shell.terminal == old(shell.terminal)
    {
      var k := 0;
      while k < |words| && IsAssignment(words[k])
        invariant k <= |words| && forall i | 0 <= i < k :: IsAssignment(words[i])
      {
        k := k + 1;
      }
      if k == |words| || words[k] == "" {
        return Nothing, [];
      }
      var ok, parsed := ParseStages(words[k], words[k + 1..]);
      cmds := parsed;
      if !ok {
        return Failed, cmds;
      }
      assert [words[k]] + words[k + 1..] == words[k..];
      var missing, first, chain := BuildChain(parsed);
      if missing.Some? {
        shell.terminal := shell.terminal + "-bash: " + missing.value + ": command not found\n";
        return NotFound(missing.value), cmds;
      }
      shell.CallCommand(first, chain);
      return Ran, cmds;
    }
  }
}
