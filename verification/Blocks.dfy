/**
 The control flow of mysqltest.  A script is a flat list of lines; `if` and `while` push a block
 on a bounded stack, an end line pops it and may jump back.  The flat machine runs exactly the
 commands that the nested program runs, until a block is nested too deeply for the stack.
 */
module Blocks {
  import opened Wrappers

  // Nothing is known of the commands, of the tests, of what they change, and of the errors that may be expected.
  type Cmd(!new)
  type Test(!new)
  type World(!new)
  type Code(!new)

  /** `pending` are the errors expected of the next command, as an `error` line before it says. */
  datatype State = State(world: World, pending: seq<Code>)

  /** What a command goes by: the errors expected of it, and whether another one is fatal. */
  datatype Note = Note(expected: seq<Code>, abort: bool)

  /** A command or a test goes on with a new world, or ends the whole run: `exit`, or a fatal error. */
  datatype Act = On(world: World) | Off(world: World)

  /** What the commands and the tests do; `aborts` is the setting abort_on_error. */
  datatype Actions = Actions(exec: (Cmd, Note, World) -> Act, test: (Test, World) -> (Act, bool), aborts: World -> bool)

  datatype Effect = Go(s: State) | Quit(s: State)

  /** No errors are expected any more. */
  function Cleared(s: State): State {
    s.(pending := [])
  }

  /** The note that a line read in state `s` gets. */
  function NoteNow(a: Actions, s: State): Note {
    Note(s.pending, |s.pending| == 0 && a.aborts(s.world))
  }

  /** A command with the note `note`; what was expected is used up. */
  function Perform(a: Actions, c: Cmd, note: Note, s: State): Effect {
    match a.exec(c, note, s.world)
    case On(w) => Go(State(w, []))
    case Off(w) => Quit(State(w, []))
  }

  function Try(a: Actions, e: Test, s: State): (Effect, bool) {
    var (o, yes) := a.test(e, s.world);
    (if o.On? then Go(State(o.world, [])) else Quit(State(o.world, [])), yes)
  }

  /**
   The run goes on, or ends, in the world that the command or the test leaves, with nothing expected; only a command
   of which no error is expected can be one that aborts.
   */
  lemma WorldAfter(a: Actions, c: Cmd, e: Test, s: State)
    ensures var note, act := NoteNow(a, s), a.exec(c, NoteNow(a, s), s.world);
            && (note.abort <==> s.pending == [] && a.aborts(s.world)) && note.expected == s.pending
            && Perform(a, c, note, s).s == State(act.world, []) && (Perform(a, c, note, s).Quit? <==> act.Off?)
    ensures var (act, yes) := a.test(e, s.world);
            && Try(a, e, s).0.s == State(act.world, []) && (Try(a, e, s).0.Quit? <==> act.Off?)
            && Try(a, e, s).1 == yes
  {
  }

  // ---------------------------------------------------------------- structured programs

  datatype Prog =
    | Nil
    | Do(c: Cmd, rest: Prog)
    | Expect(codes: seq<Code>, rest: Prog)
    | If(e: Test, body: Prog, rest: Prog)
    | While(e: Test, body: Prog, rest: Prog)

  /** How a program comes to its end. */
  datatype Outcome = Running(s: State) | Stopped(s: State) | TooDeep(s: State)

  /**
   The meaning of a program; nothing if some loop goes round more than `fuel` times.  A command gets the note
   for the state in which it is executed; behind a block nothing is expected.
   */
  function Exec(a: Actions, p: Prog, s: State, fuel: nat): Option<Outcome>
    decreases fuel, p
  {
    match p
    case Nil => Some(Running(s))
    case Do(c, rest) =>
      var o := Perform(a, c, NoteNow(a, s), s);
      if o.Quit? then Some(Stopped(o.s)) else Exec(a, rest, o.s, fuel)
    case Expect(codes, rest) => Exec(a, rest, s.(pending := codes), fuel)
    case If(e, body, rest) =>
      var (o, yes) := Try(a, e, s);
      if o.Quit? then Some(Stopped(o.s))
      else if !yes then Exec(a, rest, o.s, fuel)
      else Then(Exec(a, body, o.s, fuel), s' => Exec(a, rest, Cleared(s'), fuel))
    case While(e, body, rest) =>
      var (o, yes) := Try(a, e, s);
      if o.Quit? then Some(Stopped(o.s))
      else if !yes then Exec(a, rest, o.s, fuel)
      else if fuel == 0 then None
      else Then(Exec(a, body, o.s, fuel), s' => Exec(a, p, Cleared(s'), fuel - 1))
  }

  function Then(o: Option<Outcome>, next: State -> Option<Outcome>): Option<Outcome> {
    if o.Some? && o.value.Running? then next(o.value.s) else o
  }

  /**
   The same with room for `room` open blocks: a block that would need one more ends the run before
   its test is made, and so does one inside a body that is skipped, after the test that skips it.
   */
  function ExecIn(a: Actions, p: Prog, s: State, fuel: nat, room: nat): Option<Outcome>
    decreases fuel, p
  {
    match p
    case Nil => Some(Running(s))
    case Do(c, rest) =>
      var o := Perform(a, c, NoteNow(a, s), s);
      if o.Quit? then Some(Stopped(o.s)) else ExecIn(a, rest, o.s, fuel, room)
    case Expect(codes, rest) => ExecIn(a, rest, s.(pending := codes), fuel, room)
    case If(e, body, rest) =>
      if room == 0 then Some(TooDeep(s))
      else
        var (o, yes) := Try(a, e, s);
        if o.Quit? then Some(Stopped(o.s))
        else if !yes then if Depth(body) < room then ExecIn(a, rest, o.s, fuel, room) else Some(TooDeep(o.s))
        else Then(ExecIn(a, body, o.s, fuel, room - 1), s' => ExecIn(a, rest, Cleared(s'), fuel, room))
    case While(e, body, rest) =>
      if room == 0 then Some(TooDeep(s))
      else
        var (o, yes) := Try(a, e, s);
        if o.Quit? then Some(Stopped(o.s))
        else if !yes then if Depth(body) < room then ExecIn(a, rest, o.s, fuel, room) else Some(TooDeep(o.s))
        else if fuel == 0 then None
        else Then(ExecIn(a, body, o.s, fuel, room - 1), s' => ExecIn(a, p, Cleared(s'), fuel - 1, room))
  }

  function Depth(p: Prog): nat {
    match p
    case Nil => 0
    case Do(_, rest) => Depth(rest)
    case Expect(_, rest) => Depth(rest)
    case If(_, body, rest) => Max(1 + Depth(body), Depth(rest))
    case While(_, body, rest) => Max(1 + Depth(body), Depth(rest))
  }

  function Max(x: nat, y: nat): nat {
    if x < y then y else x
  }

  // ---------------------------------------------------------------- scripts

  datatype Line = Command(c: Cmd) | ErrorLine(codes: seq<Code>) | IfLine(e: Test) | WhileLine(e: Test) | EndLine

  function Size(p: Prog): nat {
    match p
    case Nil => 0
    case Do(_, rest) => 1 + Size(rest)
    case Expect(_, rest) => 1 + Size(rest)
    case If(_, body, rest) => 2 + Size(body) + Size(rest)
    case While(_, body, rest) => 2 + Size(body) + Size(rest)
  }

  /** The lines of a program. */
  function Flatten(p: Prog): (lines: seq<Line>)
    ensures |lines| == Size(p)
  {
    match p
    case Nil => []
    case Do(c, rest) => [Command(c)] + Flatten(rest)
    case Expect(codes, rest) => [ErrorLine(codes)] + Flatten(rest)
    case If(e, body, rest) => [IfLine(e)] + Flatten(body) + [EndLine] + Flatten(rest)
    case While(e, body, rest) => [WhileLine(e)] + Flatten(body) + [EndLine] + Flatten(rest)
  }

  /** The lines from `i` on are those of `p`. */
  ghost predicate Holds(lines: seq<Line>, i: nat, p: Prog)
    decreases p, 0
  {
    match p
    case Nil => i <= |lines|
    case Do(c, rest) => i < |lines| && lines[i] == Command(c) && Holds(lines, i + 1, rest)
    case Expect(codes, rest) => i < |lines| && lines[i] == ErrorLine(codes) && Holds(lines, i + 1, rest)
    case If(e, body, rest) =>
      && i < |lines| && lines[i] == IfLine(e)
      && HoldsBlock(lines, i + 1, body) && Holds(lines, i + 2 + Size(body), rest)
    case While(e, body, rest) =>
      && i < |lines| && lines[i] == WhileLine(e)
      && HoldsBlock(lines, i + 1, body) && Holds(lines, i + 2 + Size(body), rest)
  }

  ghost predicate HoldsBlock(lines: seq<Line>, i: nat, body: Prog)
    decreases body, 1
  {
    Holds(lines, i, body) && i + Size(body) < |lines| && lines[i + Size(body)] == EndLine
  }

  /** Between other lines, `before` and `after` it, a script holds its program. */
  lemma {:induction false} HoldsBetween(lines: seq<Line>, before: seq<Line>, p: Prog, after: seq<Line>)
    requires lines == before + Flatten(p) + after
    ensures Holds(lines, |before|, p)
    decreases p, 1
  {
    if p.Do? {
      var next := before + [Command(p.c)];
      assert lines == next + Flatten(p.rest) + after;
      HoldsBetween(lines, next, p.rest, after);
    } else if p.Expect? {
      var next := before + [ErrorLine(p.codes)];
      assert lines == next + Flatten(p.rest) + after;
      HoldsBetween(lines, next, p.rest, after);
    } else if IsBlock(p) {
      BlockBetween(lines, before, p, Flatten(p.body), Flatten(p.rest), after);
    }
  }

  lemma {:induction false} BlockBetween(lines: seq<Line>, before: seq<Line>, p: Prog, body: seq<Line>, rest: seq<Line>,
                                        after: seq<Line>)
    requires IsBlock(p) && body == Flatten(p.body) && rest == Flatten(p.rest)
    requires lines == before + ([OpenLine(p)] + body + [EndLine] + rest) + after
    ensures Holds(lines, |before|, p)
    decreases p, 0
  {
    Apart(lines, before, OpenLine(p), body, rest, after);
    HoldsBetween(lines, before + [OpenLine(p)], p.body, [EndLine] + rest + after);
    HoldsBetween(lines, before + [OpenLine(p)] + body + [EndLine], p.rest, after);
    BlockHolds(lines, |before|, p);
  }

  lemma HoldsFirst(lines: seq<Line>, p: Prog, x: Line, after: seq<Line>)
    requires lines == Flatten(p) + [x] + after
    ensures Holds(lines, 0, p) && Size(p) < |lines| && lines[Size(p)] == x
  {
    Grouped([], Flatten(p), x, after);
    HoldsBetween(lines, [], p, [x] + after);
  }

  lemma HoldsLast(lines: seq<Line>, before: seq<Line>, p: Prog)
    requires lines == before + Flatten(p)
    ensures Holds(lines, |before|, p)
  {
    NothingAfter(before, Flatten(p));
    HoldsBetween(lines, before, p, []);
  }

  lemma Grouped(before: seq<Line>, body: seq<Line>, x: Line, after: seq<Line>)
    ensures before + (body + [x] + after) == before + body + ([x] + after) && (body + [x] + after)[|body|] == x
    ensures [] + (body + [x] + after) == body + [x] + after
  {
  }

  lemma NothingAfter(before: seq<Line>, body: seq<Line>)
    ensures before + body + [] == before + body
  {
  }

  lemma Apart(lines: seq<Line>, before: seq<Line>, open: Line, body: seq<Line>, rest: seq<Line>, after: seq<Line>)
    requires lines == before + ([open] + body + [EndLine] + rest) + after
    ensures lines == before + [open] + body + ([EndLine] + rest + after)
    ensures lines == before + [open] + body + [EndLine] + rest + after
    ensures lines[|before|] == open && lines[|before| + 1 + |body|] == EndLine
  {
  }

  function OpenLine(p: Prog): Line
    requires IsBlock(p)
  {
    if p.If? then IfLine(p.e) else WhileLine(p.e)
  }

  lemma BlockHolds(lines: seq<Line>, i: nat, p: Prog)
    requires IsBlock(p) && i + 1 + Size(p.body) < |lines|
    requires lines[i] == OpenLine(p) && lines[i + 1 + Size(p.body)] == EndLine
    requires Holds(lines, i + 1, p.body) && Holds(lines, i + 2 + Size(p.body), p.rest)
    ensures Holds(lines, i, p) && Size(p) == 2 + Size(p.body) + Size(p.rest)
  {
    assert HoldsBlock(lines, i + 1, p.body);
  }

  predicate IsBlock(p: Prog) {
    p.If? || p.While?
  }

  // ---------------------------------------------------------------- the flat machine

  datatype BlockCmd = CmdNone | CmdIf | CmdWhile

  /** Entry of the block stack; `line` is where the block inside it was opened last. */
  datatype Block = Block(line: nat, ok: bool, cmd: BlockCmd)

  datatype Death = NestingTooDeep | StrayEnd | MissingEnd

  /** The machine at a line, with the stack `blocks[..cur + 1]`; or at its end. */
  datatype Config =
    | At(line: nat, blocks: seq<Block>, cur: nat, s: State)
    | Ended(s: State)
    | Stop(s: State)
    | Died(why: Death, s: State)

  ghost predicate Sane(c: Config, max: nat) {
    c.At? ==> |c.blocks| == max + 1 && c.cur <= max
  }

  /** do_block; `max` is the highest index of the stack. */
  function DoBlock(a: Actions, max: nat, c: Config, cmd: BlockCmd, e: Test): (r: Config)
    requires c.At? && Sane(c, max)
    ensures Sane(r, max)
  {
    if c.cur == max then Died(NestingTooDeep, c.s)
    else
      var blocks := c.blocks[c.cur := c.blocks[c.cur].(line := c.line)];
      if !c.blocks[c.cur].ok then Push(c, blocks, cmd, false, Cleared(c.s))
      else
        var (o, yes) := Try(a, e, c.s);
        if o.Quit? then Stop(o.s) else Push(c, blocks, cmd, yes, o.s)
  }

  function Push(c: Config, blocks: seq<Block>, cmd: BlockCmd, ok: bool, s: State): Config
    requires c.At? && c.cur + 1 < |blocks|
  {
    At(c.line + 1, blocks[c.cur + 1 := blocks[c.cur + 1].(ok := ok, cmd := cmd)], c.cur + 1, s)
  }

  /** do_done. */
  function DoDone(max: nat, c: Config): (r: Config)
    requires c.At? && Sane(c, max)
    ensures Sane(r, max)
  {
    if c.cur == 0 then Died(StrayEnd, c.s)
    else if c.blocks[c.cur].ok && c.blocks[c.cur].cmd == CmdWhile then
      At(c.blocks[c.cur - 1].line, c.blocks, c.cur - 1, Cleared(c.s))
    else At(c.line + 1, c.blocks, c.cur - 1, Cleared(c.s))
  }

  /** A command line that is executed, with the note `note`. */
  function DoCommand(a: Actions, c: Config, cc: Cmd, note: Note): (r: Config)
    requires c.At?
  {
    match Perform(a, cc, note, c.s)
    case Go(s) => c.(line := c.line + 1, s := s)
    case Quit(s) => Stop(s)
  }

  /** One round of the main loop, with the note of a command taken when it is executed. */
  function Step(a: Actions, lines: seq<Line>, max: nat, c: Config): (r: Config)
    requires Sane(c, max)
    ensures Sane(r, max)
  {
    if !c.At? then c
    else if c.line >= |lines| then if c.cur == 0 then Ended(c.s) else Died(MissingEnd, c.s)
    else match lines[c.line]
      case Command(cc) =>
        if c.blocks[c.cur].ok then DoCommand(a, c, cc, NoteNow(a, c.s)) else c.(line := c.line + 1, s := Cleared(c.s))
      case ErrorLine(codes) =>
        c.(line := c.line + 1, s := if c.blocks[c.cur].ok then c.s.(pending := codes) else c.s)
      case IfLine(e) => DoBlock(a, max, c, CmdIf, e)
      case WhileLine(e) => DoBlock(a, max, c, CmdWhile, e)
      case EndLine => DoDone(max, c)
  }

  function Run(a: Actions, lines: seq<Line>, max: nat, c: Config, k: nat): (r: Config)
    requires Sane(c, max)
    ensures Sane(r, max)
    decreases k
  {
    if k == 0 then c else Run(a, lines, max, Step(a, lines, max, c), k - 1)
  }

  lemma {:induction false} RunAdd(a: Actions, lines: seq<Line>, max: nat, c: Config, j: nat, k: nat)
    requires Sane(c, max)
    ensures Run(a, lines, max, c, j + k) == Run(a, lines, max, Run(a, lines, max, c, j), k)
    decreases j
  {
    if j > 0 {
      RunAdd(a, lines, max, Step(a, lines, max, c), j - 1, k);
    }
  }

  /** Nothing happens after the end. */
  lemma {:induction false} Absorbs(a: Actions, lines: seq<Line>, max: nat, c: Config, k: nat)
    requires !c.At?
    ensures Run(a, lines, max, c, k) == c
    decreases k
  {
    if k > 0 {
      Absorbs(a, lines, max, c, k - 1);
    }
  }

  // ---------------------------------------------------------------- simulation

  /** The stack up to `cur` is the same, but for the line that entry `cur` remembers. */
  ghost predicate SameBelow(b: seq<Block>, b': seq<Block>, cur: nat) {
    && |b| == |b'| && cur < |b| && b'[cur].ok == b[cur].ok && b'[cur].cmd == b[cur].cmd
    && forall j | 0 <= j < cur :: b'[j] == b[j]
  }

  /** The machine has come to the end of `p`, which started at line `i` with stack `b`. */
  ghost predicate Through(c: Config, p: Prog, i: nat, b: seq<Block>, cur: nat, s: State) {
    c.At? && c.line == i + Size(p) && c.cur == cur && c.s == s && SameBelow(b, c.blocks, cur)
  }

  /** `p` fits on the stack above `cur`. */
  predicate Fits(p: Prog, cur: nat, max: nat) {
    cur + Depth(p) <= max
  }

  lemma FitsParts(p: Prog, cur: nat, max: nat)
    requires IsBlock(p)
    ensures Fits(p, cur, max) <==> Fits(p.body, cur + 1, max) && Fits(p.rest, cur, max)
  {
  }

  /** What opening a block comes to. */
  ghost function Opened(b: seq<Block>, cur: nat, line: nat, cmd: BlockCmd, ok: bool): (b': seq<Block>)
    requires cur + 1 < |b|
    ensures SameBelow(b, b', cur) && b'[cur].line == line && b'[cur + 1].ok == ok && b'[cur + 1].cmd == cmd
  {
    b[cur := b[cur].(line := line)][cur + 1 := b[cur + 1].(ok := ok, cmd := cmd)]
  }

  lemma SameTrans(b: seq<Block>, b': seq<Block>, b'': seq<Block>, cur: nat, cur': nat)
    requires SameBelow(b, b', cur) && SameBelow(b', b'', cur') && cur <= cur'
    ensures SameBelow(b, b'', cur)
    ensures cur < cur' ==> b''[cur].line == b'[cur].line
  {
  }

  function CmdOf(p: Prog): BlockCmd {
    if p.If? then CmdIf else CmdWhile
  }

  /** The step at the line of a block. */
  lemma OpenStep(a: Actions, lines: seq<Line>, max: nat, p: Prog, i: nat, b: seq<Block>, cur: nat, s: State)
    requires IsBlock(p) && Holds(lines, i, p) && |b| == max + 1 && cur <= max
    ensures var c := Step(a, lines, max, At(i, b, cur, s));
            if cur == max then c == Died(NestingTooDeep, s)
            else if !b[cur].ok then c == At(i + 1, Opened(b, cur, i, CmdOf(p), false), cur + 1, Cleared(s))
            else
              var (o, yes) := Try(a, p.e, s);
              if o.Quit? then c == Stop(o.s) else c == At(i + 1, Opened(b, cur, i, CmdOf(p), yes), cur + 1, o.s)
  {
  }

  /** Two runs one after the other. */
  lemma RunOn(a: Actions, lines: seq<Line>, max: nat, c0: Config, k1: nat, c1: Config, k2: nat, c2: Config)
    requires Sane(c0, max) && Run(a, lines, max, c0, k1) == c1 && Run(a, lines, max, c1, k2) == c2
    ensures Run(a, lines, max, c0, k1 + k2) == c2
  {
    RunAdd(a, lines, max, c0, k1, k2);
  }

  /** A skipped program: no command runs, the state stays, and the machine comes out at its end. */
  lemma {:induction false} Skips(a: Actions, lines: seq<Line>, max: nat, p: Prog, i: nat, b: seq<Block>, cur: nat,
                                 s: State) returns (k: nat)
    requires Holds(lines, i, p) && |b| == max + 1 && cur <= max && !b[cur].ok && s.pending == []
    ensures var c := Run(a, lines, max, At(i, b, cur, s), k);
            if Fits(p, cur, max) then Through(c, p, i, b, cur, s) else c == Died(NestingTooDeep, s)
    decreases p, 3
  {
    match p
    case Nil =>
      k := 0;
    case Do(c, rest) =>
      var k' := Skips(a, lines, max, rest, i + 1, b, cur, s);
      k := 1 + k';
    case Expect(codes, rest) =>
      var k' := Skips(a, lines, max, rest, i + 1, b, cur, s);
      k := 1 + k';
    case If(e, body, rest) =>
      k := SkipsBlock(a, lines, max, p, i, b, cur, s);
    case While(e, body, rest) =>
      k := SkipsBlock(a, lines, max, p, i, b, cur, s);
  }

  lemma {:induction false} SkipsBlock(a: Actions, lines: seq<Line>, max: nat, p: Prog, i: nat, b: seq<Block>, cur: nat,
                                      s: State) returns (k: nat)
    requires IsBlock(p) && Holds(lines, i, p) && |b| == max + 1 && cur <= max && !b[cur].ok && s.pending == []
    ensures var c := Run(a, lines, max, At(i, b, cur, s), k);
            if Fits(p, cur, max) then Through(c, p, i, b, cur, s) else c == Died(NestingTooDeep, s)
    decreases p, 2
  {
    OpenStep(a, lines, max, p, i, b, cur, s);
    k := 1;
    if cur < max {
      var k1 := SkipsInside(a, lines, max, p, i, b, cur, s);
      k := 1 + k1;
    }
  }

  /** After the line of a skipped block. */
  lemma {:induction false} SkipsInside(a: Actions, lines: seq<Line>, max: nat, p: Prog, i: nat, b: seq<Block>,
                                       cur: nat, s: State) returns (k: nat)
    requires IsBlock(p) && Holds(lines, i, p) && |b| == max + 1 && cur < max && !b[cur].ok && s.pending == []
    ensures var c := Run(a, lines, max, At(i + 1, Opened(b, cur, i, CmdOf(p), false), cur + 1, s), k);
            if Fits(p, cur, max) then Through(c, p, i, b, cur, s) else c == Died(NestingTooDeep, s)
    decreases p, 1
  {
    var b1 := Opened(b, cur, i, CmdOf(p), false);
    var c1 := At(i + 1, b1, cur + 1, s);
    FitsParts(p, cur, max);
    k := SkipsBody(a, lines, max, p, i, b1, cur + 1, s);
    if Fits(p.body, cur + 1, max) {
      var c2 := Run(a, lines, max, c1, k);
      SameTrans(b, b1, c2.blocks, cur, cur);
      var k2 := SkipsRest(a, lines, max, p, i, b, c2, cur, s);
      RunOn(a, lines, max, c1, k, c2, k2, Run(a, lines, max, c2, k2));
      k := k + k2;
    }
  }

  /** The block is over, `c` is behind its end. */
  ghost predicate BlockDone(c: Config, p: Prog, i: nat, b: seq<Block>, cur: nat, s: State)
    requires IsBlock(p)
  {
    c.At? && c.line == i + 2 + Size(p.body) && c.cur == cur && c.s == s && SameBelow(b, c.blocks, cur)
  }

  lemma {:induction false} SkipsRest(a: Actions, lines: seq<Line>, max: nat, p: Prog, i: nat, b: seq<Block>, c: Config,
                                     cur: nat, s: State) returns (k: nat)
    requires IsBlock(p) && Holds(lines, i, p) && |b| == max + 1 && cur <= max && !b[cur].ok && s.pending == []
    requires BlockDone(c, p, i, b, cur, s) && Fits(p.body, cur + 1, max)
    ensures var c' := Run(a, lines, max, c, k);
            if Fits(p, cur, max) then Through(c', p, i, b, cur, s) else c' == Died(NestingTooDeep, s)
    decreases p, 0
  {
    k := Skips(a, lines, max, p.rest, c.line, c.blocks, cur, s);
    ThroughBlock(b, c.blocks, Run(a, lines, max, c, k), p, i, cur, s);
  }

  lemma ThroughBlock(b: seq<Block>, b': seq<Block>, c: Config, p: Prog, i: nat, cur: nat, s: State)
    requires IsBlock(p) && SameBelow(b, b', cur)
    ensures Through(c, p.rest, i + 2 + Size(p.body), b', cur, s) ==> Through(c, p, i, b, cur, s)
  {
  }

  /** From behind the line of a block whose body is skipped, to the line behind its end. */
  lemma {:induction false} SkipsBody(a: Actions, lines: seq<Line>, max: nat, p: Prog, i: nat, b: seq<Block>, cur: nat,
                                     s: State) returns (k: nat)
    requires IsBlock(p) && Holds(lines, i, p) && |b| == max + 1 && 1 <= cur <= max && !b[cur].ok && s.pending == []
    ensures var c := Run(a, lines, max, At(i + 1, b, cur, s), k);
            if Fits(p.body, cur, max)
            then BlockDone(c, p, i, b, cur - 1, s)
            else c == Died(NestingTooDeep, s)
    decreases p, 0
  {
    k := Skips(a, lines, max, p.body, i + 1, b, cur, s);
    if Fits(p.body, cur, max) {
      var c := Run(a, lines, max, At(i + 1, b, cur, s), k);
      assert Step(a, lines, max, c) == At(i + 2 + Size(p.body), c.blocks, cur - 1, s);
      RunAdd(a, lines, max, At(i + 1, b, cur, s), k, 1);
      k := k + 1;
    }
  }

  // ---------------------------------------------------------------- executed programs

  /** What the machine has come to after `k` steps, compared with the meaning `o` of the program. */
  ghost predicate Matches(o: Option<Outcome>, c: Config, k: nat, p: Prog, i: nat, b: seq<Block>, cur: nat, fuel: nat) {
    match o
    case Some(Running(s)) => Through(c, p, i, b, cur, s)
    case Some(Stopped(s)) => c == Stop(s)
    case Some(TooDeep(s)) => c == Died(NestingTooDeep, s)
    case None => c.At? && k >= fuel
  }

  /** The flat machine runs `p` as the structured semantics says. */
  lemma {:induction false} Simulates(a: Actions, lines: seq<Line>, max: nat, p: Prog, i: nat, b: seq<Block>, cur: nat,
                                     s: State, fuel: nat) returns (k: nat)
    requires Holds(lines, i, p) && |b| == max + 1 && cur <= max && b[cur].ok
    ensures Matches(ExecIn(a, p, s, fuel, max - cur), Run(a, lines, max, At(i, b, cur, s), k), k, p, i, b, cur, fuel)
    decreases fuel, p, 3
  {
    match p
    case Nil =>
      k := 0;
    case Do(c, rest) =>
      var o := Perform(a, c, NoteNow(a, s), s);
      k := 1;
      if o.Go? {
        var k' := Simulates(a, lines, max, rest, i + 1, b, cur, o.s, fuel);
        k := 1 + k';
      }
    case Expect(codes, rest) =>
      var k' := Simulates(a, lines, max, rest, i + 1, b, cur, s.(pending := codes), fuel);
      k := 1 + k';
    case If(e, body, rest) =>
      k := SimulatesBlock(a, lines, max, p, i, b, cur, s, fuel);
    case While(e, body, rest) =>
      k := SimulatesBlock(a, lines, max, p, i, b, cur, s, fuel);
  }

  lemma {:induction false} SimulatesBlock(a: Actions, lines: seq<Line>, max: nat, p: Prog, i: nat, b: seq<Block>,
                                          cur: nat, s: State, fuel: nat) returns (k: nat)
    requires IsBlock(p) && Holds(lines, i, p) && |b| == max + 1 && cur <= max && b[cur].ok
    ensures Matches(ExecIn(a, p, s, fuel, max - cur), Run(a, lines, max, At(i, b, cur, s), k), k, p, i, b, cur, fuel)
    decreases fuel, p, 2
  {
    OpenStep(a, lines, max, p, i, b, cur, s);
    var (o, yes) := Try(a, p.e, s);
    k := 1;
    if cur < max && o.Go? {
      if yes {
        k := SimulatesBody(a, lines, max, p, i, b, Opened(b, cur, i, CmdOf(p), true), cur, s, o.s, fuel);
      } else {
        k := SimulatesSkipped(a, lines, max, p, i, b, cur, s, o.s, fuel);
      }
    }
  }

  lemma ExecSkipped(a: Actions, p: Prog, s: State, s1: State, fuel: nat, room: nat)
    requires IsBlock(p) && room > 0 && Try(a, p.e, s) == (Go(s1), false)
    ensures ExecIn(a, p, s, fuel, room) ==
            if Depth(p.body) < room then ExecIn(a, p.rest, s1, fuel, room) else Some(TooDeep(s1))
  {
  }

  /** The test of a block was false. */
  lemma {:induction false} SimulatesSkipped(a: Actions, lines: seq<Line>, max: nat, p: Prog, i: nat, b: seq<Block>,
                                            cur: nat, s: State, s1: State, fuel: nat) returns (k: nat)
    requires IsBlock(p) && Holds(lines, i, p) && |b| == max + 1 && cur < max && b[cur].ok
    requires Try(a, p.e, s) == (Go(s1), false)
    ensures Matches(ExecIn(a, p, s, fuel, max - cur), Run(a, lines, max, At(i, b, cur, s), k), k, p, i, b, cur, fuel)
    decreases fuel, p, 1
  {
    var c0 := At(i, b, cur, s);
    OpenStep(a, lines, max, p, i, b, cur, s);
    var c1 := Step(a, lines, max, c0);
    ExecSkipped(a, p, s, s1, fuel, max - cur);
    var k1 := SkipsBody(a, lines, max, p, i, c1.blocks, cur + 1, s1);
    var c2 := Run(a, lines, max, c1, k1);
    RunOn(a, lines, max, c0, 1, c1, k1, c2);
    k := 1 + k1;
    if Fits(p.body, cur + 1, max) {
      SameTrans(b, c1.blocks, c2.blocks, cur, cur);
      var k2 := SimulatesRest(a, lines, max, p, i, b, c2, cur, s1, fuel);
      RunOn(a, lines, max, c0, k, c2, k2, Run(a, lines, max, c2, k2));
      k := k + k2;
    }
  }

  lemma {:induction false} SimulatesRest(a: Actions, lines: seq<Line>, max: nat, p: Prog, i: nat, b: seq<Block>,
                                         c: Config, cur: nat, s: State, fuel: nat) returns (k: nat)
    requires IsBlock(p) && Holds(lines, i, p) && |b| == max + 1 && cur <= max && b[cur].ok
    requires BlockDone(c, p, i, b, cur, s)
    ensures Matches(ExecIn(a, p.rest, s, fuel, max - cur), Run(a, lines, max, c, k), k, p, i, b, cur, fuel)
    decreases fuel, p.rest, 4
  {
    k := Simulates(a, lines, max, p.rest, c.line, c.blocks, cur, s, fuel);
    var c' := Run(a, lines, max, c, k);
    ThroughBlock(b, c.blocks, c', p, i, cur, c'.s);
  }

  /** What is left to be run when the body of `p` is through. */
  function Next(a: Actions, p: Prog, s: State, fuel: nat, room: nat): Option<Outcome>
    requires IsBlock(p) && (p.While? ==> fuel > 0)
  {
    if p.While? then ExecIn(a, p, Cleared(s), fuel - 1, room) else ExecIn(a, p.rest, Cleared(s), fuel, room)
  }

  lemma ExecEntered(a: Actions, p: Prog, s: State, s1: State, fuel: nat, room: nat)
    requires IsBlock(p) && room > 0 && Try(a, p.e, s) == (Go(s1), true) && (p.While? ==> fuel > 0)
    ensures var o := ExecIn(a, p.body, s1, fuel, room - 1);
            ExecIn(a, p, s, fuel, room) ==
            if o.Some? && o.value.Running? then Next(a, p, o.value.s, fuel, room) else o
  {
  }

  /** The test of a block was true: its body is run, then the rest, or a loop again. */
  lemma {:induction false} SimulatesBody(a: Actions, lines: seq<Line>, max: nat, p: Prog, i: nat, b: seq<Block>,
                                         b1: seq<Block>, cur: nat, s: State, s1: State, fuel: nat) returns (k: nat)
    requires IsBlock(p) && Holds(lines, i, p) && |b| == max + 1 && cur < max && b[cur].ok
    requires Try(a, p.e, s) == (Go(s1), true) && b1 == Opened(b, cur, i, CmdOf(p), true)
    requires Step(a, lines, max, At(i, b, cur, s)) == At(i + 1, b1, cur + 1, s1)
    ensures Matches(ExecIn(a, p, s, fuel, max - cur), Run(a, lines, max, At(i, b, cur, s), k), k, p, i, b, cur, fuel)
    decreases fuel, p, 1
  {
    if p.While? && fuel == 0 {
      k := 0;
      return;
    }
    ExecEntered(a, p, s, s1, fuel, max - cur);
    var k1 := Simulates(a, lines, max, p.body, i + 1, b1, cur + 1, s1, fuel);
    var o := ExecIn(a, p.body, s1, fuel, max - cur - 1);
    k := SimulatesThen(a, lines, max, p, i, b, b1, At(i + 1, b1, cur + 1, s1), cur, k1, o, fuel);
    RunOn(a, lines, max, At(i, b, cur, s), 1, At(i + 1, b1, cur + 1, s1), k,
          Run(a, lines, max, At(i + 1, b1, cur + 1, s1), k));
    k := 1 + k;
  }

  /** The body came to `o` in `k1` steps from `c0`; then the rest, or the loop again. */
  lemma {:induction false} SimulatesThen(a: Actions, lines: seq<Line>, max: nat, p: Prog, i: nat, b: seq<Block>,
                                         b1: seq<Block>, c0: Config, cur: nat, k1: nat, o: Option<Outcome>, fuel: nat)
    returns (k: nat)
    requires IsBlock(p) && Holds(lines, i, p) && |b| == max + 1 && cur < max && b[cur].ok && (p.While? ==> fuel > 0)
    requires b1 == Opened(b, cur, i, CmdOf(p), true) && Sane(c0, max)
    requires Matches(o, Run(a, lines, max, c0, k1), k1, p.body, i + 1, b1, cur + 1, fuel)
    ensures Matches(if o.Some? && o.value.Running? then Next(a, p, o.value.s, fuel, max - cur) else o,
                    Run(a, lines, max, c0, k), k + 1, p, i, b, cur, fuel)
    decreases fuel, p, 0, 1
  {
    k := k1;
    if o.Some? && o.value.Running? {
      var c1 := Run(a, lines, max, c0, k1);
      SameTrans(b, b1, c1.blocks, cur, cur + 1);
      var k2 := SimulatesOn(a, lines, max, p, i, b, b1, c1, cur, o.value.s, fuel);
      RunOn(a, lines, max, c0, k1, c1, k2, Run(a, lines, max, c1, k2));
      k := k1 + k2;
    }
  }

  /** From the end line of a body that was run. */
  lemma {:induction false} SimulatesOn(a: Actions, lines: seq<Line>, max: nat, p: Prog, i: nat, b: seq<Block>,
                                       b1: seq<Block>, c: Config, cur: nat, s: State, fuel: nat) returns (k: nat)
    requires IsBlock(p) && Holds(lines, i, p) && |b| == max + 1 && cur < max && b[cur].ok
    requires b1 == Opened(b, cur, i, CmdOf(p), true) && Through(c, p.body, i + 1, b1, cur + 1, s)
    requires SameBelow(b, c.blocks, cur) && c.blocks[cur].line == i && (p.While? ==> fuel > 0)
    ensures Matches(Next(a, p, s, fuel, max - cur), Run(a, lines, max, c, k), k + 1, p, i, b, cur, fuel)
    decreases fuel, p, 0, 0
  {
    var c' := Step(a, lines, max, c);
    assert c' == At(if p.While? then i else i + 2 + Size(p.body), c.blocks, cur, Cleared(s));
    var k';
    if p.While? {
      k' := SimulatesAgain(a, lines, max, p, i, b, c', cur, Cleared(s), fuel - 1);
    } else {
      k' := SimulatesRest(a, lines, max, p, i, b, c', cur, Cleared(s), fuel);
    }
    k := 1 + k';
    RunFirst(a, lines, max, c, k');
    MatchesMore(Next(a, p, s, fuel, max - cur), Run(a, lines, max, c', k'), k', k + 1, p, i, b, cur,
                if p.While? then fuel - 1 else fuel, fuel);
  }

  lemma RunFirst(a: Actions, lines: seq<Line>, max: nat, c: Config, k: nat)
    requires Sane(c, max)
    ensures Run(a, lines, max, c, 1 + k) == Run(a, lines, max, Step(a, lines, max, c), k)
  {
  }

  lemma MatchesMore(o: Option<Outcome>, c: Config, k: nat, k': nat, p: Prog, i: nat, b: seq<Block>, cur: nat, fuel: nat,
                    fuel': nat)
    requires k + fuel' <= k' + fuel
    ensures Matches(o, c, k, p, i, b, cur, fuel) ==> Matches(o, c, k', p, i, b, cur, fuel')
  {
  }

  lemma {:induction false} SimulatesAgain(a: Actions, lines: seq<Line>, max: nat, p: Prog, i: nat, b: seq<Block>,
                                          c: Config, cur: nat, s: State, fuel: nat) returns (k: nat)
    requires IsBlock(p) && Holds(lines, i, p) && |b| == max + 1 && cur <= max && b[cur].ok
    requires c.At? && c == At(i, c.blocks, cur, s) && SameBelow(b, c.blocks, cur)
    ensures Matches(ExecIn(a, p, s, fuel, max - cur), Run(a, lines, max, c, k), k, p, i, b, cur, fuel)
    decreases fuel, p, 4
  {
    k := Simulates(a, lines, max, p, i, c.blocks, cur, s, fuel);
  }

  // ---------------------------------------------------------------- whole runs

  /** The program comes to an end with `o`. */
  ghost predicate Means(a: Actions, p: Prog, s: State, o: Outcome) {
    exists fuel :: Exec(a, p, s, fuel) == Some(o)
  }

  /** ... with room for `room` open blocks. */
  ghost predicate MeansIn(a: Actions, p: Prog, s: State, room: nat, o: Outcome) {
    exists fuel :: ExecIn(a, p, s, fuel, room) == Some(o)
  }

  /** The stack as main sets it up: the outermost block is executed. */
  function Start(max: nat, s: State): (c: Config)
    ensures Sane(c, max)
  {
    At(0, seq(max + 1, j => Block(0, j == 0, CmdNone)), 0, s)
  }

  ghost predicate Reaches(a: Actions, lines: seq<Line>, max: nat, s: State, c: Config) {
    exists k :: Run(a, lines, max, Start(max, s), k) == c
  }

  function Final(o: Outcome): Config {
    match o
    case Running(s) => Ended(s)
    case Stopped(s) => Stop(s)
    case TooDeep(s) => Died(NestingTooDeep, s)
  }

  /** A run from the start ends like the program, or is still going after `fuel` steps. */
  lemma WholeRun(a: Actions, p: Prog, max: nat, s: State, fuel: nat) returns (k: nat, c: Config)
    ensures c == Run(a, Flatten(p), max, Start(max, s), k)
    ensures var o := ExecIn(a, p, s, fuel, max);
            if o.Some? then c == Final(o.value) else c.At? && k >= fuel
  {
    HoldsLast(Flatten(p), [], p);
    k, c := WholeRunOf(a, Flatten(p), p, max, s, fuel);
  }

  lemma WholeRunOf(a: Actions, lines: seq<Line>, p: Prog, max: nat, s: State, fuel: nat) returns (k: nat, c: Config)
    requires Holds(lines, 0, p) && |lines| == Size(p)
    ensures c == Run(a, lines, max, Start(max, s), k)
    ensures var o := ExecIn(a, p, s, fuel, max);
            if o.Some? then c == Final(o.value) else c.At? && k >= fuel
  {
    var c0 := Start(max, s);
    k := Simulates(a, lines, max, p, 0, c0.blocks, 0, s, fuel);
    k, c := ThenEnds(a, lines, max, p, c0, k, ExecIn(a, p, s, fuel, max), fuel);
  }

  /** The program came to `o` in `k0` steps from `c0`; then the script ends. */
  lemma ThenEnds(a: Actions, lines: seq<Line>, max: nat, p: Prog, c0: Config, k0: nat, o: Option<Outcome>, fuel: nat)
    returns (k: nat, c: Config)
    requires c0.At? && Sane(c0, max) && |lines| == Size(p)
    requires Matches(o, Run(a, lines, max, c0, k0), k0, p, 0, c0.blocks, 0, fuel)
    ensures c == Run(a, lines, max, c0, k) && if o.Some? then c == Final(o.value) else c.At? && k >= fuel
  {
    k, c := k0, Run(a, lines, max, c0, k0);
    if o.Some? && o.value.Running? {
      LastStep(a, lines, max, c0, k, c, o.value.s);
      k, c := k + 1, Ended(o.value.s);
    }
  }

  lemma LastStep(a: Actions, lines: seq<Line>, max: nat, c0: Config, k: nat, c: Config, s: State)
    requires Sane(c0, max) && Run(a, lines, max, c0, k) == c && c.At? && c.line == |lines| && c.cur == 0 && c.s == s
    ensures Run(a, lines, max, c0, k + 1) == Ended(s)
  {
    RunOn(a, lines, max, c0, k, c, 1, Ended(s));
  }

  /** A run has one end. */
  lemma OneEnd(a: Actions, lines: seq<Line>, max: nat, c0: Config, k: nat, k': nat)
    requires Sane(c0, max) && !Run(a, lines, max, c0, k).At?
    ensures var c := Run(a, lines, max, c0, k);
            var c' := Run(a, lines, max, c0, k');
            (c'.At? ==> k' < k) && (!c'.At? ==> c' == c)
  {
    var c := Run(a, lines, max, c0, k);
    var c' := Run(a, lines, max, c0, k');
    if k <= k' {
      RunAdd(a, lines, max, c0, k, k' - k);
      Absorbs(a, lines, max, c, k' - k);
    } else {
      RunAdd(a, lines, max, c0, k', k - k');
      if !c'.At? {
        Absorbs(a, lines, max, c', k - k');
      }
    }
  }

  /** Where a run of a script ends, the program ends. */
  lemma EndIsMeant(a: Actions, p: Prog, max: nat, s: State, c: Config) returns (o: Outcome)
    requires !c.At? && Reaches(a, Flatten(p), max, s, c)
    ensures c == Final(o) && MeansIn(a, p, s, max, o)
  {
    var k :| Run(a, Flatten(p), max, Start(max, s), k) == c;
    var k', c' := WholeRun(a, p, max, s, k);
    OneEnd(a, Flatten(p), max, Start(max, s), k, k');
    o := ExecIn(a, p, s, k, max).value;
  }

  /**
   The flat machine comes to the same end as the nested program with room for as many open blocks as the
   stack has entries: same commands, same order, same final state, or death at the same block in the same
   state; and it runs forever if the program does.
   */
  lemma FlatIsStructured(a: Actions, p: Prog, max: nat, s: State, o: Outcome)
    ensures MeansIn(a, p, s, max, o) <==> Reaches(a, Flatten(p), max, s, Final(o))
  {
    if MeansIn(a, p, s, max, o) {
      var fuel :| ExecIn(a, p, s, fuel, max) == Some(o);
      var k, c := WholeRun(a, p, max, s, fuel);
    }
    if Reaches(a, Flatten(p), max, s, Final(o)) {
      var o' := EndIsMeant(a, p, max, s, Final(o));
    }
  }

  // ---------------------------------------------------------------- the depth of the stack

  /** With room for all its blocks, run or skipped, a program means what it means without a limit ... */
  lemma {:induction false} RoomSuffices(a: Actions, p: Prog, s: State, fuel: nat, room: nat)
    requires Depth(p) <= room
    ensures ExecIn(a, p, s, fuel, room) == Exec(a, p, s, fuel)
    decreases fuel, p
  {
    if p.Do? {
      RoomSuffices(a, p.rest, Perform(a, p.c, NoteNow(a, s), s).s, fuel, room);
    } else if p.Expect? {
      RoomSuffices(a, p.rest, s.(pending := p.codes), fuel, room);
    } else if IsBlock(p) {
      var (o, yes) := Try(a, p.e, s);
      if !yes {
        RoomSuffices(a, p.rest, o.s, fuel, room);
      } else if p.If? || fuel > 0 {
        RoomSuffices(a, p.body, o.s, fuel, room - 1);
        var o1 := Exec(a, p.body, o.s, fuel);
        if o1.Some? && p.While? {
          RoomSuffices(a, p, Cleared(o1.value.s), fuel - 1, room);
        } else if o1.Some? {
          RoomSuffices(a, p.rest, Cleared(o1.value.s), fuel, room);
        }
      }
    }
  }

  /** ... and without that room it never comes to its end: where it did without a limit, it is too deep. */
  lemma {:induction false} RoomNeeded(a: Actions, p: Prog, s: State, fuel: nat, room: nat)
    requires Depth(p) > room
    ensures var o := ExecIn(a, p, s, fuel, room);
            var o' := Exec(a, p, s, fuel);
            && (o.Some? ==> !o.value.Running?)
            && (o'.Some? && o'.value.Running? ==> o.Some? && o.value.TooDeep?)
    decreases fuel, p, 1
  {
    if p.Do? {
      RoomNeeded(a, p.rest, Perform(a, p.c, NoteNow(a, s), s).s, fuel, room);
    } else if p.Expect? {
      RoomNeeded(a, p.rest, s.(pending := p.codes), fuel, room);
    } else if IsBlock(p) && room > 0 {
      var (o, yes) := Try(a, p.e, s);
      if !yes && Depth(p.body) < room {
        RoomNeeded(a, p.rest, o.s, fuel, room);
      } else if yes && (p.If? || fuel > 0) {
        RoomNeededInside(a, p, o.s, fuel, room);
      }
    }
  }

  /** The same for a block whose test was true. */
  lemma {:induction false} RoomNeededInside(a: Actions, p: Prog, s: State, fuel: nat, room: nat)
    requires IsBlock(p) && Depth(p) > room > 0 && (p.While? ==> fuel > 0)
    ensures var o := Then(ExecIn(a, p.body, s, fuel, room - 1), s' => Next(a, p, s', fuel, room));
            var o1 := Exec(a, p.body, s, fuel);
            var o' := if o1.Some? && o1.value.Running? then
                        if p.While? then Exec(a, p, Cleared(o1.value.s), fuel - 1)
                        else Exec(a, p.rest, Cleared(o1.value.s), fuel)
                      else o1;
            && (o.Some? ==> !o.value.Running?)
            && (o'.Some? && o'.value.Running? ==> o.Some? && o.value.TooDeep?)
    decreases fuel, p, 0
  {
    if Depth(p.body) > room - 1 {
      RoomNeeded(a, p.body, s, fuel, room - 1);
    } else {
      RoomSuffices(a, p.body, s, fuel, room - 1);
      var o1 := Exec(a, p.body, s, fuel);
      if o1.Some? && o1.value.Running? {
        if p.While? {
          RoomNeeded(a, p, Cleared(o1.value.s), fuel - 1, room);
        } else {
          RoomNeeded(a, p.rest, Cleared(o1.value.s), fuel, room);
        }
      }
    }
  }

  /** On a script whose blocks fit on the stack, the flat machine ends as the nested program without any limit. */
  lemma FlatIsStructuredWhenShallow(a: Actions, p: Prog, max: nat, s: State, o: Outcome)
    requires Depth(p) <= max
    ensures Means(a, p, s, o) <==> Reaches(a, Flatten(p), max, s, Final(o))
  {
    FlatIsStructured(a, p, max, s, o);
    if Means(a, p, s, o) {
      var fuel :| Exec(a, p, s, fuel) == Some(o);
      RoomSuffices(a, p, s, fuel, max);
    }
    if MeansIn(a, p, s, max, o) {
      var fuel :| ExecIn(a, p, s, fuel, max) == Some(o);
      RoomSuffices(a, p, s, fuel, max);
    }
  }

  /** Without a limit no program is too deep. */
  lemma {:induction false} NoLimit(a: Actions, p: Prog, s: State, fuel: nat)
    ensures var o := Exec(a, p, s, fuel);
            o.Some? ==> !o.value.TooDeep?
    decreases fuel, p
  {
    if p.Do? {
      NoLimit(a, p.rest, Perform(a, p.c, NoteNow(a, s), s).s, fuel);
    } else if p.Expect? {
      NoLimit(a, p.rest, s.(pending := p.codes), fuel);
    } else if IsBlock(p) {
      var (o, yes) := Try(a, p.e, s);
      if !yes {
        NoLimit(a, p.rest, o.s, fuel);
      } else if p.If? || fuel > 0 {
        NoLimit(a, p.body, o.s, fuel);
        var o1 := Exec(a, p.body, o.s, fuel);
        if o1.Some? && p.While? {
          NoLimit(a, p, Cleared(o1.value.s), fuel - 1);
        } else if o1.Some? {
          NoLimit(a, p.rest, Cleared(o1.value.s), fuel);
        }
      }
    }
  }

  /** ... and it never dies. */
  lemma NeverDies(a: Actions, p: Prog, max: nat, s: State, why: Death, s': State)
    requires Depth(p) <= max
    ensures !Reaches(a, Flatten(p), max, s, Died(why, s'))
  {
    if Reaches(a, Flatten(p), max, s, Died(why, s')) {
      var o := EndIsMeant(a, p, max, s, Died(why, s'));
      var fuel :| ExecIn(a, p, s, fuel, max) == Some(o);
      RoomSuffices(a, p, s, fuel, max);
      NoLimit(a, p, s, fuel);
      assert false;
    }
  }

  /** A script is run to its end exactly when its blocks fit on the stack and the program comes to its end. */
  lemma RunsToEnd(a: Actions, p: Prog, max: nat, s: State, s': State)
    ensures Reaches(a, Flatten(p), max, s, Ended(s')) <==> Depth(p) <= max && Means(a, p, s, Running(s'))
  {
    if Depth(p) <= max {
      FlatIsStructuredWhenShallow(a, p, max, s, Running(s'));
    } else if Reaches(a, Flatten(p), max, s, Ended(s')) {
      var o := EndIsMeant(a, p, max, s, Ended(s'));
      var fuel :| ExecIn(a, p, s, fuel, max) == Some(o);
      RoomNeeded(a, p, s, fuel, max);
      assert false;
    }
  }

  /** Some run dies of nesting. */
  ghost predicate Dies(a: Actions, lines: seq<Line>, max: nat, s: State) {
    exists s' :: Reaches(a, lines, max, s, Died(NestingTooDeep, s'))
  }

  /** The script of a program that comes to its end dies exactly when a block, run or skipped, is nested too deeply. */
  lemma DiesTooDeep(a: Actions, p: Prog, max: nat, s: State, s': State)
    requires Means(a, p, s, Running(s'))
    ensures Dies(a, Flatten(p), max, s) <==> Depth(p) > max
  {
    if Depth(p) > max {
      var fuel :| Exec(a, p, s, fuel) == Some(Running(s'));
      RoomNeeded(a, p, s, fuel, max);
      var o := ExecIn(a, p, s, fuel, max).value;
      assert MeansIn(a, p, s, max, o);
      FlatIsStructured(a, p, max, s, o);
      assert Reaches(a, Flatten(p), max, s, Died(NestingTooDeep, o.s));
    } else if Dies(a, Flatten(p), max, s) {
      var s1 :| Reaches(a, Flatten(p), max, s, Died(NestingTooDeep, s1));
      NeverDies(a, p, max, s, NestingTooDeep, s1);
      assert false;
    }
  }

  /** `n` blocks, one inside the other. */
  function Nested(e: Test, n: nat): Prog {
    if n == 0 then Nil else If(e, Nested(e, n - 1), Nil)
  }

  lemma {:induction false} NestedDepth(e: Test, n: nat)
    ensures Depth(Nested(e, n)) == n
  {
    if n > 0 {
      NestedDepth(e, n - 1);
    }
  }

  /** Even if the first of them is skipped, the stack has to be high enough for all. */
  lemma NestedDies(a: Actions, e: Test, n: nat, max: nat, s: State, s1: State)
    requires 0 < max && 0 < n && Try(a, e, s) == (Go(s1), false)
    ensures if n <= max then Reaches(a, Flatten(Nested(e, n)), max, s, Ended(s1))
            else Reaches(a, Flatten(Nested(e, n)), max, s, Died(NestingTooDeep, s1))
  {
    var p := Nested(e, n);
    NestedDepth(e, n - 1);
    assert ExecIn(a, p, s, 0, max) == Some(if n <= max then Running(s1) else TooDeep(s1));
    FlatIsStructured(a, p, max, s, Running(s1));
    FlatIsStructured(a, p, max, s, TooDeep(s1));
  }

  // ---------------------------------------------------------------- end lines too many and too few

  /** An end line without a block. */
  lemma StrayEndDies(a: Actions, p: Prog, after: seq<Line>, max: nat, s: State, s': State)
    requires MeansIn(a, p, s, max, Running(s'))
    ensures Reaches(a, Flatten(p) + [EndLine] + after, max, s, Died(StrayEnd, s'))
  {
    var lines := Flatten(p) + [EndLine] + after;
    HoldsFirst(lines, p, EndLine, after);
    var k, b := RunsThrough(a, lines, max, p, s, s');
    var c := At(Size(p), b, 0, s');
    assert Step(a, lines, max, c) == Died(StrayEnd, s');
    RunOn(a, lines, max, Start(max, s), k, c, 1, Died(StrayEnd, s'));
  }

  /** The script ends inside a block, run or skipped. */
  lemma MissingEndDies(a: Actions, p: Prog, open: Line, q: Prog, max: nat, s: State, s1: State, s2: State, yes: bool,
                       s3: State)
    requires 0 < max && MeansIn(a, p, s, max, Running(s1))
    requires (open.IfLine? || open.WhileLine?) && Try(a, open.e, s1) == (Go(s2), yes)
    requires if yes then MeansIn(a, q, s2, max - 1, Running(s3)) else Depth(q) < max && s3 == s2
    ensures Reaches(a, Flatten(p) + [open] + Flatten(q), max, s, Died(MissingEnd, s3))
  {
    var lines := Flatten(p) + [open] + Flatten(q);
    HoldsFirst(lines, p, open, Flatten(q));
    HoldsBehind(lines, Flatten(p), open, q, Size(p));
    var k, b := Opens(a, lines, max, p, open, s, s1, s2, yes);
    var k2 := OpenEnds(a, lines, max, q, Size(p) + 1, b, s2, s3);
    RunOn(a, lines, max, Start(max, s), k, At(Size(p) + 1, b, 1, s2), k2, Died(MissingEnd, s3));
  }

  lemma HoldsBehind(lines: seq<Line>, before: seq<Line>, open: Line, q: Prog, n: nat)
    requires lines == before + [open] + Flatten(q) && |before| == n
    ensures Holds(lines, n + 1, q) && n + 1 + Size(q) == |lines|
  {
    HoldsLast(lines, before + [open], q);
  }

  /** The machine runs `p` and then opens the block on the line behind it. */
  lemma Opens(a: Actions, lines: seq<Line>, max: nat, p: Prog, open: Line, s: State, s1: State, s2: State, yes: bool)
    returns (k: nat, b: seq<Block>)
    requires Holds(lines, 0, p) && Size(p) < |lines| && lines[Size(p)] == open
    requires 1 <= max && MeansIn(a, p, s, max, Running(s1))
    requires (open.IfLine? || open.WhileLine?) && Try(a, open.e, s1) == (Go(s2), yes)
    ensures |b| == max + 1 && b[1].ok == yes
    ensures Run(a, lines, max, Start(max, s), k) == At(Size(p) + 1, b, 1, s2)
  {
    k, b := RunsThrough(a, lines, max, p, s, s1);
    var c := At(Size(p), b, 0, s1);
    b := Opened(b, 0, Size(p), if open.IfLine? then CmdIf else CmdWhile, yes);
    assert Step(a, lines, max, c) == At(Size(p) + 1, b, 1, s2);
    RunOn(a, lines, max, Start(max, s), k, c, 1, At(Size(p) + 1, b, 1, s2));
    k := k + 1;
  }

  /** From the start to behind `p`. */
  lemma RunsThrough(a: Actions, lines: seq<Line>, max: nat, p: Prog, s: State, s1: State)
    returns (k: nat, b: seq<Block>)
    requires Holds(lines, 0, p) && MeansIn(a, p, s, max, Running(s1))
    ensures |b| == max + 1 && b[0].ok && Run(a, lines, max, Start(max, s), k) == At(Size(p), b, 0, s1)
  {
    var c0 := Start(max, s);
    var fuel :| ExecIn(a, p, s, fuel, max) == Some(Running(s1));
    k := Simulates(a, lines, max, p, 0, c0.blocks, 0, s, fuel);
    b := Run(a, lines, max, c0, k).blocks;
  }

  lemma OpenEnds(a: Actions, lines: seq<Line>, max: nat, q: Prog, i: nat, b: seq<Block>, s: State, s': State)
    returns (k: nat)
    requires Holds(lines, i, q) && i + Size(q) == |lines| && |b| == max + 1 && 0 < max
    requires s.pending == []
    requires if b[1].ok then MeansIn(a, q, s, max - 1, Running(s')) else Depth(q) < max && s' == s
    ensures Run(a, lines, max, At(i, b, 1, s), k) == Died(MissingEnd, s')
  {
    if b[1].ok {
      var fuel :| ExecIn(a, q, s, fuel, max - 1) == Some(Running(s'));
      k := Simulates(a, lines, max, q, i, b, 1, s, fuel);
    } else {
      k := Skips(a, lines, max, q, i, b, 1, s);
    }
    RunOn(a, lines, max, At(i, b, 1, s), k, Run(a, lines, max, At(i, b, 1, s), k), 1, Died(MissingEnd, s'));
    k := k + 1;
  }
}
