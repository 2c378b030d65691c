/**
 Scripts on which the line cache makes no difference, told from their text: no command behind an `error` line
 stands in a block inside a loop, other than the loop itself.  Then a line that was first read while it was skipped
 and whose note is wrong for that reason is never come back to.
 */
module SteadyScripts {
  import opened Blocks
  import opened LineCache

  // ---------------------------------------------------------------- the text

  /** The blocks around line `j`, outermost first. */
  ghost function Around(lines: seq<Line>, j: nat): seq<BlockCmd>
    requires j <= |lines|
  {
    if j == 0 then [] else Enter(Around(lines, j - 1), lines[j - 1])
  }

  /** The blocks open behind a line. */
  ghost function Enter(around: seq<BlockCmd>, line: Line): seq<BlockCmd> {
    match line
    case IfLine(_) => around + [CmdIf]
    case WhileLine(_) => around + [CmdWhile]
    case EndLine => if around == [] then [] else around[..|around| - 1]
    case Command(_) => around
    case ErrorLine(_) => around
  }

  /** The errors that line `j` is to expect, as the line before it says. */
  ghost function ErrorsFor(lines: seq<Line>, j: nat): seq<Code>
    requires j <= |lines|
  {
    if j > 0 && lines[j - 1].ErrorLine? then lines[j - 1].codes else []
  }

  /** Only the innermost block, if any, is a loop. */
  ghost predicate InnermostLoop(around: seq<BlockCmd>) {
    forall x | 0 <= x < |around| - 1 :: around[x] != CmdWhile
  }

  ghost predicate Steady(lines: seq<Line>) {
    forall j | 0 <= j < |lines| && ErrorsFor(lines, j) != [] :: InnermostLoop(Around(lines, j))
  }

  /** Nothing changes the setting abort_on_error. */
  ghost predicate KeepsSetting(a: Actions) {
    && (forall c, note, w :: a.aborts(a.exec(c, note, w).world) == a.aborts(w))
    && (forall e, w :: a.aborts(a.test(e, w).0.world) == a.aborts(w))
  }

  // ---------------------------------------------------------------- the invariant

  /** The note of line `j` is the one for its place in the text. */
  ghost predicate RightNote(lines: seq<Line>, notes: seq<Note>, abort: bool, j: nat) {
    j < |notes| && j < |lines| &&
    (lines[j].Command? ==>
       notes[j] == Note(ErrorsFor(lines, j), |ErrorsFor(lines, j)| == 0 && abort))
  }

  ghost predicate RightFrom(lines: seq<Line>, notes: seq<Note>, abort: bool, from: nat) {
    forall j {:trigger RightNote(lines, notes, abort, j)} | from <= j < |notes| :: RightNote(lines, notes, abort, j)
  }

  ghost function Cmds(blocks: seq<Block>, cur: nat): (r: seq<BlockCmd>)
    requires cur < |blocks|
    ensures |r| == cur && forall x | 0 <= x < cur :: r[x] == blocks[x + 1].cmd
  {
    seq(cur, x requires 0 <= x < cur => blocks[x + 1].cmd)
  }

  /** Entry `k` of the stack remembers the line that opened the block above it. */
  ghost predicate Remembers(lines: seq<Line>, notes: seq<Note>, blocks: seq<Block>, k: nat) {
    && k < |blocks| && blocks[k].line < |lines| && blocks[k].line < |notes|
    && (lines[blocks[k].line].IfLine? || lines[blocks[k].line].WhileLine?)
    && Around(lines, blocks[k].line) == Cmds(blocks, k)
  }

  /** The stack agrees with the text around the line. */
  ghost predicate InText(lines: seq<Line>, notes: seq<Note>, line: nat, blocks: seq<Block>, cur: nat) {
    && line <= |lines| && cur < |blocks| && Around(lines, line) == Cmds(blocks, cur) && blocks[0].ok
    && (forall k | 0 <= k < cur :: Remembers(lines, notes, blocks, k))
    && forall k | 0 <= k < cur :: blocks[k + 1].ok ==> blocks[k].ok
  }

  /** Block `k` is a loop that may be gone round again. */
  ghost predicate Loops(blocks: seq<Block>, k: nat) {
    1 <= k < |blocks| && blocks[k].ok && blocks[k].cmd == CmdWhile
  }

  /** Everything read from the line of such a loop on has the right note. */
  ghost predicate LoopsRight(lines: seq<Line>, notes: seq<Note>, abort: bool, blocks: seq<Block>, cur: nat) {
    forall k {:trigger Loops(blocks, k)} | 1 <= k <= cur && Loops(blocks, k) ::
      RightFrom(lines, notes, abort, blocks[k - 1].line)
  }

  /** What is expected now: nothing where lines are skipped, and before a command what the text says. */
  ghost predicate Expects(lines: seq<Line>, line: nat, ok: bool, s: State)
    requires line <= |lines|
  {
    && (!ok ==> s.pending == [])
    && (ok && line < |lines| && lines[line].Command? ==> s.pending == ErrorsFor(lines, line))
  }

  ghost predicate Inv(a: Actions, lines: seq<Line>, max: nat, abort: bool, m: Cached) {
    Sane(m.c, max) &&
    (m.c.At? ==>
       && m.c.line <= |m.notes| <= |lines| && InText(lines, m.notes, m.c.line, m.c.blocks, m.c.cur)
       && RightFrom(lines, m.notes, abort, m.c.line) && LoopsRight(lines, m.notes, abort, m.c.blocks, m.c.cur)
       && Expects(lines, m.c.line, m.c.blocks[m.c.cur].ok, m.c.s) && a.aborts(m.c.s.world) == abort)
  }

  // ---------------------------------------------------------------- reading a line

  /** A new note, right or not, leaves the notes before it as they are. */
  lemma RightMore(lines: seq<Line>, notes: seq<Note>, abort: bool, from: nat, note: Note)
    requires RightFrom(lines, notes, abort, from) && |notes| < |lines|
    requires RightNote(lines, notes + [note], abort, |notes|)
    ensures RightFrom(lines, notes + [note], abort, from)
  {
    forall j | from <= j < |notes| + 1
      ensures RightNote(lines, notes + [note], abort, j)
    {
      if j < |notes| {
        assert RightNote(lines, notes, abort, j);
      }
    }
  }

  /** Where a line is skipped that has an `error` line before it, no loop around it is gone round again. */
  lemma NoLoopAround(lines: seq<Line>, notes: seq<Note>, line: nat, blocks: seq<Block>, cur: nat, k: nat)
    requires Steady(lines) && InText(lines, notes, line, blocks, cur) && line < |lines| && !blocks[cur].ok
    requires ErrorsFor(lines, line) != [] && 1 <= k <= cur
    ensures !Loops(blocks, k)
  {
    if k < cur {
      assert InnermostLoop(Around(lines, line));
      assert Around(lines, line)[k - 1] == blocks[k].cmd;
    }
  }

  /** read_query keeps the invariant; in a line that is executed the note is right. */
  lemma ReadKeeps(a: Actions, lines: seq<Line>, max: nat, abort: bool, m: Cached)
    requires Steady(lines) && Inv(a, lines, max, abort, m) && m.c.At? && m.c.line < |lines|
    ensures var notes := Noted(a, m);
            && m.c.line < |notes| <= |lines| && InText(lines, notes, m.c.line, m.c.blocks, m.c.cur)
            && RightFrom(lines, notes, abort, m.c.line + 1) && LoopsRight(lines, notes, abort, m.c.blocks, m.c.cur)
            && (m.c.blocks[m.c.cur].ok || !lines[m.c.line].Command? ==> RightNote(lines, notes, abort, m.c.line))
  {
    var c, notes := m.c, Noted(a, m);
    if c.line < |m.notes| {
      assert RightNote(lines, m.notes, abort, c.line);
      assert forall j {:trigger RightNote(lines, notes, abort, j)} | c.line + 1 <= j < |notes| ::
          RightNote(lines, notes, abort, j);
    } else {
      TextKept(lines, m.notes, notes, c.line, c.blocks, c.cur);
      NewNote(a, lines, max, abort, m);
    }
  }

  lemma TextKept(lines: seq<Line>, notes: seq<Note>, notes': seq<Note>, line: nat, blocks: seq<Block>, cur: nat)
    requires InText(lines, notes, line, blocks, cur) && |notes| <= |notes'|
    ensures InText(lines, notes', line, blocks, cur)
  {
    forall k | 0 <= k < cur
      ensures Remembers(lines, notes', blocks, k)
    {
      assert Remembers(lines, notes, blocks, k);
    }
  }

  lemma NewNote(a: Actions, lines: seq<Line>, max: nat, abort: bool, m: Cached)
    requires Steady(lines) && Inv(a, lines, max, abort, m) && m.c.At? && m.c.line == |m.notes| < |lines|
    ensures var notes := m.notes + [NoteNow(a, m.c.s)];
            && LoopsRight(lines, notes, abort, m.c.blocks, m.c.cur)
            && (m.c.blocks[m.c.cur].ok || !lines[m.c.line].Command? ==> RightNote(lines, notes, abort, m.c.line))
  {
    var c, note := m.c, NoteNow(a, m.c.s);
    var notes := m.notes + [note];
    forall k | 1 <= k <= c.cur && Loops(c.blocks, k)
      ensures RightFrom(lines, notes, abort, c.blocks[k - 1].line)
    {
      if !c.blocks[c.cur].ok && ErrorsFor(lines, c.line) != [] {
        NoLoopAround(lines, m.notes, c.line, c.blocks, c.cur, k);
      }
      RightMore(lines, m.notes, abort, c.blocks[k - 1].line, note);
    }
  }

  // ---------------------------------------------------------------- every round keeps it

  /** The line at hand has been read. */
  ghost predicate HasRead(lines: seq<Line>, notes: seq<Note>, abort: bool, c: Config) {
    && c.At? && c.line < |lines| && c.line < |notes| <= |lines| && InText(lines, notes, c.line, c.blocks, c.cur)
    && RightFrom(lines, notes, abort, c.line + 1) && LoopsRight(lines, notes, abort, c.blocks, c.cur)
    && (c.blocks[c.cur].ok || !lines[c.line].Command? ==> RightNote(lines, notes, abort, c.line))
  }

  /** To the next line, behind a command or an `error` line. */
  lemma ForwardKeeps(a: Actions, lines: seq<Line>, max: nat, abort: bool, c: Config, notes: seq<Note>, s: State)
    requires HasRead(lines, notes, abort, c) && Sane(c, max) && (lines[c.line].Command? || lines[c.line].ErrorLine?)
    requires Expects(lines, c.line + 1, c.blocks[c.cur].ok, s) && a.aborts(s.world) == abort
    ensures Inv(a, lines, max, abort, Cached(c.(line := c.line + 1, s := s), notes))
  {
  }

  /** Behind the line of a block. */
  lemma OpenKeeps(a: Actions, lines: seq<Line>, max: nat, abort: bool, c: Config, notes: seq<Note>, ok: bool, s: State)
    requires HasRead(lines, notes, abort, c) && Sane(c, max) && c.cur < max && (ok ==> c.blocks[c.cur].ok)
    requires lines[c.line].IfLine? || lines[c.line].WhileLine?
    requires s.pending == [] && a.aborts(s.world) == abort
    ensures var cmd := if lines[c.line].IfLine? then CmdIf else CmdWhile;
            Inv(a, lines, max, abort, Cached(At(c.line + 1, Opened(c.blocks, c.cur, c.line, cmd, ok), c.cur + 1, s),
                                             notes))
  {
    var cmd := if lines[c.line].IfLine? then CmdIf else CmdWhile;
    var b := Opened(c.blocks, c.cur, c.line, cmd, ok);
    OpenInText(lines, notes, c.line, c.blocks, c.cur, cmd, ok);
    forall k | 1 <= k <= c.cur + 1 && Loops(b, k)
      ensures RightFrom(lines, notes, abort, b[k - 1].line)
    {
      if k <= c.cur {
        assert Loops(c.blocks, k);
      } else {
        RightHere(lines, notes, abort, c.line);
      }
    }
  }

  lemma RightHere(lines: seq<Line>, notes: seq<Note>, abort: bool, line: nat)
    requires RightFrom(lines, notes, abort, line + 1) && RightNote(lines, notes, abort, line)
    ensures RightFrom(lines, notes, abort, line)
  {
    forall j | line <= j < |notes|
      ensures RightNote(lines, notes, abort, j)
    {
    }
  }

  lemma OpenInText(lines: seq<Line>, notes: seq<Note>, line: nat, blocks: seq<Block>, cur: nat, cmd: BlockCmd, ok: bool)
    requires InText(lines, notes, line, blocks, cur) && line < |lines| && line < |notes| && cur + 1 < |blocks|
    requires (lines[line].IfLine? && cmd == CmdIf) || (lines[line].WhileLine? && cmd == CmdWhile)
    requires ok ==> blocks[cur].ok
    ensures InText(lines, notes, line + 1, Opened(blocks, cur, line, cmd, ok), cur + 1)
  {
    var b := Opened(blocks, cur, line, cmd, ok);
    assert Cmds(b, cur + 1) == Cmds(blocks, cur) + [cmd];
    forall k | 0 <= k < cur + 1
      ensures Remembers(lines, notes, b, k)
    {
      assert Cmds(b, k) == Cmds(blocks, k);
      if k < cur {
        assert Remembers(lines, notes, blocks, k);
      }
    }
  }

  /** Behind an end line, or back at the line of the loop. */
  lemma DoneKeeps(a: Actions, lines: seq<Line>, max: nat, abort: bool, c: Config, notes: seq<Note>)
    requires HasRead(lines, notes, abort, c) && Sane(c, max) && lines[c.line].EndLine? && a.aborts(c.s.world) == abort
    ensures Inv(a, lines, max, abort, Cached(DoDone(max, c), notes))
  {
    if c.cur > 0 {
      var loop := c.blocks[c.cur].ok && c.blocks[c.cur].cmd == CmdWhile;
      var to := if loop then c.blocks[c.cur - 1].line else c.line + 1;
      DoneInText(lines, notes, c.line, c.blocks, c.cur, to);
      assert loop ==> Loops(c.blocks, c.cur);
      DoneLoops(lines, notes, abort, c.blocks, c.cur);
      DoneInv(a, lines, max, abort, At(to, c.blocks, c.cur - 1, Cleared(c.s)), notes);
    }
  }

  lemma DoneInv(a: Actions, lines: seq<Line>, max: nat, abort: bool, c: Config, notes: seq<Note>)
    requires c.At? && Sane(c, max) && c.line <= |notes| <= |lines| && InText(lines, notes, c.line, c.blocks, c.cur)
    requires RightFrom(lines, notes, abort, c.line) && LoopsRight(lines, notes, abort, c.blocks, c.cur)
    requires c.s.pending == [] && a.aborts(c.s.world) == abort
    requires c.line < |lines| && lines[c.line].Command? ==> ErrorsFor(lines, c.line) == []
    ensures Inv(a, lines, max, abort, Cached(c, notes))
  {
  }

  lemma DoneLoops(lines: seq<Line>, notes: seq<Note>, abort: bool, blocks: seq<Block>, cur: nat)
    requires LoopsRight(lines, notes, abort, blocks, cur) && cur > 0
    ensures LoopsRight(lines, notes, abort, blocks, cur - 1)
  {
  }

  lemma DoneInText(lines: seq<Line>, notes: seq<Note>, line: nat, blocks: seq<Block>, cur: nat, to: nat)
    requires InText(lines, notes, line, blocks, cur) && line < |lines| && lines[line].EndLine? && cur > 0
    requires line < |notes| && (to == line + 1 || to == blocks[cur - 1].line)
    ensures InText(lines, notes, to, blocks, cur - 1) && to <= |notes|
    ensures to < |lines| && lines[to].Command? ==> ErrorsFor(lines, to) == []
  {
    assert Remembers(lines, notes, blocks, cur - 1);
    assert Cmds(blocks, cur - 1) == Cmds(blocks, cur)[..cur - 1];
  }

  lemma TestKeeps(a: Actions, e: Test, s: State)
    requires KeepsSetting(a)
    ensures a.aborts(Try(a, e, s).0.s.world) == a.aborts(s.world)
  {
    assert a.aborts(a.test(e, s.world).0.world) == a.aborts(s.world);
  }

  /** The line of a block, opened or the end of the run. */
  lemma BlockKeeps(a: Actions, lines: seq<Line>, max: nat, abort: bool, c: Config, notes: seq<Note>)
    requires KeepsSetting(a) && HasRead(lines, notes, abort, c) && Sane(c, max) && a.aborts(c.s.world) == abort
    requires lines[c.line].IfLine? || lines[c.line].WhileLine?
    ensures Inv(a, lines, max, abort, Cached(Step(a, lines, max, c), notes))
  {
    var e := lines[c.line].e;
    var (o, yes) := Try(a, e, c.s);
    TestKeeps(a, e, c.s);
    if c.cur < max {
      if !c.blocks[c.cur].ok {
        OpenKeeps(a, lines, max, abort, c, notes, false, Cleared(c.s));
      } else if o.Go? {
        OpenKeeps(a, lines, max, abort, c, notes, yes, o.s);
      }
    }
  }

  /** A command that is executed has the right note, which is the one it would get now. */
  lemma RightIsNow(a: Actions, lines: seq<Line>, max: nat, abort: bool, m: Cached)
    requires Inv(a, lines, max, abort, m) && m.c.At? && m.c.line < |lines| && HasRead(lines, Noted(a, m), abort, m.c)
    ensures Executes(lines, m.c) ==> NoteUsed(a, m) == NoteNow(a, m.c.s)
  {
    if Executes(lines, m.c) {
      assert RightNote(lines, Noted(a, m), abort, m.c.line);
    }
  }

  lemma CommandKeeps(a: Actions, lines: seq<Line>, max: nat, abort: bool, c: Config, notes: seq<Note>, note: Note)
    requires KeepsSetting(a) && HasRead(lines, notes, abort, c) && Sane(c, max) && a.aborts(c.s.world) == abort
    requires lines[c.line].Command? && c.blocks[c.cur].ok
    ensures Inv(a, lines, max, abort, Cached(DoCommand(a, c, lines[c.line].c, note), notes))
  {
    var o := Perform(a, lines[c.line].c, note, c.s);
    assert a.aborts(a.exec(lines[c.line].c, note, c.s.world).world) == a.aborts(c.s.world);
    if o.Go? {
      ForwardKeeps(a, lines, max, abort, c, notes, o.s);
    }
  }

  lemma RoundKeeps(a: Actions, lines: seq<Line>, max: nat, abort: bool, m: Cached)
    requires Steady(lines) && KeepsSetting(a) && Inv(a, lines, max, abort, m)
    ensures Harmless(a, lines, m) && Inv(a, lines, max, abort, CachedStep(a, lines, max, m))
  {
    if m.c.At? && m.c.line < |lines| {
      var c, notes := m.c, Noted(a, m);
      ReadKeeps(a, lines, max, abort, m);
      assert HasRead(lines, notes, abort, c);
      RightIsNow(a, lines, max, abort, m);
      if lines[c.line].Command? && c.blocks[c.cur].ok {
        CommandKeeps(a, lines, max, abort, c, notes, NoteUsed(a, m));
      } else if lines[c.line].Command? {
        ForwardKeeps(a, lines, max, abort, c, notes, Cleared(c.s));
      } else if lines[c.line].ErrorLine? {
        ForwardKeeps(a, lines, max, abort, c, notes,
                     if c.blocks[c.cur].ok then c.s.(pending := lines[c.line].codes) else c.s);
      } else if lines[c.line].EndLine? {
        DoneKeeps(a, lines, max, abort, c, notes);
      } else {
        BlockKeeps(a, lines, max, abort, c, notes);
      }
    }
  }

  // ---------------------------------------------------------------- whole runs

  lemma {:induction false} InvAt(a: Actions, lines: seq<Line>, max: nat, s: State, k: nat)
    requires Steady(lines) && KeepsSetting(a) && s.pending == []
    ensures Inv(a, lines, max, a.aborts(s.world), CachedRun(a, lines, max, First(max, s), k))
  {
    if k == 0 {
      assert Cmds(Start(max, s).blocks, 0) == [];
    } else {
      InvAt(a, lines, max, s, k - 1);
      RoundKeeps(a, lines, max, a.aborts(s.world), CachedRun(a, lines, max, First(max, s), k - 1));
    }
  }

  /** On such a script the cache is without effect, whatever the commands do but change the setting. */
  lemma SteadyIsHarmless(a: Actions, lines: seq<Line>, max: nat, s: State)
    requires Steady(lines) && KeepsSetting(a) && s.pending == []
    ensures AlwaysHarmless(a, lines, max, s)
  {
    forall k: nat
      ensures HarmlessAt(a, lines, max, s, k)
    {
      InvAt(a, lines, max, s, k);
      RoundKeeps(a, lines, max, a.aborts(s.world), CachedRun(a, lines, max, First(max, s), k));
    }
  }

  /** ... and the script runs as the nested program. */
  lemma SteadyIsStructured(a: Actions, p: Prog, max: nat, s: State, o: Outcome)
    requires Steady(Flatten(p)) && KeepsSetting(a) && s.pending == []
    ensures MeansIn(a, p, s, max, o) <==> CachedReaches(a, Flatten(p), max, s, Final(o))
  {
    SteadyIsHarmless(a, Flatten(p), max, s);
    CachedIsStructured(a, p, max, s, o);
  }

  /** The script on which the cache does make a difference is not such a one. */
  lemma LateErrorNotSteady(loop: Test, cond: Test, code: Code, c: Cmd)
    ensures !Steady(Flatten(LateError(loop, cond, code, c)))
  {
    LateErrorLines(loop, cond, code, c);
    var lines := Flatten(LateError(loop, cond, code, c));
    assert Around(lines, 1) == [CmdWhile];
    assert Around(lines, 2) == [CmdWhile, CmdIf];
    assert Around(lines, 3) == [CmdWhile, CmdIf];
    assert ErrorsFor(lines, 3) == [code] && Around(lines, 3)[0] == CmdWhile;
  }
}
