/** The main loop of mysqltest with its line cache and its array of blocks. */
module Interpreter {
  import opened Wrappers
  import opened Blocks
  import opened LineCache
  import opened SteadyScripts

  const BLOCK_STACK_DEPTH := 32

  /** Index of the last entry of the block stack. */
  const BLOCK_STACK_END: nat := BLOCK_STACK_DEPTH - 1

  class Session {
    const actions: Actions
    const script: seq<Line>
    const blocks: array<Block>
    var fileLine: nat
    var queries: seq<Line>
    var notes: seq<Note>
    var currentLine: nat
    var cur: nat
    var state: State
    var abort: bool
    var death: Option<Death>

    /**
     The cache holds what was read, each line with its note, and every line the machine can be at was read or is
     next.
     */
    ghost predicate Valid()
      reads this, blocks
    {
      && blocks.Length == BLOCK_STACK_DEPTH && cur <= BLOCK_STACK_END
      && fileLine <= |script| && queries == script[..fileLine] && |notes| == fileLine && currentLine <= fileLine
      && forall j | 0 <= j < cur :: blocks[j].line < fileLine
    }

    /** Still going. */
    predicate Live()
      reads this
    {
      !abort && death.None?
    }

    ghost function Now(): Config
      reads this, blocks
    {
      if death.Some? then Died(death.value, state)
      else if abort then Stop(state)
      else At(currentLine, blocks[..], cur, state)
    }

    ghost function Machine(): Cached
      reads this, blocks
    {
      Cached(Now(), notes)
    }

    constructor (actions: Actions, script: seq<Line>, state: State)
      ensures Valid() && Live() && fresh(blocks) && this.actions == actions && this.script == script
      ensures Machine() == First(BLOCK_STACK_END, state)
    {
      this.actions, this.script, this.state := actions, script, state;
      fileLine, queries, notes, currentLine, cur, abort, death := 0, [], [], 0, 0, false, None;
      blocks := new Block[BLOCK_STACK_DEPTH](j => Block(0, j == 0, CmdNone));
      new;
      assert blocks[..] == seq(BLOCK_STACK_END + 1, j => Block(0, j == 0, CmdNone));
    }

    /**
     read_query: the line from the cache if it was read before, else the next one of the file; none at its end.  A line
     gets its note when it is read from the file.
     */
    method ReadQuery() returns (q: Option<Line>)
      requires Valid() && Live()
      modifies this`fileLine, this`queries, this`notes
      ensures Valid()
      ensures q == (if currentLine < |script| then Some(script[currentLine]) else None)
      ensures q.None? ==> notes == old(notes)
      ensures q.Some? ==> currentLine < fileLine && notes == Noted(actions, old(Machine()))
      ensures q.Some? ==> notes[currentLine] == NoteUsed(actions, old(Machine()))
    {
      if currentLine < |queries| {
        return Some(queries[currentLine]);
      }
      if fileLine == |script| {
        return None;
      }
      q := Some(script[fileLine]);
      queries, notes := queries + [script[fileLine]], notes + [NoteNow(actions, state)];
      fileLine := fileLine + 1;
    }

    /** Writes one entry of the stack. */
    method SetBlock(i: nat, b: Block)
      requires i < blocks.Length
      modifies blocks
      ensures blocks[..] == old(blocks[..])[i := b]
    {
      blocks[i] := b;
    }

    /** The block that the line opens, on top of the stack. */
    method PushBlock(cmd: BlockCmd, ok: bool)
      requires Valid() && Live() && cur < BLOCK_STACK_END && blocks[cur].line < fileLine && currentLine < fileLine
      modifies this`currentLine, this`cur, blocks
      ensures Valid() && Now() == Push(old(Now()), old(blocks[..]), cmd, ok, state)
    {
      currentLine := currentLine + 1;
      cur := cur + 1;
      SetBlock(cur, blocks[cur].(ok := ok, cmd := cmd));
    }

    method DoBlock(cmd: BlockCmd, e: Test)
      requires Valid() && Live() && currentLine < fileLine
      modifies this`currentLine, this`cur, this`state, this`abort, this`death, blocks
      ensures Valid() && Now() == Blocks.DoBlock(actions, BLOCK_STACK_END, old(Now()), cmd, e)
    {
      if cur == BLOCK_STACK_END {
        death := Some(NestingTooDeep);
        return;
      }
      SetBlock(cur, blocks[cur].(line := currentLine));
      if !blocks[cur].ok {
        state := Cleared(state);
        PushBlock(cmd, false);
        return;
      }
      var (o, yes) := Try(actions, e, state);
      state := o.s;
      if o.Quit? {
        abort := true;
        return;
      }
      PushBlock(cmd, yes);
    }

    method DoDone()
      requires Valid() && Live() && currentLine < fileLine
      modifies this`currentLine, this`cur, this`state, this`death
      ensures Valid() && Now() == Blocks.DoDone(BLOCK_STACK_END, old(Now()))
    {
      if cur == 0 {
        death := Some(StrayEnd);
        return;
      }
      if blocks[cur].ok && blocks[cur].cmd == CmdWhile {
        cur := cur - 1;
        currentLine := blocks[cur].line;
      } else {
        cur := cur - 1;
        currentLine := currentLine + 1;
      }
      state := Cleared(state);
    }

    /** A command, which goes by the note of its line if it is executed. */
    method DoCommand(c: Cmd)
      requires Valid() && Live() && currentLine < fileLine
      modifies this`currentLine, this`state, this`abort
      ensures Valid()
      ensures Now() == if blocks[cur].ok then Blocks.DoCommand(actions, old(Now()), c, notes[old(currentLine)])
                       else At(old(currentLine) + 1, blocks[..], cur, Cleared(old(state)))
    {
      if blocks[cur].ok {
        var o := Perform(actions, c, notes[currentLine], state);
        state := o.s;
        abort := o.Quit?;
      } else {
        state := Cleared(state);
      }
      currentLine := currentLine + 1;
    }

    /** An `error` line. */
    method DoError(codes: seq<Code>)
      requires Valid() && Live() && currentLine < fileLine
      modifies this`currentLine, this`state
      ensures Valid()
      ensures Now() == At(old(currentLine) + 1, blocks[..], cur,
                          if blocks[cur].ok then old(state).(pending := codes) else old(state))
    {
      if blocks[cur].ok {
        state := state.(pending := codes);
      }
      currentLine := currentLine + 1;
    }

    /** One round of the main loop; `more` is false at the end of the script. */
    method Round() returns (more: bool)
      requires Valid() && Live()
      modifies this, blocks
      ensures more == (old(currentLine) < |script|)
      ensures more ==> Valid() && Machine() == CachedStep(actions, script, BLOCK_STACK_END, old(Machine()))
      ensures !more ==> old(Machine()).c == At(old(currentLine), blocks[..], cur, state)
    {
      ghost var was := Machine();
      var q := ReadQuery();
      assert Now() == was.c;
      if q.None? {
        return false;
      }
      match q.value {
        case Command(c) => DoCommand(c);
        case ErrorLine(codes) => DoError(codes);
        case IfLine(e) => DoBlock(CmdIf, e);
        case WhileLine(e) => DoBlock(CmdWhile, e);
        case EndLine => DoDone();
      }
      return true;
    }

    /** The main loop, for at most `limit` rounds: `end` is where the machine with the cache is after them. */
    method MainLoop(limit: nat) returns (end: Option<Config>)
      requires Valid() && Live()
      modifies this, blocks
      ensures var c := CachedRun(actions, script, BLOCK_STACK_END, old(Machine()), limit).c;
              end == if c.At? then None else Some(c)
    {
      var i := 0;
      ghost var start := Machine();
      while Live() && i < limit
        invariant Valid() && i <= limit && IsAt(actions, script, BLOCK_STACK_END, start, i, Machine())
        decreases limit - i
      {
        ghost var was := Machine();
        OneRound(actions, script, BLOCK_STACK_END, start, i, was);
        var more := Round();
        i := i + 1;
        if !more {
          var c := if cur == 0 then Ended(state) else Died(MissingEnd, state);
          CachedAbsorbs(actions, script, BLOCK_STACK_END, start, i, Cached(c, was.notes), limit);
          return Some(c);
        }
      }
      if Live() {
        return None;
      }
      CachedAbsorbs(actions, script, BLOCK_STACK_END, start, i, Machine(), limit);
      end := Some(if death.Some? then Died(death.value, state) else Stop(state));
    }
  }

  /**
   Runs the script of `p` for at most `limit` rounds.  If the cache is harmless, or if the text of the script is such
   that it has to be, it ends as the nested program does with room for 31 open blocks: to its end only if its blocks
   fit on the stack, dead only if they do not.
   */
  method RunScript(actions: Actions, p: Prog, script: seq<Line>, s: State, limit: nat) returns (end: Option<Config>)
    requires script == Flatten(p)
    ensures var c := CachedRun(actions, script, BLOCK_STACK_END, First(BLOCK_STACK_END, s), limit).c;
            end == if c.At? then None else Some(c)
    ensures Steady(script) && KeepsSetting(actions) && s.pending == [] ==>
              AlwaysHarmless(actions, script, BLOCK_STACK_END, s)
    ensures end.Some? && AlwaysHarmless(actions, script, BLOCK_STACK_END, s) ==>
              && (exists o :: end.value == Final(o) && MeansIn(actions, p, s, BLOCK_STACK_END, o))
              && (end.value.Ended? ==> Depth(p) < BLOCK_STACK_DEPTH && Means(actions, p, s, Running(end.value.s)))
              && (end.value.Died? ==> Depth(p) >= BLOCK_STACK_DEPTH)
  {
    var session := new Session(actions, script, s);
    end := session.MainLoop(limit);
    if Steady(script) && KeepsSetting(actions) && s.pending == [] {
      SteadyIsHarmless(actions, script, BLOCK_STACK_END, s);
    }
    if end.Some? && AlwaysHarmless(actions, script, BLOCK_STACK_END, s) {
      SameUpTo(actions, script, BLOCK_STACK_END, s, limit);
      EndIsNested(actions, p, s, end.value, limit);
    }
  }

  lemma EndIsNested(a: Actions, p: Prog, s: State, c: Config, k: nat)
    requires !c.At? && Run(a, Flatten(p), BLOCK_STACK_END, Start(BLOCK_STACK_END, s), k) == c
    ensures exists o :: c == Final(o) && MeansIn(a, p, s, BLOCK_STACK_END, o)
    ensures c.Ended? ==> Depth(p) < BLOCK_STACK_DEPTH && Means(a, p, s, Running(c.s))
    ensures c.Died? ==> Depth(p) >= BLOCK_STACK_DEPTH
  {
    assert Reaches(a, Flatten(p), BLOCK_STACK_END, s, c);
    var o := EndIsMeant(a, p, BLOCK_STACK_END, s, c);
    if c.Ended? {
      RunsToEnd(a, p, BLOCK_STACK_END, s, c.s);
    } else if c.Died? && Depth(p) < BLOCK_STACK_DEPTH {
      NeverDies(a, p, BLOCK_STACK_END, s, c.why, c.s);
    }
  }

  /** 32 blocks, the first of them skipped, are one too many. */
  lemma ThirtyTwoBlocks(a: Actions, e: Test, s: State, s1: State)
    requires Try(a, e, s) == (Go(s1), false)
    ensures Depth(Nested(e, 32)) == 32
    ensures Reaches(a, Flatten(Nested(e, 32)), BLOCK_STACK_END, s, Died(NestingTooDeep, s1))
    ensures Reaches(a, Flatten(Nested(e, 31)), BLOCK_STACK_END, s, Ended(s1))
  {
    NestedDepth(e, 32);
    NestedDies(a, e, 32, BLOCK_STACK_END, s, s1);
    NestedDies(a, e, 31, BLOCK_STACK_END, s, s1);
  }
}
