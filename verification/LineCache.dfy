/**
 The line cache of mysqltest.  A line keeps the note of its first reading: the errors that were expected then and
 whether another error is fatal.  A line that was first read while it was skipped has the wrong note when it is
 executed later.  The cached machine runs as the fresh one exactly as long as that makes no difference.
 */
module LineCache {
  import opened Wrappers
  import opened Blocks

  /** The flat machine and the notes of the lines read so far. */
  datatype Cached = Cached(c: Config, notes: seq<Note>)

  /** The line at hand is a command and is executed. */
  predicate Executes(lines: seq<Line>, c: Config) {
    c.At? && c.line < |lines| && lines[c.line].Command? && c.cur < |c.blocks| && c.blocks[c.cur].ok
  }

  /** The note of the line at hand: that of its first reading, which may be now. */
  function NoteUsed(a: Actions, m: Cached): Note
    requires m.c.At?
  {
    if m.c.line < |m.notes| then m.notes[m.c.line] else NoteNow(a, m.c.s)
  }

  /** The notes after read_query. */
  function Noted(a: Actions, m: Cached): seq<Note>
    requires m.c.At?
  {
    if m.c.line < |m.notes| then m.notes else m.notes + [NoteNow(a, m.c.s)]
  }

  /** One round of the main loop. */
  function CachedStep(a: Actions, lines: seq<Line>, max: nat, m: Cached): (r: Cached)
    requires Sane(m.c, max)
    ensures Sane(r.c, max)
  {
    if !m.c.At? || m.c.line >= |lines| then Cached(Step(a, lines, max, m.c), m.notes)
    else if Executes(lines, m.c) then Cached(DoCommand(a, m.c, lines[m.c.line].c, NoteUsed(a, m)), Noted(a, m))
    else Cached(Step(a, lines, max, m.c), Noted(a, m))
  }

  function CachedRun(a: Actions, lines: seq<Line>, max: nat, m: Cached, k: nat): (r: Cached)
    requires Sane(m.c, max)
    ensures Sane(r.c, max)
  {
    if k == 0 then m else CachedStep(a, lines, max, CachedRun(a, lines, max, m, k - 1))
  }

  lemma {:induction false} RunLast(a: Actions, lines: seq<Line>, max: nat, c: Config, k: nat)
    requires Sane(c, max)
    ensures Run(a, lines, max, c, k + 1) == Step(a, lines, max, Run(a, lines, max, c, k))
  {
    RunAdd(a, lines, max, c, k, 1);
    assert Run(a, lines, max, Run(a, lines, max, c, k), 1) ==
           Run(a, lines, max, Step(a, lines, max, Run(a, lines, max, c, k)), 0);
  }

  /** The run `k` rounds after `m0` is at `m`. */
  ghost predicate IsAt(a: Actions, lines: seq<Line>, max: nat, m0: Cached, k: nat, m: Cached) {
    Sane(m0.c, max) && CachedRun(a, lines, max, m0, k) == m
  }

  lemma OneRound(a: Actions, lines: seq<Line>, max: nat, m0: Cached, k: nat, m: Cached)
    requires IsAt(a, lines, max, m0, k, m)
    ensures IsAt(a, lines, max, m0, k + 1, CachedStep(a, lines, max, m))
  {
  }

  /** Nothing happens after the end. */
  lemma {:induction false} CachedAbsorbs(a: Actions, lines: seq<Line>, max: nat, m0: Cached, i: nat, m: Cached, k: nat)
    requires IsAt(a, lines, max, m0, i, m) && !m.c.At? && i <= k
    ensures CachedRun(a, lines, max, m0, k).c == m.c
    decreases k - i
  {
    if i < k {
      OneRound(a, lines, max, m0, i, m);
      CachedAbsorbs(a, lines, max, m0, i + 1, CachedStep(a, lines, max, m), k);
    }
  }

  // ---------------------------------------------------------------- when the cache makes no difference

  /** The command at hand does the same with the note that it would get now. */
  ghost predicate Harmless(a: Actions, lines: seq<Line>, m: Cached) {
    Executes(lines, m.c) ==>
      Perform(a, lines[m.c.line].c, NoteUsed(a, m), m.c.s) == Perform(a, lines[m.c.line].c, NoteNow(a, m.c.s), m.c.s)
  }

  function First(max: nat, s: State): (m: Cached)
    ensures Sane(m.c, max)
  {
    Cached(Start(max, s), [])
  }

  /** So it is in every round of the run from the start. */
  ghost predicate AlwaysHarmless(a: Actions, lines: seq<Line>, max: nat, s: State) {
    forall k: nat :: HarmlessAt(a, lines, max, s, k)
  }

  ghost predicate HarmlessAt(a: Actions, lines: seq<Line>, max: nat, s: State, k: nat) {
    Harmless(a, lines, CachedRun(a, lines, max, First(max, s), k))
  }

  /** Both machines are at the same place in every round. */
  ghost predicate SameRuns(a: Actions, lines: seq<Line>, max: nat, s: State) {
    forall k: nat :: SameAt(a, lines, max, s, k)
  }

  ghost predicate SameAt(a: Actions, lines: seq<Line>, max: nat, s: State, k: nat) {
    CachedRun(a, lines, max, First(max, s), k).c == Run(a, lines, max, Start(max, s), k)
  }

  lemma StepSame(a: Actions, lines: seq<Line>, max: nat, m: Cached)
    requires Sane(m.c, max)
    ensures Harmless(a, lines, m) <==> CachedStep(a, lines, max, m).c == Step(a, lines, max, m.c)
  {
  }

  /** From the same place to the same place exactly if this round is harmless. */
  lemma SameNext(a: Actions, lines: seq<Line>, max: nat, s: State, k: nat)
    requires SameAt(a, lines, max, s, k)
    ensures SameAt(a, lines, max, s, k + 1) <==> HarmlessAt(a, lines, max, s, k)
  {
    StepSame(a, lines, max, CachedRun(a, lines, max, First(max, s), k));
    RunLast(a, lines, max, Start(max, s), k);
  }

  lemma {:induction false} SameUpTo(a: Actions, lines: seq<Line>, max: nat, s: State, k: nat)
    requires AlwaysHarmless(a, lines, max, s)
    ensures SameAt(a, lines, max, s, k)
  {
    if k > 0 {
      SameUpTo(a, lines, max, s, k - 1);
      SameNext(a, lines, max, s, k - 1);
      assert HarmlessAt(a, lines, max, s, k - 1);
    }
  }

  /** The cache is without effect exactly when no command that is executed minds that its note is an old one. */
  lemma CacheExact(a: Actions, lines: seq<Line>, max: nat, s: State)
    ensures SameRuns(a, lines, max, s) <==> AlwaysHarmless(a, lines, max, s)
  {
    if AlwaysHarmless(a, lines, max, s) {
      forall k: nat
        ensures SameAt(a, lines, max, s, k)
      {
        SameUpTo(a, lines, max, s, k);
      }
    }
    if SameRuns(a, lines, max, s) {
      forall k: nat
        ensures HarmlessAt(a, lines, max, s, k)
      {
        assert SameAt(a, lines, max, s, k) && SameAt(a, lines, max, s, k + 1);
        SameNext(a, lines, max, s, k);
      }
    }
  }

  ghost predicate CachedReaches(a: Actions, lines: seq<Line>, max: nat, s: State, c: Config) {
    exists k :: CachedRun(a, lines, max, First(max, s), k).c == c
  }

  /** Then the machine with the cache runs the nested program. */
  lemma CachedIsStructured(a: Actions, p: Prog, max: nat, s: State, o: Outcome)
    requires AlwaysHarmless(a, Flatten(p), max, s)
    ensures MeansIn(a, p, s, max, o) <==> CachedReaches(a, Flatten(p), max, s, Final(o))
  {
    var lines := Flatten(p);
    CacheExact(a, lines, max, s);
    FlatIsStructured(a, p, max, s, o);
    if Reaches(a, lines, max, s, Final(o)) {
      var k :| Run(a, lines, max, Start(max, s), k) == Final(o);
      assert SameAt(a, lines, max, s, k);
    }
    if CachedReaches(a, lines, max, s, Final(o)) {
      var k :| CachedRun(a, lines, max, First(max, s), k).c == Final(o);
      assert SameAt(a, lines, max, s, k);
    }
  }

  // ---------------------------------------------------------------- a script on which it does make one

  /**
   A loop of two rounds; in it an `if` that is false in the first round and true in the second; in that an `error`
   line and a command.
   */
  function LateError(loop: Test, cond: Test, code: Code, c: Cmd): Prog {
    While(loop, If(cond, Expect([code], Do(c, Nil)), Nil), Nil)
  }

  /** The worlds that the two rounds go through. */
  ghost predicate TwoRounds(a: Actions, loop: Test, cond: Test, w: seq<World>) {
    && |w| == 7
    && a.test(loop, w[0]) == (On(w[1]), true) && a.test(cond, w[1]) == (On(w[2]), false)
    && a.test(loop, w[2]) == (On(w[3]), true) && a.test(cond, w[3]) == (On(w[4]), true)
    && a.test(loop, w[5]) == (On(w[6]), false) && a.aborts(w[2])
  }

  lemma LateErrorLines(loop: Test, cond: Test, code: Code, c: Cmd)
    ensures Flatten(LateError(loop, cond, code, c)) ==
            [WhileLine(loop), IfLine(cond), ErrorLine([code]), Command(c), EndLine, EndLine]
  {
    var inner := Expect([code], Do(c, Nil));
    assert Flatten(Do(c, Nil)) == [Command(c)];
    assert Flatten(inner) == [ErrorLine([code]), Command(c)];
    assert Flatten(If(cond, inner, Nil)) == [IfLine(cond), ErrorLine([code]), Command(c), EndLine];
  }

  ghost function LateLines(loop: Test, cond: Test, code: Code, c: Cmd): seq<Line> {
    [WhileLine(loop), IfLine(cond), ErrorLine([code]), Command(c), EndLine, EndLine]
  }

  /** In the loop, at `line`, with the `if` block open for `cur` 2; the first `n` lines are read. */
  ghost predicate Spot(m: Cached, max: nat, line: nat, cur: nat, inner: bool, s: State, n: nat) {
    && m.c.At? && Sane(m.c, max) && max >= 2 && m.c.line == line && m.c.cur == cur <= 2 && m.c.s == s && |m.notes| == n
    && m.c.blocks[0].ok && (cur >= 1 ==> m.c.blocks[0].line == 0 && m.c.blocks[1].ok && m.c.blocks[1].cmd == CmdWhile)
    && (cur == 2 ==> m.c.blocks[2].ok == inner && m.c.blocks[2].cmd == CmdIf)
  }

  /** The note of the command stays. */
  ghost predicate KeepsNotes(m: Cached, m': Cached) {
    |m.notes| >= 4 ==> |m'.notes| >= 4 && m'.notes[3] == m.notes[3]
  }

  lemma AtLoop(a: Actions, lines: seq<Line>, max: nat, m: Cached, w: World, w': World, n: nat)
    requires Spot(m, max, 0, 0, false, State(w, []), n) && |lines| == 6 && lines[0].WhileLine?
    requires a.test(lines[0].e, w) == (On(w'), true)
    ensures var m' := CachedStep(a, lines, max, m);
            Spot(m', max, 1, 1, false, State(w', []), Max(n, 1)) && KeepsNotes(m, m')
  {
  }

  lemma AtIf(a: Actions, lines: seq<Line>, max: nat, m: Cached, w: World, w': World, yes: bool, n: nat)
    requires Spot(m, max, 1, 1, false, State(w, []), n) && n >= 1 && |lines| == 6 && lines[1].IfLine?
    requires a.test(lines[1].e, w) == (On(w'), yes)
    ensures var m' := CachedStep(a, lines, max, m);
            Spot(m', max, 2, 2, yes, State(w', []), Max(n, 2)) && KeepsNotes(m, m')
  {
  }

  lemma AtError(a: Actions, lines: seq<Line>, max: nat, m: Cached, w: World, yes: bool, n: nat)
    requires Spot(m, max, 2, 2, yes, State(w, []), n) && n >= 2 && |lines| == 6 && lines[2].ErrorLine?
    ensures var m' := CachedStep(a, lines, max, m);
            Spot(m', max, 3, 2, yes, State(w, if yes then lines[2].codes else []), Max(n, 3)) && KeepsNotes(m, m')
  {
  }

  lemma AtSkipped(a: Actions, lines: seq<Line>, max: nat, m: Cached, w: World)
    requires Spot(m, max, 3, 2, false, State(w, []), 3) && |lines| == 6 && lines[3].Command?
    ensures var m' := CachedStep(a, lines, max, m);
            Spot(m', max, 4, 2, false, State(w, []), 4) && m'.notes[3] == NoteNow(a, State(w, []))
  {
  }

  lemma AtEnds(a: Actions, lines: seq<Line>, max: nat, m: Cached, w: World)
    requires Spot(m, max, 4, 2, false, State(w, []), 4) && |lines| == 6 && lines[4].EndLine? && lines[5].EndLine?
    ensures var m1 := CachedStep(a, lines, max, m);
            var m2 := CachedStep(a, lines, max, m1);
            Spot(m2, max, 0, 0, false, State(w, []), 6) && KeepsNotes(m, m2)
  {
    var m1 := CachedStep(a, lines, max, m);
    assert Spot(m1, max, 5, 1, false, State(w, []), 5);
  }

  /** The first round: the command is read while it is skipped. */
  lemma FirstRound(a: Actions, loop: Test, cond: Test, code: Code, c: Cmd, max: nat, w: seq<World>, m: Cached)
    returns (m': Cached, k: nat)
    requires TwoRounds(a, loop, cond, w) && Spot(m, max, 0, 0, false, State(w[0], []), 0)
    ensures Spot(m', max, 0, 0, false, State(w[2], []), 6) && m'.notes[3] == Note([], true)
    ensures IsAt(a, LateLines(loop, cond, code, c), max, m, k, m')
  {
    var lines := LateLines(loop, cond, code, c);
    k := 0;
    AtLoop(a, lines, max, m, w[0], w[1], 0);
    OneRound(a, lines, max, m, k, m);
    var m1 := CachedStep(a, lines, max, m);
    AtIf(a, lines, max, m1, w[1], w[2], false, 1);
    OneRound(a, lines, max, m, k + 1, m1);
    var m2 := CachedStep(a, lines, max, m1);
    AtError(a, lines, max, m2, w[2], false, 2);
    OneRound(a, lines, max, m, k + 2, m2);
    var m3 := CachedStep(a, lines, max, m2);
    k := k + 3;
    m', k := FirstRoundEnds(a, lines, max, w[2], m, k, m3);
  }

  lemma FirstRoundEnds(a: Actions, lines: seq<Line>, max: nat, w: World, m0: Cached, k0: nat, m: Cached)
    returns (m': Cached, k: nat)
    requires Spot(m, max, 3, 2, false, State(w, []), 3) && IsAt(a, lines, max, m0, k0, m) && a.aborts(w)
    requires |lines| == 6 && lines[3].Command? && lines[4].EndLine? && lines[5].EndLine?
    ensures Spot(m', max, 0, 0, false, State(w, []), 6) && m'.notes[3] == Note([], true)
    ensures IsAt(a, lines, max, m0, k, m')
  {
    AtSkipped(a, lines, max, m, w);
    OneRound(a, lines, max, m0, k0, m);
    var m1 := CachedStep(a, lines, max, m);
    AtEnds(a, lines, max, m1, w);
    OneRound(a, lines, max, m0, k0 + 1, m1);
    var m2 := CachedStep(a, lines, max, m1);
    OneRound(a, lines, max, m0, k0 + 2, m2);
    m', k := CachedStep(a, lines, max, m2), k0 + 3;
  }

  /** The second round, up to the command: it is executed with the note of the first. */
  lemma SecondRound(a: Actions, lines: seq<Line>, max: nat, w2: World, w3: World, w4: World, m0: Cached, k0: nat,
                    m: Cached)
    returns (m': Cached, k: nat)
    requires Spot(m, max, 0, 0, false, State(w2, []), 6) && IsAt(a, lines, max, m0, k0, m)
    requires |lines| == 6 && lines[0].WhileLine? && lines[1].IfLine? && lines[2].ErrorLine?
    requires a.test(lines[0].e, w2) == (On(w3), true) && a.test(lines[1].e, w3) == (On(w4), true)
    ensures Spot(m', max, 3, 2, true, State(w4, lines[2].codes), 6) && m'.notes[3] == m.notes[3]
    ensures IsAt(a, lines, max, m0, k, m')
  {
    AtLoop(a, lines, max, m, w2, w3, 6);
    OneRound(a, lines, max, m0, k0, m);
    var m1 := CachedStep(a, lines, max, m);
    AtIf(a, lines, max, m1, w3, w4, true, 6);
    OneRound(a, lines, max, m0, k0 + 1, m1);
    var m2 := CachedStep(a, lines, max, m1);
    AtError(a, lines, max, m2, w4, true, 6);
    OneRound(a, lines, max, m0, k0 + 2, m2);
    m', k := CachedStep(a, lines, max, m2), k0 + 3;
  }

  /** There the command is executed and stops the run. */
  lemma Executed(a: Actions, lines: seq<Line>, max: nat, m: Cached, w: World, code: Code, y: World, x: World)
    requires Spot(m, max, 3, 2, true, State(w, [code]), 6) && m.notes[3] == Note([], true)
    requires |lines| == 6 && lines[3].Command?
    requires a.exec(lines[3].c, Note([code], false), w) == On(y) && a.exec(lines[3].c, Note([], true), w) == Off(x)
    ensures CachedStep(a, lines, max, m).c == Stop(State(x, [])) && !Harmless(a, lines, m)
  {
  }

  /** The nested program goes through both rounds and comes to its end. */
  lemma LateErrorMeans(a: Actions, loop: Test, cond: Test, code: Code, c: Cmd, w: seq<World>)
    requires TwoRounds(a, loop, cond, w) && a.exec(c, Note([code], false), w[4]) == On(w[5])
    ensures Means(a, LateError(loop, cond, code, c), State(w[0], []), Running(State(w[6], [])))
  {
    var p := LateError(loop, cond, code, c);
    var inner := Expect([code], Do(c, Nil));
    assert Exec(a, p, State(w[5], []), 0) == Some(Running(State(w[6], [])));
    assert NoteNow(a, State(w[4], [code])) == Note([code], false);
    assert Exec(a, Do(c, Nil), State(w[4], [code]), 1) == Some(Running(State(w[5], [])));
    assert Exec(a, inner, State(w[4], []), 1) == Some(Running(State(w[5], [])));
    assert Exec(a, p.body, State(w[3], []), 1) == Some(Running(State(w[5], [])));
    assert Exec(a, p, State(w[2], []), 1) == Exec(a, p, State(w[5], []), 0);
    assert Exec(a, p.body, State(w[1], []), 2) == Some(Running(State(w[2], [])));
    assert Exec(a, p, State(w[0], []), 2) == Exec(a, p, State(w[2], []), 1);
  }

  /**
   The nested program comes to its end, because the error of its command is expected; the script stops there, because
   the command was first read in the round that skipped it and has kept that no error is expected.
   */
  lemma LateErrorStops(a: Actions, loop: Test, cond: Test, code: Code, c: Cmd, max: nat, w: seq<World>, x: World)
    requires TwoRounds(a, loop, cond, w) && max >= 2
    requires a.exec(c, Note([code], false), w[4]) == On(w[5]) && a.exec(c, Note([], true), w[4]) == Off(x)
    ensures var p, s := LateError(loop, cond, code, c), State(w[0], []);
            && Means(a, p, s, Running(State(w[6], [])))
            && CachedReaches(a, Flatten(p), max, s, Stop(State(x, []))) && !AlwaysHarmless(a, Flatten(p), max, s)
  {
    var p, s := LateError(loop, cond, code, c), State(w[0], []);
    var lines := LateLines(loop, cond, code, c);
    LateErrorMeans(a, loop, cond, code, c, w);
    LateErrorLines(loop, cond, code, c);
    var m := First(max, s);
    var m1, k1 := FirstRound(a, loop, cond, code, c, max, w, m);
    var m2, k2 := SecondRound(a, lines, max, w[2], w[3], w[4], m, k1, m1);
    Executed(a, lines, max, m2, w[4], code, w[5], x);
    OneRound(a, lines, max, m, k2, m2);
    assert CachedRun(a, lines, max, m, k2 + 1).c == Stop(State(x, []));
    assert !HarmlessAt(a, lines, max, s, k2);
  }
}
