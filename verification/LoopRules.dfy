/**
 Loops without fuel: a `while` runs its body once for every test that succeeds, one after the other, until a test
 fails.
 */
module LoopRules {
  import opened Wrappers
  import opened Blocks

  /** More fuel changes nothing about a program that came to an end. */
  lemma {:induction false} MoreFuel(a: Actions, p: Prog, s: State, fuel: nat, fuel': nat)
    requires fuel <= fuel' && Exec(a, p, s, fuel).Some?
    ensures Exec(a, p, s, fuel') == Exec(a, p, s, fuel)
    decreases fuel, p, 0
  {
    if p.Do? {
      MoreFuelRest(a, p.rest, Perform(a, p.c, NoteNow(a, s), s).s, fuel, fuel');
    } else if p.Expect? {
      MoreFuelRest(a, p.rest, s.(pending := p.codes), fuel, fuel');
    } else if IsBlock(p) {
      var (o, yes) := Try(a, p.e, s);
      if o.Go? && !yes {
        MoreFuel(a, p.rest, o.s, fuel, fuel');
      } else if o.Go? {
        MoreFuel(a, p.body, o.s, fuel, fuel');
        var o1 := Exec(a, p.body, o.s, fuel).value;
        if o1.Running? && p.While? {
          MoreFuel(a, p, Cleared(o1.s), fuel - 1, fuel' - 1);
        } else if o1.Running? {
          MoreFuel(a, p.rest, Cleared(o1.s), fuel, fuel');
        }
      }
    }
  }

  lemma {:induction false} MoreFuelRest(a: Actions, p: Prog, s: State, fuel: nat, fuel': nat)
    requires fuel <= fuel'
    ensures Exec(a, p, s, fuel).Some? ==> Exec(a, p, s, fuel') == Exec(a, p, s, fuel)
    decreases fuel, p, 1
  {
    if Exec(a, p, s, fuel).Some? {
      MoreFuel(a, p, s, fuel, fuel');
    }
  }

  /** The test succeeds in `s`, and the body comes to its end; `s'` is the state for the next test. */
  ghost predicate Round(a: Actions, e: Test, body: Prog, s: State, s': State) {
    var (o, yes) := Try(a, e, s);
    o.Go? && yes && exists s2 :: Means(a, body, o.s, Running(s2)) && s' == Cleared(s2)
  }

  /** The test fails in `s`, and what follows the loop comes to its end in `s'`. */
  ghost predicate Leaves(a: Actions, e: Test, rest: Prog, s: State, s': State) {
    var (o, yes) := Try(a, e, s);
    o.Go? && !yes && Means(a, rest, o.s, Running(s'))
  }

  /** One round after the other, from the first of these states to the last. */
  ghost predicate Rounds(a: Actions, e: Test, body: Prog, ss: seq<State>) {
    ss != [] && forall i | 0 <= i < |ss| - 1 :: Round(a, e, body, ss[i], ss[i + 1])
  }

  ghost predicate Loops(a: Actions, e: Test, body: Prog, rest: Prog, s: State, s': State, ss: seq<State>) {
    Rounds(a, e, body, ss) && ss[0] == s && Leaves(a, e, rest, ss[|ss| - 1], s')
  }

  lemma RoundsCons(a: Actions, e: Test, body: Prog, rest: Prog, s: State, s1: State, s': State, ss: seq<State>)
    requires Round(a, e, body, s, s1) && Loops(a, e, body, rest, s1, s', ss)
    ensures Loops(a, e, body, rest, s, s', [s] + ss)
  {
  }

  lemma {:induction false} LoopHasRounds(a: Actions, e: Test, body: Prog, rest: Prog, s: State, s': State, fuel: nat)
    returns (ss: seq<State>)
    requires Exec(a, While(e, body, rest), s, fuel) == Some(Running(s'))
    ensures Loops(a, e, body, rest, s, s', ss)
    decreases fuel
  {
    var (o, yes) := Try(a, e, s);
    if yes {
      var s2 := Exec(a, body, o.s, fuel).value.s;
      assert Means(a, body, o.s, Running(s2));
      ss := LoopHasRounds(a, e, body, rest, Cleared(s2), s', fuel - 1);
      RoundsCons(a, e, body, rest, s, Cleared(s2), s', ss);
      ss := [s] + ss;
    } else {
      assert Means(a, rest, o.s, Running(s'));
      ss := [s];
    }
  }

  lemma RoundThenLoop(a: Actions, e: Test, body: Prog, rest: Prog, s: State, s1: State, o: Outcome)
    requires Round(a, e, body, s, s1) && Means(a, While(e, body, rest), s1, o)
    ensures Means(a, While(e, body, rest), s, o)
  {
    var s0 := Try(a, e, s).0.s;
    var s2 :| Means(a, body, s0, Running(s2)) && s1 == Cleared(s2);
    var m: nat :| Exec(a, body, s0, m) == Some(Running(s2));
    var n: nat :| Exec(a, While(e, body, rest), s1, n) == Some(o);
    var k := Max(m, n) + 1;
    MoreFuel(a, body, s0, m, k);
    MoreFuel(a, While(e, body, rest), s1, n, k - 1);
    assert Exec(a, While(e, body, rest), s, k) == Some(o);
  }

  lemma {:induction false} RoundsMakeLoop(a: Actions, e: Test, body: Prog, rest: Prog, s: State, s': State,
                                          ss: seq<State>)
    requires Loops(a, e, body, rest, s, s', ss)
    ensures Means(a, While(e, body, rest), s, Running(s'))
    decreases |ss|
  {
    if |ss| == 1 {
      var n: nat :| Exec(a, rest, Try(a, e, s).0.s, n) == Some(Running(s'));
      assert Exec(a, While(e, body, rest), s, n) == Some(Running(s'));
    } else {
      assert forall i | 0 <= i < |ss| - 2 :: Round(a, e, body, ss[1..][i], ss[1..][i + 1]);
      assert Round(a, e, body, ss[0], ss[1]);
      RoundsMakeLoop(a, e, body, rest, ss[1], s', ss[1..]);
      RoundThenLoop(a, e, body, rest, s, ss[1], Running(s'));
    }
  }

  /** A loop comes to its end exactly through such rounds. */
  lemma LoopExactly(a: Actions, e: Test, body: Prog, rest: Prog, s: State, s': State)
    ensures Means(a, While(e, body, rest), s, Running(s')) <==> exists ss :: Loops(a, e, body, rest, s, s', ss)
  {
    if Means(a, While(e, body, rest), s, Running(s')) {
      var fuel: nat :| Exec(a, While(e, body, rest), s, fuel) == Some(Running(s'));
      var ss := LoopHasRounds(a, e, body, rest, s, s', fuel);
    }
    if ss :| Loops(a, e, body, rest, s, s', ss) {
      RoundsMakeLoop(a, e, body, rest, s, s', ss);
    }
  }

  /** An error is expected after a step only if that was an `error` line, executed, or a skipped one behind one. */
  lemma OnlyErrorLinesExpect(a: Actions, lines: seq<Line>, max: nat, c: Config)
    requires c.At? && Sane(c, max) && c.line < |lines|
    ensures var c', x := Step(a, lines, max, c), lines[c.line];
            c'.At? ==> c'.s.pending == if !x.ErrorLine? then [] else if c.blocks[c.cur].ok then x.codes else c.s.pending
  {
  }
}
