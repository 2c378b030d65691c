/**
 What a state of the automaton means.  A state stands for the text read since the
 last restart: the cells of the follow table whose prefix the text ends with, cut
 down to those that can still beat the best occurrence seen so far, together with
 that occurrence.
 */
module MatchStates {
  import opened Wrappers
  import opened LeftmostLongest
  import opened FollowTable

  ghost predicate Cells(from: seq<seq<Byte>>, f: seq<Follow>) {
    AllPlain(from) && f == Table(from, |from|) && WellFormed(from, |from|, f)
  }

  ghost predicate EndsWith(from: seq<seq<Byte>>, c: Follow, t: seq<Byte>)
    requires IsCell(from, c)
  {
    c.Matched() <= |t| && t[|t| - c.Matched()..] == from[c.tableOffset][..c.Matched()]
  }

  /** The prefix of cell `p` starts no later than the best occurrence in `t`. */
  ghost predicate NotLater(from: seq<seq<Byte>>, c: Follow, t: seq<Byte>) {
    Best(from, t).Some? ==> |t| - Best(from, t).value.start <= c.Matched()
  }

  /** Cell `p` is a started, unfinished match that may still become the best one. */
  ghost predicate IsAlive(from: seq<seq<Byte>>, f: seq<Follow>, t: seq<Byte>, p: nat)
    requires Cells(from, f) && 1 <= p < |f|
  {
    f[p].chr != 0 && f[p].Matched() >= 1 && EndsWith(from, f[p], t) && NotLater(from, f[p], t)
  }

  ghost function Alive(from: seq<seq<Byte>>, f: seq<Follow>, t: seq<Byte>): set<nat>
    requires Cells(from, f)
  {
    set p: nat | 1 <= p < |f| && IsAlive(from, f, t, p)
  }

  /** The best occurrence in `t` can no longer be beaten. */
  ghost predicate Final(from: seq<seq<Byte>>, f: seq<Follow>, t: seq<Byte>)
    requires Cells(from, f)
  {
    Best(from, t).Some? && Alive(from, f, t) == {}
  }

  ghost function StartCells(f: seq<Follow>): set<nat> {
    set p: nat | 1 <= p < |f| && f[p].Matched() == 0
  }

  /** The terminal cell of string `i`. */
  ghost function EndCell(from: seq<seq<Byte>>, i: nat): nat
    requires i < |from|
  {
    CellOf(from, i, |from[i]|)
  }

  ghost function Bits(from: seq<seq<Byte>>, f: seq<Follow>, t: seq<Byte>): set<nat>
    requires Cells(from, f)
  {
    match Best(from, t)
    case None => if Alive(from, f, t) == {} then StartCells(f) else Alive(from, f, t)
    case Some(o) => Alive(from, f, t) + {EndCell(from, o.which)}
  }

  /** A state with these fields stands for the text `t`. */
  ghost predicate Denotes(from: seq<seq<Byte>>, f: seq<Follow>,
                          bits: set<nat>, tableOffset: int, foundOffset: int, t: seq<Byte>)
    requires Cells(from, f)
  {
    && bits == Bits(from, f, t)
    && !Final(from, f, t)
    && (Best(from, t).Some? ==>
          && tableOffset == Best(from, t).value.which
          && foundOffset == |t| - Best(from, t).value.start)
  }

  // ---------------------------------------------------------------- facts about cells

  lemma EndCellFacts(from: seq<seq<Byte>>, f: seq<Follow>, i: nat)
    requires Cells(from, f) && i < |from|
    ensures 1 <= EndCell(from, i) < |f|
    ensures f[EndCell(from, i)] == Follow(0, i, |from[i]|)
  {
    CellOfCorrect(from, |from|, i, |from[i]|);
  }

  lemma EndCellUnique(from: seq<seq<Byte>>, f: seq<Follow>, p: nat)
    requires Cells(from, f) && 1 <= p < |f| && f[p].chr == 0
    ensures p == EndCell(from, f[p].tableOffset)
  {
    EndCellFacts(from, f, f[p].tableOffset);
    CellUnique(from, |from|, f, p, EndCell(from, f[p].tableOffset));
  }

  /** A terminal cell whose string ends `t` is an occurrence, and conversely. */
  lemma EndsWithIsOccurrence(from: seq<seq<Byte>>, f: seq<Follow>, t: seq<Byte>, i: nat)
    requires Cells(from, f) && i < |from|
    ensures 1 <= EndCell(from, i) < |f| && IsCell(from, f[EndCell(from, i)])
    ensures |from[i]| <= |t| ==>
              (EndsWith(from, f[EndCell(from, i)], t) <==> OccursAt(from, t, Occurrence(|t| - |from[i]|, i)))
  {
    EndCellFacts(from, f, i);
    assert from[i][..|from[i]|] == from[i];
    assert |from[i]| <= |t| ==> t[|t| - |from[i]|..] == t[|t| - |from[i]|..|t|];
  }

  /** Terminal cells in a denoted set are exactly the completed best match. */
  lemma TerminalBits(from: seq<seq<Byte>>, f: seq<Follow>, t: seq<Byte>)
    requires Cells(from, f)
    ensures forall p | p in Bits(from, f, t) :: 1 <= p < |f|
    ensures Best(from, t).None? ==> forall p | p in Bits(from, f, t) :: f[p].chr != 0
    ensures Best(from, t).Some? ==>
              forall p | p in Bits(from, f, t) :: f[p].chr == 0 <==> p == EndCell(from, Best(from, t).value.which)
  {
    if Best(from, t).Some? {
      EndCellFacts(from, f, Best(from, t).value.which);
    }
    forall p | p in StartCells(f)
      ensures f[p].chr != 0
    {
      assert IsCell(from, f[p]);
      assert from[f[p].tableOffset] != [];
    }
  }

  // ---------------------------------------------------------------- merging by bits

  /** An occurrence inside the last `k` characters is in every text that shares them. */
  lemma SharedSuffix(from: seq<seq<Byte>>, t: seq<Byte>, u: seq<Byte>, k: nat, o: Occurrence)
    requires k <= |t| && k <= |u| && t[|t| - k..] == u[|u| - k..]
    requires OccursAt(from, t, o) && |t| - o.start <= k
    ensures OccursAt(from, u, Occurrence(o.start - |t| + |u|, o.which))
  {
    var n := |from[o.which]|;
    var s := o.start - |t| + |u|;
    assert t[o.start..o.start + n] == t[|t| - k..][o.start - (|t| - k)..o.start - (|t| - k) + n];
    assert u[s..s + n] == u[|u| - k..][s - (|u| - k)..s - (|u| - k) + n];
  }

  /** Half of the merge argument: the two best occurrences are equally far from the end. */
  lemma SameOffsetHalf(from: seq<seq<Byte>>, f: seq<Follow>, t: seq<Byte>, u: seq<Byte>, p: nat)
    requires Cells(from, f) && 1 <= p < |f|
    requires IsAlive(from, f, t, p) && IsAlive(from, f, u, p)
    requires Best(from, t).Some? && Best(from, u).Some?
    ensures |t| - Best(from, t).value.start <= |u| - Best(from, u).value.start
  {
    var o := Best(from, t).value;
    SharedSuffix(from, t, u, f[p].Matched(), o);
    assert Preferred(from, Best(from, u).value, Occurrence(o.start - |t| + |u|, o.which));
  }

  /** Comparing bits is enough: equal bits leave no freedom in the recorded match. */
  lemma MergeSafe(from: seq<seq<Byte>>, f: seq<Follow>, t: seq<Byte>, u: seq<Byte>)
    requires Cells(from, f)
    requires !Final(from, f, t) && !Final(from, f, u) && Bits(from, f, t) == Bits(from, f, u)
    ensures Best(from, t).Some? == Best(from, u).Some?
    ensures Best(from, t).Some? ==>
              && Best(from, t).value.which == Best(from, u).value.which
              && |t| - Best(from, t).value.start == |u| - Best(from, u).value.start
  {
    TerminalBits(from, f, t);
    TerminalBits(from, f, u);
    if Best(from, u).Some? {
      EndCellFacts(from, f, Best(from, u).value.which);
      assert EndCell(from, Best(from, u).value.which) in Bits(from, f, t);
    }
    if Best(from, t).Some? {
      var i := Best(from, t).value.which;
      EndCellFacts(from, f, i);
      assert EndCell(from, i) in Bits(from, f, u);
      var j := Best(from, u).value.which;
      EndCellFacts(from, f, j);
      var p :| p in Alive(from, f, t);
      assert p in Bits(from, f, u) && f[p].chr != 0;
      assert p in Alive(from, f, u);
      SameOffsetHalf(from, f, t, u, p);
      SameOffsetHalf(from, f, u, t, p);
    }
  }

  lemma MergeDenotes(from: seq<seq<Byte>>, f: seq<Follow>, bits: set<nat>, tableOffset: int, foundOffset: int,
                     t: seq<Byte>, u: seq<Byte>)
    requires Cells(from, f)
    requires Denotes(from, f, bits, tableOffset, foundOffset, t)
    requires !Final(from, f, u) && Bits(from, f, u) == bits
    ensures Denotes(from, f, bits, tableOffset, foundOffset, u)
  {
    MergeSafe(from, f, t, u);
  }

  // ---------------------------------------------------------------- one character more

  /** The set the construction works on: the state, and all starts unless a match is pending. */
  ghost function Open(from: seq<seq<Byte>>, f: seq<Follow>, t: seq<Byte>): set<nat>
    requires Cells(from, f)
  {
    Bits(from, f, t) + (if Best(from, t).None? then StartCells(f) else {})
  }

  /** Cells reached from `bits` by reading `c`. */
  ghost function Advance(f: seq<Follow>, bits: set<nat>, c: int): set<nat> {
    set p: nat | p in bits && 1 <= p < |f| && f[p].chr == c :: p + 1
  }

  /** Unfinished cells of `Open` are those that `t` ends with and that are not too late. */
  lemma OpenCell(from: seq<seq<Byte>>, f: seq<Follow>, t: seq<Byte>, p: nat)
    requires Cells(from, f) && 1 <= p < |f| && f[p].chr != 0
    ensures p in Open(from, f, t) <==> EndsWith(from, f[p], t) && NotLater(from, f[p], t)
  {
    TerminalBits(from, f, t);
    if Best(from, t).Some? {
      EndCellFacts(from, f, Best(from, t).value.which);
      assert from[Best(from, t).value.which] != [];
      assert p in Open(from, f, t) <==> IsAlive(from, f, t, p);
    } else if f[p].Matched() == 0 {
      assert p in StartCells(f);
    } else {
      assert p !in StartCells(f);
      assert p in Alive(from, f, t) <==> IsAlive(from, f, t, p);
      assert p in Open(from, f, t) <==> p in Alive(from, f, t);
    }
  }

  lemma EndsWithStep(from: seq<seq<Byte>>, f: seq<Follow>, t: seq<Byte>, c: Byte, p: nat)
    requires Cells(from, f) && 1 <= p < |f| && f[p].chr != 0
    ensures p + 1 < |f| && IsCell(from, f[p + 1])
    ensures EndsWith(from, f[p + 1], t + [c]) <==> EndsWith(from, f[p], t) && f[p].chr == c
  {
    var k := f[p].Matched();
    var s := from[f[p].tableOffset];
    assert Extends(f[p], f[p + 1]);
    if k <= |t| {
      var u := t + [c];
      assert u[|u| - (k + 1)..] == t[|t| - k..] + [c];
      assert s[..k + 1] == s[..k] + [s[k]];
      if t[|t| - k..] + [c] == s[..k] + [s[k]] {
        assert (t[|t| - k..] + [c])[..k] == (s[..k] + [s[k]])[..k];
        assert (t[|t| - k..] + [c])[k] == (s[..k] + [s[k]])[k];
      }
    }
  }

  /** Membership in `Advance`, read off the longer text. */
  lemma AdvanceCell(from: seq<seq<Byte>>, f: seq<Follow>, t: seq<Byte>, c: Byte, q: nat)
    requires Cells(from, f) && c != 0 && 1 <= q < |f|
    ensures q in Advance(f, Open(from, f, t), c) <==>
            && f[q].Matched() >= 1
            && EndsWith(from, f[q], t + [c])
            && (Best(from, t).Some? ==> |t| + 1 - Best(from, t).value.start <= f[q].Matched())
  {
    assert q in Advance(f, Open(from, f, t), c) ==> q > 1 && Extends(f[q - 1], f[q]);
    if f[q].Matched() >= 1 {
      assert q > 1 && Extends(f[q - 1], f[q]);
      assert IsCell(from, f[q - 1]);
      assert f[q - 1].chr != 0;
      OpenCell(from, f, t, q - 1);
      EndsWithStep(from, f, t, c, q - 1);
    }
  }

  /** An occurrence in the longer text is old, or ends with the new character. */
  lemma NewOccurrence(from: seq<seq<Byte>>, f: seq<Follow>, t: seq<Byte>, c: Byte, o: Occurrence)
    requires Cells(from, f) && c != 0
    requires OccursAt(from, t + [c], o)
    ensures OccursAt(from, t, o) ||
            (o.start + |from[o.which]| == |t| + 1 &&
             1 <= EndCell(from, o.which) < |f| &&
             EndsWith(from, f[EndCell(from, o.which)], t + [c]))
  {
    var n := |from[o.which]|;
    if o.start + n <= |t| {
      assert (t + [c])[o.start..o.start + n] == t[o.start..o.start + n];
    } else {
      EndsWithIsOccurrence(from, f, t + [c], o.which);
    }
  }

  lemma OldOccurrence(from: seq<seq<Byte>>, t: seq<Byte>, u: seq<Byte>, o: Occurrence)
    requires OccursAt(from, t, o) && t <= u
    ensures OccursAt(from, u, o)
  {
    var n := |from[o.which]|;
    assert u[o.start..o.start + n] == t[o.start..o.start + n];
  }

  /** No string is completed by `c`: the best occurrence stays. */
  lemma StepNothingCompleted(from: seq<seq<Byte>>, f: seq<Follow>, t: seq<Byte>, c: Byte)
    requires Cells(from, f) && c != 0
    requires forall q | q in Advance(f, Open(from, f, t), c) && 1 <= q < |f| :: f[q].chr != 0
    ensures Best(from, t + [c]) == Best(from, t)
    ensures Alive(from, f, t + [c]) == set q | q in Advance(f, Open(from, f, t), c) && 1 <= q < |f|
  {
    var u := t + [c];
    forall o | OccursAt(from, u, o)
      ensures OccursAt(from, t, o) || (Best(from, t).Some? && Best(from, t).value.start < o.start)
    {
      NewOccurrence(from, f, t, c, o);
      if !OccursAt(from, t, o) {
        var q := EndCell(from, o.which);
        EndCellFacts(from, f, o.which);
        AdvanceCell(from, f, t, c, q);
      }
    }
    if Best(from, t).Some? {
      OldOccurrence(from, t, u, Best(from, t).value);
      BestUnique(from, u, Best(from, t).value);
    }
    forall q: nat | 1 <= q < |f|
      ensures q in Advance(f, Open(from, f, t), c) <==> IsAlive(from, f, u, q)
    {
      AdvanceCell(from, f, t, c, q);
    }
  }

  /** Some string is completed by `c`: the longest, lowest one is the new best occurrence. */
  lemma StepCompleted(from: seq<seq<Byte>>, f: seq<Follow>, t: seq<Byte>, c: Byte, first: nat)
    requires Cells(from, f) && c != 0
    requires 1 <= first < |f| && first in Advance(f, Open(from, f, t), c) && f[first].chr == 0
    requires forall q | q in Advance(f, Open(from, f, t), c) && 1 <= q < |f| && f[q].chr == 0 ::
               f[q].Matched() < f[first].Matched() || (f[q].Matched() == f[first].Matched() && first <= q)
    ensures f[first].Matched() <= |t| + 1
    ensures Best(from, t + [c]) == Some(Occurrence(|t| + 1 - f[first].Matched(), f[first].tableOffset))
    ensures Best(from, t).Some? ==> |t| + 1 - Best(from, t).value.start <= f[first].Matched()
    ensures Alive(from, f, t + [c]) ==
            set q | q in Advance(f, Open(from, f, t), c) && 1 <= q < |f| &&
                    f[q].chr != 0 && f[first].Matched() <= f[q].Matched()
  {
    var u := t + [c];
    var n := f[first].Matched();
    AdvanceCell(from, f, t, c, first);
    EndCellUnique(from, f, first);
    EndCellFacts(from, f, f[first].tableOffset);
    EndsWithIsOccurrence(from, f, u, f[first].tableOffset);
    var b := Occurrence(|t| + 1 - n, f[first].tableOffset);
    forall o | OccursAt(from, u, o)
      ensures Preferred(from, b, o)
    {
      NewOccurrence(from, f, t, c, o);
      if OccursAt(from, t, o) {
        assert Preferred(from, Best(from, t).value, o);
      } else {
        var q := EndCell(from, o.which);
        EndCellFacts(from, f, o.which);
        AdvanceCell(from, f, t, c, q);
        if q in Advance(f, Open(from, f, t), c) && q > first {
          assert Before(f[first], f[q]);
        }
      }
    }
    BestUnique(from, u, b);
    forall q: nat | 1 <= q < |f|
      ensures q in Advance(f, Open(from, f, t), c) && f[q].chr != 0 && n <= f[q].Matched() <==> IsAlive(from, f, u, q)
    {
      AdvanceCell(from, f, t, c, q);
    }
  }

  /** An occurrence that reaches past `t` and starts early enough is alive in `t`. */
  lemma StraddlingIsAlive(from: seq<seq<Byte>>, f: seq<Follow>, t: seq<Byte>, u: seq<Byte>, o: Occurrence)
    requires Cells(from, f) && t <= u && OccursAt(from, u, o)
    requires o.start < |t| < o.start + |from[o.which]|
    requires Best(from, t).Some? ==> o.start <= Best(from, t).value.start
    ensures Alive(from, f, t) != {}
  {
    var k := |t| - o.start;
    CellOfCorrect(from, |from|, o.which, k);
    assert Plain(from[o.which]);
    assert t[o.start..] == u[o.start..o.start + |from[o.which]|][..k];
    assert IsAlive(from, f, t, CellOf(from, o.which, k));
    assert CellOf(from, o.which, k) in Alive(from, f, t);
  }

  /** Once a match is final, reading on cannot change it. */
  lemma FinalStays(from: seq<seq<Byte>>, f: seq<Follow>, t: seq<Byte>, u: seq<Byte>)
    requires Cells(from, f) && Final(from, f, t) && t <= u
    ensures Best(from, u) == Best(from, t)
  {
    var b := Best(from, t).value;
    assert from[b.which] != [];
    forall o | OccursAt(from, u, o)
      ensures Preferred(from, b, o)
    {
      var n := |from[o.which]|;
      if o.start + n <= |t| {
        assert u[o.start..o.start + n] == t[o.start..o.start + n];
        assert OccursAt(from, t, o);
      } else if o.start <= b.start {
        StraddlingIsAlive(from, f, t, u, o);
      }
    }
    OldOccurrence(from, t, u, b);
    BestUnique(from, u, b);
  }

  /** The empty text: every string may start, nothing is pending. */
  lemma EmptyText(from: seq<seq<Byte>>, f: seq<Follow>)
    requires Cells(from, f)
    ensures Best(from, []) == None && Alive(from, f, []) == {}
    ensures Bits(from, f, []) == StartCells(f)
  {
    forall o: Occurrence
      ensures !OccursAt(from, [], o)
    {
      assert o.which < |from| ==> from[o.which] != [];
    }
  }

  /** How far back the recorded match starts is bounded by the longest string. */
  lemma OffsetBound(from: seq<seq<Byte>>, f: seq<Follow>, t: seq<Byte>, maxLength: nat)
    requires Cells(from, f) && !Final(from, f, t) && Best(from, t).Some?
    requires forall i | 0 <= i < |from| :: |from[i]| <= maxLength
    ensures 1 <= |t| - Best(from, t).value.start < maxLength
  {
    var p :| p in Alive(from, f, t);
    assert IsCell(from, f[p]);
    var o := Best(from, t).value;
    assert from[o.which] != [];
  }
}
