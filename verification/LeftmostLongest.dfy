/**
 Reference meaning of the replace utility: among all occurrences of the
 from-strings in a text, the one that starts first is replaced; among those that
 start together the longest wins, and among equal strings the one given first.
 Nothing here refers to the automaton.
 */
module LeftmostLongest {
  import opened Wrappers

  type Byte = x: int | 0 <= x < 256

  /** An occurrence of `from[which]` that begins at `start`. */
  datatype Occurrence = Occurrence(start: nat, which: nat)

  predicate OccursAt(from: seq<seq<Byte>>, t: seq<Byte>, o: Occurrence) {
    && o.which < |from|
    && o.start + |from[o.which]| <= |t|
    && t[o.start..o.start + |from[o.which]|] == from[o.which]
  }

  /** Earlier start first, then longer string, then lower index. */
  predicate Preferred(from: seq<seq<Byte>>, a: Occurrence, b: Occurrence)
    requires a.which < |from| && b.which < |from|
  {
    || a.start < b.start
    || (a.start == b.start &&
        (|from[a.which]| > |from[b.which]| || (|from[a.which]| == |from[b.which]| && a.which <= b.which)))
  }

  ghost predicate IsBest(from: seq<seq<Byte>>, t: seq<Byte>, o: Occurrence) {
    && OccursAt(from, t, o)
    && forall o' :: OccursAt(from, t, o') ==> Preferred(from, o, o')
  }

  /** The preferred string among the first `n` that occur at `s`. */
  function LongestAt(from: seq<seq<Byte>>, t: seq<Byte>, s: nat, n: nat): (r: Option<nat>)
    requires n <= |from|
    ensures r.None? ==> forall i | 0 <= i < n :: !OccursAt(from, t, Occurrence(s, i))
    ensures r.Some? ==>
              && r.value < n
              && OccursAt(from, t, Occurrence(s, r.value))
              && forall i | 0 <= i < n && OccursAt(from, t, Occurrence(s, i)) ::
                   Preferred(from, Occurrence(s, r.value), Occurrence(s, i))
  {
    if n == 0 then None
    else
      var r := LongestAt(from, t, s, n - 1);
      if OccursAt(from, t, Occurrence(s, n - 1)) && (r.None? || |from[r.value]| < |from[n - 1]|)
      then Some(n - 1) else r
  }

  function FirstFrom(from: seq<seq<Byte>>, t: seq<Byte>, s: nat): (r: Option<Occurrence>)
    requires s <= |t| + 1
    ensures r.None? ==> forall o | OccursAt(from, t, o) :: o.start < s
    ensures r.Some? ==>
              && s <= r.value.start
              && OccursAt(from, t, r.value)
              && forall o | OccursAt(from, t, o) && s <= o.start :: Preferred(from, r.value, o)
    decreases |t| + 1 - s
  {
    if s == |t| + 1 then None
    else
      var r := LongestAt(from, t, s, |from|);
      if r.Some? then
        assert forall o | OccursAt(from, t, o) && o.start == s :: o == Occurrence(s, o.which);
        Some(Occurrence(s, r.value))
      else
        assert forall o | OccursAt(from, t, o) && o.start == s :: o == Occurrence(s, o.which);
        FirstFrom(from, t, s + 1)
  }

  /** The occurrence to replace in `t`, if `t` has any. */
  ghost function Best(from: seq<seq<Byte>>, t: seq<Byte>): (r: Option<Occurrence>)
    ensures r.None? <==> forall o :: !OccursAt(from, t, o)
    ensures r.Some? ==> IsBest(from, t, r.value)
  {
    FirstIsBest(from, t);
    if exists o :: IsBest(from, t, o) then
      var o :| IsBest(from, t, o);
      Some(o)
    else None
  }

  /** Trying the start positions from left to right finds it. */
  lemma FirstIsBest(from: seq<seq<Byte>>, t: seq<Byte>)
    ensures FirstFrom(from, t, 0).None? ==> forall o :: !OccursAt(from, t, o)
    ensures FirstFrom(from, t, 0).Some? ==> IsBest(from, t, FirstFrom(from, t, 0).value)
  {
  }

  lemma BestUnique(from: seq<seq<Byte>>, t: seq<Byte>, o: Occurrence)
    requires IsBest(from, t, o)
    ensures Best(from, t) == Some(o)
  {
    var b := Best(from, t);
    assert Preferred(from, o, b.value) && Preferred(from, b.value, o);
  }

  /** What the whole program computes for one line. */
  ghost function ReplaceAll(from: seq<seq<Byte>>, to: seq<seq<Byte>>, line: seq<Byte>): seq<Byte>
    requires |from| == |to|
    requires forall i | 0 <= i < |from| :: from[i] != []
    decreases |line|
  {
    match Best(from, line)
    case None => line
    case Some(o) =>
      line[..o.start] + to[o.which] + ReplaceAll(from, to, line[o.start + |from[o.which]|..])
  }

  /** Replacing every string by itself leaves a line as it is. */
  lemma {:induction false} ReplacedByItself(from: seq<seq<Byte>>, line: seq<Byte>)
    requires forall i | 0 <= i < |from| :: from[i] != []
    ensures ReplaceAll(from, from, line) == line
    decreases |line|
  {
    var best := Best(from, line);
    if best.Some? {
      var s, e := best.value.start, best.value.start + |from[best.value.which]|;
      ReplacedByItself(from, line[e..]);
      assert line == line[..s] + line[s..e] + line[e..];
    }
  }

  // ---------------------------------------------------------------- the replacement piece by piece

  /** Where the first `i` of the occurrences `os` end. */
  ghost function EndOf(from: seq<seq<Byte>>, os: seq<Occurrence>, i: nat): nat
    requires i <= |os|
  {
    if i == 0 || os[i - 1].which >= |from| then 0 else os[i - 1].start + |from[os[i - 1].which]|
  }

  /**
   Occurrence `i` is the best one behind the one before it, and between `cuts[i]` and `cuts[i + 1]` the output has
   what the line has between them and then the string for the occurrence.
   */
  ghost predicate Piece(from: seq<seq<Byte>>, to: seq<seq<Byte>>, line: seq<Byte>, os: seq<Occurrence>,
                        cuts: seq<nat>, out: seq<Byte>, i: nat)
    requires |from| == |to| && i < |os| && |cuts| == |os| + 1
  {
    var b, o := EndOf(from, os, i), os[i];
    && o.which < |from| && b <= o.start && EndOf(from, os, i + 1) <= |line| && cuts[i] <= cuts[i + 1] <= |out|
    && IsBest(from, line[b..], Occurrence(o.start - b, o.which))
    && out[cuts[i]..cuts[i + 1]] == line[b..o.start] + to[o.which]
  }

  ghost predicate Pieces(from: seq<seq<Byte>>, to: seq<seq<Byte>>, line: seq<Byte>, os: seq<Occurrence>,
                         cuts: seq<nat>, out: seq<Byte>)
    requires |from| == |to|
  {
    && |cuts| == |os| + 1 && cuts[0] == 0 && cuts[|os|] <= |out| && EndOf(from, os, |os|) <= |line|
    && forall i | 0 <= i < |os| :: Piece(from, to, line, os, cuts, out, i)
  }

  /** Behind the last occurrence there is no other, and the rest of the output is that rest of the line. */
  ghost predicate Replaced(from: seq<seq<Byte>>, to: seq<seq<Byte>>, line: seq<Byte>, os: seq<Occurrence>,
                           cuts: seq<nat>, out: seq<Byte>)
    requires |from| == |to|
  {
    && Pieces(from, to, line, os, cuts, out)
    && (forall o :: !OccursAt(from, line[EndOf(from, os, |os|)..], o))
    && out[cuts[|os|]..] == line[EndOf(from, os, |os|)..]
  }

  /** `out` is the line with occurrences replaced in this way. */
  ghost predicate IsReplacement(from: seq<seq<Byte>>, to: seq<seq<Byte>>, line: seq<Byte>, out: seq<Byte>)
    requires |from| == |to|
  {
    exists os, cuts :: Replaced(from, to, line, os, cuts, out)
  }

  lemma BestInside(from: seq<seq<Byte>>, rest: seq<Byte>, o: Occurrence)
    requires (forall i | 0 <= i < |from| :: from[i] != []) && Best(from, rest) == Some(o)
    ensures o.start + |from[o.which]| <= |rest| && from[o.which] != []
  {
  }

  /** The output for the rest of a line, once its next occurrence is known. */
  lemma Unfold(from: seq<seq<Byte>>, to: seq<seq<Byte>>, rest: seq<Byte>, o: Occurrence, m: nat)
    requires |from| == |to| && (forall i | 0 <= i < |from| :: from[i] != []) && Best(from, rest) == Some(o)
    requires m == o.start + |from[o.which]| <= |rest|
    ensures ReplaceAll(from, to, rest) == rest[..o.start] + to[o.which] + ReplaceAll(from, to, rest[m..])
  {
  }

  /** `f` replaces the best occurrence of `rest` and goes on behind it. */
  ghost predicate StepOf(from: seq<seq<Byte>>, to: seq<seq<Byte>>, f: seq<Byte> -> seq<Byte>, rest: seq<Byte>)
    requires |from| == |to|
  {
    var best := Best(from, rest);
    if best.None? then f(rest) == rest
    else
      var o := best.value;
      f(rest) == rest[..o.start] + to[o.which] + f(rest[o.start + |from[o.which]|..])
  }

  ghost predicate Replaces(from: seq<seq<Byte>>, to: seq<seq<Byte>>, f: seq<Byte> -> seq<Byte>) {
    && |from| == |to| && (forall i | 0 <= i < |from| :: from[i] != [])
    && forall rest {:trigger StepOf(from, to, f, rest)} :: StepOf(from, to, f, rest)
  }

  lemma ReplaceAllReplaces(from: seq<seq<Byte>>, to: seq<seq<Byte>>, f: seq<Byte> -> seq<Byte>)
    requires |from| == |to| && forall i | 0 <= i < |from| :: from[i] != []
    requires forall line :: f(line) == ReplaceAll(from, to, line)
    ensures Replaces(from, to, f)
  {
    forall rest
      ensures StepOf(from, to, f, rest)
    {
      var best := Best(from, rest);
      if best.Some? {
        Unfold(from, to, rest, best.value, best.value.start + |from[best.value.which]|);
      }
    }
  }

  lemma Slices(line: seq<Byte>, b: nat, s: nat, e: nat)
    requires b <= s <= e <= |line|
    ensures line[b..][..s - b] == line[b..s] && line[b..][e - b..] == line[e..]
  {
  }

  lemma OneReplaced(from: seq<seq<Byte>>, to: seq<seq<Byte>>, f: seq<Byte> -> seq<Byte>, line: seq<Byte>, b: nat,
                    rest: seq<Byte>, o: Occurrence)
    requires Replaces(from, to, f) && b <= |line| && rest == line[b..]
    requires o.which < |from| && b <= o.start && IsBest(from, rest, Occurrence(o.start - b, o.which))
    ensures var e := o.start + |from[o.which]|;
            b < e <= |line| && f(rest) == line[b..o.start] + to[o.which] + f(line[e..])
  {
    var e, o' := o.start + |from[o.which]|, Occurrence(o.start - b, o.which);
    BestUnique(from, rest, o');
    BestInside(from, rest, o');
    assert StepOf(from, to, f, rest);
    Slices(line, b, o.start, e);
  }

  /** Between two cuts the output has the piece `p`, which is also what `rest` has before `rest'`. */
  ghost predicate Joins(out: seq<Byte>, c: nat, c': nat, p: seq<Byte>, rest: seq<Byte>, rest': seq<Byte>) {
    c <= c' <= |out| && out[c..c'] == p && rest == p + rest'
  }

  lemma JoinPiece(all: seq<Byte>, out: seq<Byte>, c: nat, c': nat, p: seq<Byte>, rest: seq<Byte>, rest': seq<Byte>)
    requires Joins(out, c, c', p, rest, rest') && all == out[..c] + rest
    ensures all == out[..c'] + rest'
  {
    assert out[..c'] == out[..c] + out[c..c'];
  }

  lemma {:induction false} JoinPieces(out: seq<Byte>, cuts: seq<nat>, ps: seq<seq<Byte>>, rests: seq<seq<Byte>>, n: nat)
    requires |cuts| == |rests| == |ps| + 1 && cuts[0] == 0 && n <= |ps|
    requires forall i | 0 <= i < |ps| :: Joins(out, cuts[i], cuts[i + 1], ps[i], rests[i], rests[i + 1])
    ensures cuts[n] <= |out| && rests[0] == out[..cuts[n]] + rests[n]
  {
    if n > 0 {
      JoinPieces(out, cuts, ps, rests, n - 1);
      assert Joins(out, cuts[n - 1], cuts[n], ps[n - 1], rests[n - 1], rests[n]);
      JoinPiece(rests[0], out, cuts[n - 1], cuts[n], ps[n - 1], rests[n - 1], rests[n]);
    }
  }

  ghost function PieceOf(from: seq<seq<Byte>>, to: seq<seq<Byte>>, line: seq<Byte>, os: seq<Occurrence>, i: nat):
      seq<Byte>
    requires i < |os|
  {
    var b, o := EndOf(from, os, i), os[i];
    if b <= o.start <= |line| && o.which < |to| then line[b..o.start] + to[o.which] else []
  }

  /** The line behind the first `i` occurrences. */
  ghost function RestOf(from: seq<seq<Byte>>, line: seq<Byte>, os: seq<Occurrence>, i: nat): seq<Byte>
    requires i <= |os|
  {
    var b := EndOf(from, os, i);
    if b <= |line| then line[b..] else []
  }

  lemma PieceJoins(from: seq<seq<Byte>>, to: seq<seq<Byte>>, f: seq<Byte> -> seq<Byte>, line: seq<Byte>,
                   os: seq<Occurrence>, cuts: seq<nat>, out: seq<Byte>, i: nat)
    requires Replaces(from, to, f) && i < |os| && |cuts| == |os| + 1 && Piece(from, to, line, os, cuts, out, i)
    ensures Joins(out, cuts[i], cuts[i + 1], PieceOf(from, to, line, os, i), f(RestOf(from, line, os, i)),
                  f(RestOf(from, line, os, i + 1)))
  {
    OneReplaced(from, to, f, line, EndOf(from, os, i), RestOf(from, line, os, i), os[i]);
  }

  /** The pieces are what replacing gives. */
  lemma PiecesAre(from: seq<seq<Byte>>, to: seq<seq<Byte>>, f: seq<Byte> -> seq<Byte>, line: seq<Byte>,
                  os: seq<Occurrence>, cuts: seq<nat>, out: seq<Byte>)
    requires Replaces(from, to, f) && Pieces(from, to, line, os, cuts, out)
    ensures f(RestOf(from, line, os, 0)) == out[..cuts[|os|]] + f(RestOf(from, line, os, |os|))
  {
    var ps := seq(|os|, i requires 0 <= i < |os| => PieceOf(from, to, line, os, i));
    var rests := seq(|os| + 1, i requires 0 <= i <= |os| => f(RestOf(from, line, os, i)));
    forall i | 0 <= i < |os|
      ensures Joins(out, cuts[i], cuts[i + 1], ps[i], rests[i], rests[i + 1])
    {
      PieceJoins(from, to, f, line, os, cuts, out, i);
    }
    JoinPieces(out, cuts, ps, rests, |os|);
  }

  /** One more piece. */
  lemma PieceMore(from: seq<seq<Byte>>, to: seq<seq<Byte>>, line: seq<Byte>, os: seq<Occurrence>, cuts: seq<nat>,
                  out: seq<Byte>, o: Occurrence)
    requires |from| == |to| && Pieces(from, to, line, os, cuts, out) && cuts[|os|] == |out| && o.which < |from|
    requires var b := EndOf(from, os, |os|);
             b <= o.start && IsBest(from, line[b..], Occurrence(o.start - b, o.which))
    ensures var out' := out + line[EndOf(from, os, |os|)..o.start] + to[o.which];
            Pieces(from, to, line, os + [o], cuts + [|out'|], out') && EndOf(from, os + [o], |os| + 1) ==
            o.start + |from[o.which]|
  {
    var n, b := |os|, EndOf(from, os, |os|);
    var out' := out + line[b..o.start] + to[o.which];
    var os', cuts' := os + [o], cuts + [|out'|];
    forall i | 0 <= i < |os'|
      ensures Piece(from, to, line, os', cuts', out', i)
    {
      assert EndOf(from, os', i) == EndOf(from, os, i);
      if i < n {
        assert Piece(from, to, line, os, cuts, out, i);
        assert EndOf(from, os', i + 1) == EndOf(from, os, i + 1);
        assert out'[cuts[i]..cuts[i + 1]] == out[cuts[i]..cuts[i + 1]];
      }
    }
  }

  /** No more pieces. */
  lemma LastPiece(from: seq<seq<Byte>>, to: seq<seq<Byte>>, line: seq<Byte>, os: seq<Occurrence>, cuts: seq<nat>,
                  out: seq<Byte>)
    requires |from| == |to| && Pieces(from, to, line, os, cuts, out) && cuts[|os|] == |out|
    requires forall o :: !OccursAt(from, line[EndOf(from, os, |os|)..], o)
    ensures Replaced(from, to, line, os, cuts, out + line[EndOf(from, os, |os|)..])
  {
    var all := out + line[EndOf(from, os, |os|)..];
    forall i | 0 <= i < |os|
      ensures Piece(from, to, line, os, cuts, all, i)
    {
      assert Piece(from, to, line, os, cuts, out, i);
      assert all[cuts[i]..cuts[i + 1]] == out[cuts[i]..cuts[i + 1]];
    }
  }

  lemma Regrouped(out: seq<Byte>, a: seq<Byte>, t: seq<Byte>, rest: seq<Byte>)
    ensures out + (a + t + rest) == out + a + t + rest
  {
  }

  /** The next piece, if there is another occurrence. */
  lemma NextPiece(from: seq<seq<Byte>>, to: seq<seq<Byte>>, f: seq<Byte> -> seq<Byte>, line: seq<Byte>,
                  os: seq<Occurrence>, cuts: seq<nat>, out: seq<Byte>, rest: seq<Byte>)
    returns (o: Occurrence, out': seq<Byte>)
    requires Replaces(from, to, f) && Pieces(from, to, line, os, cuts, out) && cuts[|os|] == |out|
    requires rest == RestOf(from, line, os, |os|) && Best(from, rest).Some?
    ensures Pieces(from, to, line, os + [o], cuts + [|out'|], out')
    ensures EndOf(from, os, |os|) < EndOf(from, os + [o], |os| + 1) <= |line|
    ensures out + f(rest) == out' + f(RestOf(from, line, os + [o], |os| + 1))
  {
    var b, best := EndOf(from, os, |os|), Best(from, rest).value;
    o := Occurrence(b + best.start, best.which);
    OneReplaced(from, to, f, line, b, rest, o);
    PieceMore(from, to, line, os, cuts, out, o);
    out' := out + line[b..o.start] + to[o.which];
    Regrouped(out, line[b..o.start], to[o.which], f(line[o.start + |from[o.which]|..]));
  }

  /** Replacing from the end of some pieces on. */
  lemma {:induction false} PiecesExtend(from: seq<seq<Byte>>, to: seq<seq<Byte>>, f: seq<Byte> -> seq<Byte>,
                                        line: seq<Byte>, os: seq<Occurrence>, cuts: seq<nat>, out: seq<Byte>)
    requires Replaces(from, to, f) && Pieces(from, to, line, os, cuts, out) && cuts[|os|] == |out|
    ensures IsReplacement(from, to, line, out + f(RestOf(from, line, os, |os|)))
    decreases |line| - EndOf(from, os, |os|)
  {
    var rest := RestOf(from, line, os, |os|);
    if Best(from, rest).None? {
      assert StepOf(from, to, f, rest);
      LastPiece(from, to, line, os, cuts, out);
    } else {
      var o, out' := NextPiece(from, to, f, line, os, cuts, out, rest);
      PiecesExtend(from, to, f, line, os + [o], cuts + [|out'|], out');
    }
  }

  lemma ReplacedIs(from: seq<seq<Byte>>, to: seq<seq<Byte>>, f: seq<Byte> -> seq<Byte>, line: seq<Byte>,
                   os: seq<Occurrence>, cuts: seq<nat>, out: seq<Byte>)
    requires Replaces(from, to, f) && Replaced(from, to, line, os, cuts, out)
    ensures out == f(RestOf(from, line, os, 0))
  {
    PiecesAre(from, to, f, line, os, cuts, out);
    assert StepOf(from, to, f, RestOf(from, line, os, |os|));
    assert out == out[..cuts[|os|]] + out[cuts[|os|]..];
  }

  /**
   The output is that of the program exactly if it consists of the pieces of the line between occurrences, each of
   these the best one behind the one before it, with the to-strings in their places.
   */
  lemma ReplacedExactly(from: seq<seq<Byte>>, to: seq<seq<Byte>>, line: seq<Byte>, out: seq<Byte>)
    requires |from| == |to| && forall i | 0 <= i < |from| :: from[i] != []
    ensures out == ReplaceAll(from, to, line) <==> IsReplacement(from, to, line, out)
  {
    var f := (t: seq<Byte>) => ReplaceAll(from, to, t);
    ReplaceAllReplaces(from, to, f);
    assert line[0..] == line && [] + f(line) == f(line);
    PiecesExtend(from, to, f, line, [], [0], []);
    if IsReplacement(from, to, line, out) {
      var os, cuts :| Replaced(from, to, line, os, cuts, out);
      ReplacedIs(from, to, f, line, os, cuts, out);
    }
  }
}
