/**
 The follow table of init_replace: one cell for every prefix of every from-string,
 in order, so that the cell after a cell is the prefix with one more character.
 A bit in a state set is the number of a cell.
 */
module FollowTable {
  import opened LeftmostLongest

  /** `chr` is the character expected next, 0 when the string is complete. */
  datatype Follow = Follow(chr: int, tableOffset: nat, len: nat) {
    /** Number of characters of the string already matched in this cell. */
    function Matched(): int {
      if chr == 0 then len else len - 1
    }
  }

  const BACKSLASH: Byte := 92

  /** A C string that replace treats literally. */
  predicate Plain(s: seq<Byte>) {
    0 !in s && BACKSLASH !in s
  }

  ghost predicate AllPlain(from: seq<seq<Byte>>) {
    forall i | 0 <= i < |from| :: Plain(from[i]) && from[i] != []
  }

  function Row(s: seq<Byte>, i: nat): (r: seq<Follow>) {
    seq(|s| + 1, k requires 0 <= k <= |s| => if k < |s| then Follow(s[k], i, k + 1) else Follow(0, i, |s|))
  }

  /** Cell 0 is never used. */
  function Table(from: seq<seq<Byte>>, n: nat): (r: seq<Follow>)
    requires n <= |from|
    ensures |r| >= 1
  {
    if n == 0 then [Follow(0, 0, 0)] else Table(from, n - 1) + Row(from[n - 1], n - 1)
  }

  /** Cell `c` is the one for the first `c.Matched()` characters of its string. */
  ghost predicate IsCell(from: seq<seq<Byte>>, c: Follow) {
    && c.tableOffset < |from|
    && 0 <= c.Matched() <= |from[c.tableOffset]|
    && c.chr == (if c.Matched() < |from[c.tableOffset]| then from[c.tableOffset][c.Matched()] else 0)
    && (c.chr == 0 ==> c.Matched() == |from[c.tableOffset]|)
  }

  predicate Before(c: Follow, d: Follow) {
    c.tableOffset < d.tableOffset || (c.tableOffset == d.tableOffset && c.Matched() < d.Matched())
  }

  /** The cell that extends `c` by one character. */
  predicate Extends(c: Follow, d: Follow) {
    d.tableOffset == c.tableOffset && d.Matched() == c.Matched() + 1
  }

  ghost predicate WellFormed(from: seq<seq<Byte>>, n: nat, f: seq<Follow>) {
    && |f| >= 1
    && (forall p | 1 <= p < |f| :: IsCell(from, f[p]) && f[p].tableOffset < n)
    && (forall p | 1 <= p < |f| && f[p].chr != 0 :: p + 1 < |f| && Extends(f[p], f[p + 1]))
    && (forall p | 1 <= p < |f| && f[p].Matched() > 0 :: p > 1 && Extends(f[p - 1], f[p]))
    && (forall p, q | 1 <= p < q < |f| :: Before(f[p], f[q]))
  }

  lemma {:induction false} TableWellFormed(from: seq<seq<Byte>>, n: nat)
    requires n <= |from| && AllPlain(from)
    ensures WellFormed(from, n, Table(from, n))
  {
    if n > 0 {
      TableWellFormed(from, n - 1);
      var f, t := Table(from, n - 1), Table(from, n);
      AppendCells(from, n - 1, f, t);
      AppendSteps(from, n - 1, f, t);
    }
  }

  lemma RowCells(from: seq<seq<Byte>>, i: nat)
    requires i < |from| && AllPlain(from)
    ensures forall k | 0 <= k <= |from[i]| ::
              var c := Row(from[i], i)[k];
              IsCell(from, c) && c.Matched() == k && c.tableOffset == i && (c.chr != 0 <==> k < |from[i]|)
  {
    assert Plain(from[i]);
  }

  lemma AppendCells(from: seq<seq<Byte>>, i: nat, f: seq<Follow>, t: seq<Follow>)
    requires i < |from| && AllPlain(from) && WellFormed(from, i, f) && t == f + Row(from[i], i)
    ensures forall p | 1 <= p < |t| :: IsCell(from, t[p]) && t[p].tableOffset < i + 1
    ensures forall p, q | 1 <= p < q < |t| :: Before(t[p], t[q])
  {
    RowCells(from, i);
    var r := Row(from[i], i);
    forall p | 1 <= p < |t|
      ensures IsCell(from, t[p]) && t[p].tableOffset < i + 1
      ensures p >= |f| ==> t[p].tableOffset == i && t[p].Matched() == p - |f|
    {
      if p >= |f| {
        assert t[p] == r[p - |f|];
      }
    }
  }

  lemma AppendSteps(from: seq<seq<Byte>>, i: nat, f: seq<Follow>, t: seq<Follow>)
    requires i < |from| && AllPlain(from) && WellFormed(from, i, f) && t == f + Row(from[i], i)
    ensures forall p | 1 <= p < |t| && t[p].chr != 0 :: p + 1 < |t| && Extends(t[p], t[p + 1])
    ensures forall p | 1 <= p < |t| && t[p].Matched() > 0 :: p > 1 && Extends(t[p - 1], t[p])
  {
    RowCells(from, i);
    var r := Row(from[i], i);
    forall p | 1 <= p < |t| && t[p].chr != 0
      ensures p + 1 < |t| && Extends(t[p], t[p + 1])
    {
      if p >= |f| {
        assert t[p] == r[p - |f|] && t[p + 1] == r[p + 1 - |f|];
      } else {
        assert t[p] == f[p] && t[p + 1] == f[p + 1];
      }
    }
    forall p | 1 <= p < |t| && t[p].Matched() > 0
      ensures p > 1 && Extends(t[p - 1], t[p])
    {
      if p >= |f| {
        assert t[p] == r[p - |f|] && t[p - 1] == r[p - 1 - |f|];
      } else {
        assert t[p] == f[p] && t[p - 1] == f[p - 1];
      }
    }
  }

  /** Where the cell for the first `k` characters of string `i` is. */
  function CellOf(from: seq<seq<Byte>>, i: nat, k: nat): (p: nat)
    requires i < |from| && k <= |from[i]|
  {
    |Table(from, i)| + k
  }

  lemma {:induction false} CellOfCorrect(from: seq<seq<Byte>>, n: nat, i: nat, k: nat)
    requires i < n <= |from| && k <= |from[i]| && AllPlain(from)
    ensures 1 <= CellOf(from, i, k) < |Table(from, n)|
    ensures Table(from, n)[CellOf(from, i, k)] == Row(from[i], i)[k]
    ensures Row(from[i], i)[k].tableOffset == i && Row(from[i], i)[k].Matched() == k
    decreases n
  {
    assert Plain(from[i]);
    if i < n - 1 {
      CellOfCorrect(from, n - 1, i, k);
    }
  }

  /** Cells are determined by their string and prefix length. */
  lemma CellUnique(from: seq<seq<Byte>>, n: nat, f: seq<Follow>, p: nat, q: nat)
    requires WellFormed(from, n, f) && 1 <= p < |f| && 1 <= q < |f|
    requires f[p].tableOffset == f[q].tableOffset && f[p].Matched() == f[q].Matched()
    ensures p == q
  {
    assert p < q ==> Before(f[p], f[q]);
    assert q < p ==> Before(f[q], f[p]);
  }

  /** The loop of init_replace that fills the table. */
  method BuildFollow(from: seq<seq<Byte>>) returns (follow: seq<Follow>, starts: set<nat>)
    requires AllPlain(from)
    ensures follow == Table(from, |from|)
    ensures starts == set p | 1 <= p < |follow| && follow[p].Matched() == 0
  {
    follow := [Follow(0, 0, 0)];
    starts := {};
    for i := 0 to |from|
      invariant follow == Table(from, i)
      invariant starts == set p | 1 <= p < |follow| && follow[p].Matched() == 0
    {
      ghost var before := follow;
      starts := starts + {|follow|};
      var len := 0;
      while len < |from[i]|
        invariant 0 <= len <= |from[i]|
        invariant follow == before + Row(from[i], i)[..len]
      {
        follow := follow + [Follow(from[i][len], i, len + 1)];
        len := len + 1;
        assert Row(from[i], i)[..len] == Row(from[i], i)[..len - 1] + [Row(from[i], i)[len - 1]];
      }
      follow := follow + [Follow(0, i, len)];
      assert Row(from[i], i) == Row(from[i], i)[..len] + [Row(from[i], i)[len]];
      assert follow == before + Row(from[i], i);
      StartsGrow(from, i, before, follow);
    }
  }

  lemma StartsGrow(from: seq<seq<Byte>>, i: nat, f: seq<Follow>, g: seq<Follow>)
    requires i < |from| && AllPlain(from) && |f| >= 1 && g == f + Row(from[i], i)
    ensures (set p | 1 <= p < |g| && g[p].Matched() == 0) ==
            (set p | 1 <= p < |f| && f[p].Matched() == 0) + {|f|}
  {
    assert Plain(from[i]);
    forall p | |f| <= p < |g|
      ensures g[p].Matched() == p - |f|
    {
    }
  }
}
