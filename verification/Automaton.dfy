/** The parts of the automaton: its state sets, its found table, and the bits that follow a state. */
module Automaton {
  import opened Wrappers
  import opened LeftmostLongest
  import opened FollowTable
  import opened MatchStates

  /** `tableOffset` is -1 while no string has been found. */
  datatype RepSet = RepSet(bits: set<nat>, next: seq<int>, foundLen: nat, foundOffset: int, tableOffset: int)

  datatype FoundSet = FoundSet(tableOffset: int, foundOffset: int)

  ghost predicate Den(from: seq<seq<Byte>>, f: seq<Follow>, s: RepSet, t: seq<Byte>)
    requires Cells(from, f)
  {
    Denotes(from, f, s.bits, s.tableOffset, s.foundOffset, t)
  }

  // ---------------------------------------------------------------- meaning of next[]

  /** `n` encodes the found entry for string `which`, first character `offset` back. */
  predicate IsFound(found: seq<FoundSet>, n: int, which: int, offset: int) {
    n <= -2 && -n - 2 < |found| && found[-n - 2] == FoundSet(which, offset)
  }

  /** `n` is the right target once the text `u` has been read. */
  ghost predicate Leads(from: seq<seq<Byte>>, f: seq<Follow>, sets: seq<RepSet>, found: seq<FoundSet>,
                        n: int, u: seq<Byte>)
    requires Cells(from, f)
  {
    if Final(from, f, u)
    then IsFound(found, n, Best(from, u).value.which, |u| - Best(from, u).value.start)
    else 0 <= n < |sets| && Den(from, f, sets[n], u)
  }

  /** `n` is the right target when the line ends after `t`. */
  ghost predicate Stops(from: seq<seq<Byte>>, found: seq<FoundSet>, n: int, t: seq<Byte>) {
    match Best(from, t)
    case None => n == -1
    case Some(o) => IsFound(found, n, o.which, |t| + 1 - o.start)
  }

  ghost predicate Target(from: seq<seq<Byte>>, f: seq<Follow>, sets: seq<RepSet>, found: seq<FoundSet>,
                         n: int, t: seq<Byte>, c: Byte)
    requires Cells(from, f)
  {
    if c == 0 then Stops(from, found, n, t) else Leads(from, f, sets, found, n, t + [c])
  }

  /** `n` is right for every text that the state `s` may stand for. */
  ghost predicate TargetAll(from: seq<seq<Byte>>, f: seq<Follow>, sets: seq<RepSet>, found: seq<FoundSet>,
                            s: RepSet, n: int, c: Byte)
    requires Cells(from, f)
  {
    forall t | Den(from, f, s, t) :: Target(from, f, sets, found, n, t, c)
  }

  // ---------------------------------------------------------------- invariant of the tables

  ghost predicate Represented(from: seq<seq<Byte>>, f: seq<Follow>, s: RepSet)
    requires Cells(from, f)
  {
    exists t :: Den(from, f, s, t)
  }

  /** The sets beyond the two initial ones have bits of their own. */
  ghost predicate DistinctBits(sets: seq<RepSet>) {
    forall a, b | 0 <= a < b < |sets| && 2 <= b :: sets[a].bits != sets[b].bits
  }

  ghost predicate GoodSets(from: seq<seq<Byte>>, f: seq<Follow>, sets: seq<RepSet>)
    requires Cells(from, f)
  {
    && 2 <= |sets|
    && Den(from, f, sets[0], []) && Den(from, f, sets[1], [])
    && (forall q | 0 <= q < |sets| :: Represented(from, f, sets[q]))
    && DistinctBits(sets)
  }

  ghost predicate GoodFound(from: seq<seq<Byte>>, found: seq<FoundSet>, maxLength: nat) {
    && (forall a, b | 0 <= a < b < |found| :: found[a] != found[b])
    && (forall a | 0 <= a < |found| ::
          0 <= found[a].tableOffset < |from| && 1 <= found[a].foundOffset <= maxLength)
  }

  /** Every transition of state `s` is in place. */
  ghost predicate Complete(from: seq<seq<Byte>>, f: seq<Follow>, sets: seq<RepSet>, found: seq<FoundSet>, s: RepSet)
    requires Cells(from, f)
  {
    |s.next| == 256 && forall c: Byte :: TargetAll(from, f, sets, found, s, s.next[c], c)
  }

  /** Old states keep what they stand for when `sets` grows to `sets'`. */
  ghost predicate Grows(sets: seq<RepSet>, sets': seq<RepSet>) {
    && |sets| <= |sets'|
    && forall q | 0 <= q < |sets| ::
         && sets[q].bits == sets'[q].bits
         && sets[q].tableOffset == sets'[q].tableOffset
         && sets[q].foundOffset == sets'[q].foundOffset
  }

  lemma TargetGrows(from: seq<seq<Byte>>, f: seq<Follow>, sets: seq<RepSet>, sets': seq<RepSet>,
                    found: seq<FoundSet>, found': seq<FoundSet>, s: RepSet, n: int, c: Byte)
    requires Cells(from, f) && Grows(sets, sets') && found <= found'
    requires TargetAll(from, f, sets, found, s, n, c)
    ensures TargetAll(from, f, sets', found', s, n, c)
  {
    forall t | Den(from, f, s, t)
      ensures Target(from, f, sets', found', n, t, c)
    {
      assert Target(from, f, sets, found, n, t, c);
    }
  }

  // ---------------------------------------------------------------- the found table fits

  ghost function Grid(count: nat, maxLength: nat): set<FoundSet> {
    if count == 0 then {} else Grid(count - 1, maxLength) + Column(count - 1, maxLength)
  }

  ghost function Column(i: nat, n: nat): set<FoundSet> {
    if n == 0 then {} else Column(i, n - 1) + {FoundSet(i, n)}
  }

  lemma {:induction false} ColumnMembers(i: nat, n: nat, e: FoundSet)
    ensures e in Column(i, n) <==> e.tableOffset == i && 1 <= e.foundOffset <= n
  {
    if n > 0 {
      ColumnMembers(i, n - 1, e);
    }
  }

  lemma {:induction false} ColumnSize(i: nat, n: nat)
    ensures |Column(i, n)| == n
  {
    if n > 0 {
      ColumnSize(i, n - 1);
      ColumnMembers(i, n - 1, FoundSet(i, n));
    }
  }

  lemma {:induction false} GridMembers(count: nat, n: nat, e: FoundSet)
    ensures e in Grid(count, n) <==> 0 <= e.tableOffset < count && 1 <= e.foundOffset <= n
  {
    if count > 0 {
      GridMembers(count - 1, n, e);
      ColumnMembers(count - 1, n, e);
    }
  }

  lemma {:induction false} GridSize(count: nat, n: nat)
    ensures |Grid(count, n)| == count * n
  {
    if count > 0 {
      var a, b := Grid(count - 1, n), Column(count - 1, n);
      forall e | e in a
        ensures e !in b
      {
        GridMembers(count - 1, n, e);
        ColumnMembers(count - 1, n, e);
      }
      assert |a + b| == |a| + |b|;
      GridSize(count - 1, n);
      ColumnSize(count - 1, n);
      assert count * n == (count - 1) * n + n;
    }
  }

  lemma {:induction false} DistinctFits<T>(s: seq<T>, u: set<T>)
    requires forall a, b | 0 <= a < b < |s| :: s[a] != s[b]
    requires forall a | 0 <= a < |s| :: s[a] in u
    ensures |s| <= |u|
  {
    if |s| > 0 {
      DistinctFits(s[..|s| - 1], u - {s[|s| - 1]});
    }
  }

  /** The array allocated for max_length * count found entries is never overrun. */
  lemma FoundFits(from: seq<seq<Byte>>, found: seq<FoundSet>, maxLength: nat)
    requires GoodFound(from, found, maxLength)
    ensures |found| <= |from| * maxLength
  {
    GridSize(|from|, maxLength);
    forall a | 0 <= a < |found|
      ensures found[a] in Grid(|from|, maxLength)
    {
      GridMembers(|from|, maxLength, found[a]);
    }
    DistinctFits(found, Grid(|from|, maxLength));
  }

  // ---------------------------------------------------------------- only finitely many sets

  ghost function Subsets(n: nat): set<set<nat>> {
    if n == 0 then {{}} else Subsets(n - 1) + WithAll(Subsets(n - 1), n - 1)
  }

  ghost function WithAll(ss: set<set<nat>>, p: nat): set<set<nat>> {
    set s | s in ss :: With(s, p)
  }

  ghost function With(s: set<nat>, p: nat): set<nat> {
    s + {p}
  }

  lemma {:induction false} SubsetsComplete(s: set<nat>, n: nat)
    requires forall p | p in s :: p < n
    ensures s in Subsets(n)
  {
    if n == 0 {
      assert s == {};
    } else {
      SubsetsComplete(s - {n - 1}, n - 1);
      if n - 1 in s {
        assert s == With(s - {n - 1}, n - 1);
      } else {
        assert s == s - {n - 1};
      }
    }
  }

  /** Bounds the number of sets the construction can ever make. */
  lemma SetsBounded(from: seq<seq<Byte>>, f: seq<Follow>, sets: seq<RepSet>)
    requires Cells(from, f) && GoodSets(from, f, sets)
    ensures |sets| <= |Subsets(|f|)| + 1
  {
    var bits := seq(|sets| - 1, q requires 0 <= q < |sets| - 1 => sets[q + 1].bits);
    forall q | 0 <= q < |bits|
      ensures bits[q] in Subsets(|f|)
    {
      assert Represented(from, f, sets[q + 1]);
      var t :| Den(from, f, sets[q + 1], t);
      TerminalBits(from, f, t);
      SubsetsComplete(bits[q], |f|);
    }
    forall a, b | 0 <= a < b < |bits|
      ensures bits[a] != bits[b]
    {
      assert sets[a + 1].bits != sets[b + 1].bits;
    }
    DistinctFits(bits, Subsets(|f|));
  }

  // ---------------------------------------------------------------- the two growing tables

  class RepSets {
    var sets: seq<RepSet>

    constructor ()
      ensures sets == []
    {
      sets := [];
    }

    method MakeNewSet()
      modifies this
      ensures sets == old(sets) + [RepSet({}, seq(256, _ => 0), 0, 0, -1)]
    {
      sets := sets + [RepSet({}, seq(256, _ => 0), 0, 0, -1)];
    }

    method FreeLastSet()
      requires sets != []
      modifies this
      ensures sets == old(sets)[..|old(sets)| - 1]
    {
      sets := sets[..|sets| - 1];
    }

    /** The last set is the candidate; it is dropped when its bits are known. */
    method FindSet() returns (i: nat)
      requires sets != []
      modifies this
      ensures i < |old(sets)| && old(sets)[i].bits == old(sets)[|old(sets)| - 1].bits
      ensures forall j | 0 <= j < i :: old(sets)[j].bits != old(sets)[i].bits
      ensures sets == if i < |old(sets)| - 1 then old(sets)[..|old(sets)| - 1] else old(sets)
    {
      i := 0;
      while i < |sets| - 1
        invariant i < |sets| && sets == old(sets)
        invariant forall j | 0 <= j < i :: sets[j].bits != sets[|sets| - 1].bits
      {
        if sets[i].bits == sets[|sets| - 1].bits {
          FreeLastSet();
          return;
        }
        i := i + 1;
      }
    }
  }

  class FoundSets {
    var found: seq<FoundSet>
    const capacity: nat

    constructor (capacity: nat)
      ensures found == [] && this.capacity == capacity
    {
      found := [];
      this.capacity := capacity;
    }

    /** Writes a new entry only inside the allocated array. */
    method FindFound(tableOffset: int, foundOffset: int) returns (n: int)
      requires FoundSet(tableOffset, foundOffset) in found || |found| < capacity
      modifies this
      ensures IsFound(found, n, tableOffset, foundOffset)
      ensures found == if FoundSet(tableOffset, foundOffset) in old(found) then old(found)
                       else old(found) + [FoundSet(tableOffset, foundOffset)]
    {
      var i := 0;
      while i < |found|
        invariant 0 <= i <= |found|
        invariant forall j | 0 <= j < i :: found[j] != FoundSet(tableOffset, foundOffset)
      {
        if found[i].tableOffset == tableOffset && found[i].foundOffset == foundOffset {
          return -i - 2;
        }
        i := i + 1;
      }
      found := found + [FoundSet(tableOffset, foundOffset)];
      return -i - 2;
    }
  }

  // ---------------------------------------------------------------- loops over one set

  /** The smallest member above `last`, or 0. */
  method GetNextBit(bits: set<nat>, size: nat, last: int) returns (p: nat)
    requires -1 <= last && forall b | b in bits :: 1 <= b < size
    ensures p == 0 ==> forall b | b in bits :: b <= last
    ensures p != 0 ==> p in bits && p > last && forall b | b in bits && b > last :: p <= b
  {
    p := last + 1;
    while p < size && p !in bits
      invariant p > last && forall b | b in bits && b > last :: p <= b
    {
      p := p + 1;
    }
    if p >= size {
      p := 0;
    }
  }

  /** The completed cells of a set. */
  ghost function Terminals(f: seq<Follow>, bits: set<nat>): set<nat> {
    set p | p in bits && 1 <= p < |f| && f[p].chr == 0
  }

  method HasTerminal(f: seq<Follow>, bits: set<nat>) returns (r: bool)
    requires forall b | b in bits :: 1 <= b < |f|
    ensures r <==> Terminals(f, bits) != {}
  {
    r := false;
    var i := GetNextBit(bits, |f|, -1);
    while i != 0
      invariant i != 0 ==> i in bits
      invariant r <==> exists b :: b in bits && (i == 0 || b < i) && f[b].chr == 0
      decreases if i == 0 then 0 else |f| - i
    {
      if f[i].chr == 0 {
        r := true;
      }
      var j := GetNextBit(bits, |f|, i);
      assert forall b | b in bits :: (j == 0 || b < j) <==> b <= i;
      i := j;
    }
    if r {
      var b :| b in bits && f[b].chr == 0;
      assert b in Terminals(f, bits);
    }
  }

  method UsedChars(f: seq<Follow>, open: set<nat>) returns (used: set<int>)
    requires forall b | b in open :: 1 <= b < |f|
    ensures forall c :: c in used <==> exists b :: b in open && f[b].chr == c
  {
    used := {};
    var i := GetNextBit(open, |f|, -1);
    while i != 0
      invariant i != 0 ==> i in open
      invariant forall c :: c in used <==> exists b :: b in open && (i == 0 || b < i) && f[b].chr == c
      decreases if i == 0 then 0 else |f| - i
    {
      used := used + {f[i].chr};
      var j := GetNextBit(open, |f|, i);
      assert forall b | b in open :: (j == 0 || b < j) <==> b <= i;
      i := j;
    }
  }

  /** Cells reached by `chr`; `foundEnd` is the length of the longest string completed. */
  method Followers(f: seq<Follow>, open: set<nat>, chr: Byte) returns (bits: set<nat>, foundEnd: nat)
    requires forall b | b in open :: 1 <= b < |f| && (f[b].chr != 0 ==> b + 1 < |f| && Extends(f[b], f[b + 1]))
    ensures bits == Terminals(f, open) + (if chr == 0 then {} else Advance(f, open, chr))
    ensures forall q: nat | Completed(f, open, chr, q) :: f[q].Matched() <= foundEnd
    ensures foundEnd != 0 ==> exists q: nat :: Completed(f, open, chr, q) && f[q].Matched() == foundEnd
  {
    bits, foundEnd := {}, 0;
    ghost var best: nat := 0;
    var i := GetNextBit(open, |f|, -1);
    while i != 0
      invariant i != 0 ==> i in open
      invariant BitsBelow(f, open, chr, i, bits) && EndBelow(f, open, chr, i, foundEnd, best)
      decreases if i == 0 then 0 else |f| - i
    {
      var j := GetNextBit(open, |f|, i);
      NextBits(f, open, chr, i, j, bits);
      NextEnd(f, open, chr, i, j, foundEnd, best);
      if f[i].chr == 0 || f[i].chr == chr {
        if (chr == 0 || (f[i].chr != 0 && f[i + 1].chr == 0)) && f[i].len > foundEnd {
          foundEnd := f[i].len;
          best := if chr == 0 then i else i + 1;
        }
        if chr != 0 && f[i].chr != 0 {
          bits := bits + {i + 1};
        } else {
          bits := bits + {i};
        }
      }
      i := j;
    }
    FollowersAll(f, open, chr, bits);
  }

  /** Reading `chr` completes cell `q`; the end of the line completes what is already complete. */
  ghost predicate Completed(f: seq<Follow>, open: set<nat>, chr: Byte, q: nat) {
    && 1 <= q < |f| && f[q].chr == 0
    && if chr == 0 then q in open else q - 1 in open && q - 1 >= 1 && f[q - 1].chr == chr
  }

  ghost predicate CompletedBelow(f: seq<Follow>, open: set<nat>, chr: Byte, i: nat, q: nat) {
    Completed(f, open, chr, q) && Passed(i, if chr == 0 then q else q - 1)
  }

  /** Bit `b` is set by the time the loop over `open` stands at `i`. */
  ghost predicate FollowerBelow(f: seq<Follow>, open: set<nat>, chr: Byte, i: nat, b: nat) {
    || (b in open && Passed(i, b) && 1 <= b < |f| && f[b].chr == 0)
    || (chr != 0 && 2 <= b <= |f| && b - 1 in open && Passed(i, b - 1) && f[b - 1].chr == chr)
  }

  /** The bits set so far. */
  ghost predicate BitsBelow(f: seq<Follow>, open: set<nat>, chr: Byte, i: nat, bits: set<nat>) {
    forall b :: b in bits <==> FollowerBelow(f, open, chr, i, b)
  }

  /** The longest string completed so far; `best` is a cell where it is. */
  ghost predicate EndBelow(f: seq<Follow>, open: set<nat>, chr: Byte, i: nat, foundEnd: nat, best: nat) {
    && (forall q: nat | CompletedBelow(f, open, chr, i, q) :: f[q].Matched() <= foundEnd)
    && (foundEnd != 0 ==> CompletedBelow(f, open, chr, i, best) && f[best].Matched() == foundEnd)
  }

  /** From `i` the loop goes on to `j`. */
  ghost predicate After(f: seq<Follow>, open: set<nat>, i: nat, j: nat) {
    && (forall b | b in open :: 1 <= b < |f| && (f[b].chr != 0 ==> b + 1 < |f| && Extends(f[b], f[b + 1])))
    && i in open && forall b | b in open :: Passed(j, b) <==> Passed(i, b) || b == i
  }

  lemma NextBits(f: seq<Follow>, open: set<nat>, chr: Byte, i: nat, j: nat, bits: set<nat>)
    requires After(f, open, i, j) && BitsBelow(f, open, chr, i, bits)
    ensures BitsBelow(f, open, chr, j,
                      if f[i].chr != 0 && f[i].chr != chr then bits
                      else if chr != 0 && f[i].chr != 0 then bits + {i + 1} else bits + {i})
  {
  }

  lemma NextEnd(f: seq<Follow>, open: set<nat>, chr: Byte, i: nat, j: nat, foundEnd: nat, best: nat)
    requires After(f, open, i, j) && EndBelow(f, open, chr, i, foundEnd, best)
    ensures var ends := && (f[i].chr == 0 || f[i].chr == chr)
                        && (chr == 0 || (f[i].chr != 0 && i + 1 < |f| && f[i + 1].chr == 0));
            if ends && f[i].len > foundEnd then EndBelow(f, open, chr, j, f[i].len, if chr == 0 then i else i + 1)
            else EndBelow(f, open, chr, j, foundEnd, best)
  {
  }

  lemma FollowersAll(f: seq<Follow>, open: set<nat>, chr: Byte, bits: set<nat>)
    requires forall b | b in open :: 1 <= b < |f|
    requires forall b :: b in bits <==> FollowerBelow(f, open, chr, 0, b)
    ensures bits == Terminals(f, open) + (if chr == 0 then {} else Advance(f, open, chr))
  {
    forall b | b in bits
      ensures b in Terminals(f, open) || (chr != 0 && b in Advance(f, open, chr))
    {
      assert b >= 1 ==> (b - 1) + 1 == b;
    }
  }

  /** Bit `b` lies before the loop position `i`; position 0 is the end. */
  ghost predicate Passed(i: nat, b: nat) {
    i == 0 || b < i
  }

  /** The lowest completed cell whose string is at least `foundEnd` long. */
  ghost predicate IsFirst(f: seq<Follow>, bits: set<nat>, foundEnd: nat, first: nat) {
    && first in bits && 1 <= first < |f| && f[first].chr == 0 && foundEnd <= f[first].Matched()
    && forall q | q in bits && 1 <= q < |f| && f[q].chr == 0 && foundEnd <= f[q].Matched() :: first <= q
  }

  ghost function Pruned(f: seq<Follow>, bits: set<nat>, foundEnd: nat, first: nat): set<nat> {
    set q | q in bits && 1 <= q < |f| && foundEnd <= f[q].Matched() && (f[q].chr != 0 || q == first)
  }

  /** Drops what starts after the longest completed string, and all but one completed cell. */
  method Prune(f: seq<Follow>, bits0: set<nat>, chr: Byte, foundEnd: nat,
               tableOffset0: int, foundOffset0: int, ghost first: nat)
    returns (bits: set<nat>, tableOffset: int, foundOffset: int, foundLen: nat, bitsSet: nat)
    requires foundEnd > 0
    requires forall q | q in bits0 :: 1 < q < |f| && f[q - 1].len == f[q].Matched()
    requires chr == 0 ==> forall q | q in bits0 :: f[q].chr == 0
    requires IsFirst(f, bits0, foundEnd, first)
    ensures bits == Pruned(f, bits0, foundEnd, first) && bitsSet == |bits|
    ensures tableOffset == f[first].tableOffset && foundLen == foundEnd
    ensures foundOffset == if chr == 0 then foundOffset0 else foundEnd
  {
    bits, tableOffset, foundOffset, foundLen, bitsSet := bits0, tableOffset0, foundOffset0, 0, 0;
    ghost var kept, counted: set<nat> := Pruned(f, bits0, foundEnd, first), {};
    var i := GetNextBit(bits0, |f|, -1);
    while i != 0
      invariant i != 0 ==> i in bits0
      invariant forall b :: b in bits <==> b in bits0 && (Passed(i, b) ==> b in kept)
      invariant forall b :: b in counted <==> b in kept && Passed(i, b)
      invariant bitsSet == |counted|
      invariant !Passed(i, first) ==> foundLen == 0 && foundOffset == foundOffset0
      invariant Passed(i, first) ==>
                  && foundLen == foundEnd && tableOffset == f[first].tableOffset
                  && foundOffset == (if chr == 0 then foundOffset0 else foundEnd)
      decreases if i == 0 then 0 else |f| - i
    {
      var keep: bool;
      keep, tableOffset, foundOffset, foundLen :=
        PruneBit(f, chr, foundEnd, i, tableOffset, foundOffset, foundLen);
      PruneKeeps(f, bits0, chr, foundEnd, first, i);
      assert keep <==> i in kept;
      if keep {
        bitsSet := bitsSet + 1;
        counted := counted + {i};
      } else {
        bits := bits - {i};
      }
      var j := GetNextBit(bits0, |f|, i);
      assert forall b | b in bits0 :: Passed(j, b) <==> Passed(i, b) || b == i;
      i := j;
    }
    assert bits == kept && counted == kept;
  }

  /** Keeps or clears one bit; a completed cell that is kept becomes the recorded match. */
  method PruneBit(f: seq<Follow>, chr: Byte, foundEnd: nat, i: nat, tableOffset0: int, foundOffset0: int,
                  foundLen0: nat)
    returns (keep: bool, tableOffset: int, foundOffset: int, foundLen: nat)
    requires 1 < i < |f| && f[i - 1].len == f[i].Matched()
    ensures keep <==> f[i].Matched() >= foundEnd && !(foundLen0 != 0 && (chr == 0 || f[i].chr == 0))
    ensures (tableOffset, foundLen) ==
            if keep && (chr == 0 || f[i].chr == 0) then (f[i].tableOffset, foundEnd) else (tableOffset0, foundLen0)
    ensures foundOffset == if keep && chr != 0 && f[i].chr == 0 then foundEnd else foundOffset0
  {
    keep, tableOffset, foundOffset, foundLen := false, tableOffset0, foundOffset0, foundLen0;
    if f[i - 1].len < foundEnd || (foundLen != 0 && (chr == 0 || f[i].chr == 0)) {
      return;
    }
    if chr == 0 || f[i].chr == 0 {
      tableOffset := f[i].tableOffset;
      if chr != 0 {
        foundOffset := foundEnd;
      }
      foundLen := foundEnd;
    }
    keep := true;
  }

  /** What the test in the pruning loop decides about bit `i`. */
  lemma PruneKeeps(f: seq<Follow>, bits: set<nat>, chr: Byte, foundEnd: nat, first: nat, i: nat)
    requires IsFirst(f, bits, foundEnd, first)
    requires i in bits && 1 <= i < |f| && (chr == 0 ==> f[i].chr == 0)
    ensures i in Pruned(f, bits, foundEnd, first) <==>
            f[i].Matched() >= foundEnd && !(first < i && (chr == 0 || f[i].chr == 0))
    ensures f[i].Matched() >= foundEnd && i <= first && (chr == 0 || f[i].chr == 0) ==> i == first
  {
  }

  // ---------------------------------------------------------------- one transition

  ghost function OpenOf(f: seq<Follow>, bits: set<nat>): set<nat> {
    if Terminals(f, bits) == {} then bits + StartCells(f) else bits
  }

  lemma OpenOfDenoted(from: seq<seq<Byte>>, f: seq<Follow>, s: RepSet, t: seq<Byte>)
    requires Cells(from, f) && Den(from, f, s, t)
    ensures OpenOf(f, s.bits) == Open(from, f, t)
    ensures Best(from, t).None? <==> Terminals(f, s.bits) == {}
    ensures Best(from, t).None? ==> Terminals(f, OpenOf(f, s.bits)) == {}
    ensures Best(from, t).Some? ==>
              && s.tableOffset < |from|
              && Terminals(f, OpenOf(f, s.bits)) == {EndCell(from, s.tableOffset)}
  {
    TerminalBits(from, f, t);
    match Best(from, t)
    case None =>
      EmptyText(from, f);
      TerminalBits(from, f, []);
    case Some(o) =>
      EndCellFacts(from, f, o.which);
      assert EndCell(from, o.which) in Terminals(f, s.bits);
  }

  /** No string completed, some cell advanced. */
  lemma AdvanceOnly(from: seq<seq<Byte>>, f: seq<Follow>, s: RepSet, t: seq<Byte>, c: Byte, next: RepSet)
    requires Cells(from, f) && c != 0 && Den(from, f, s, t)
    requires forall q: nat :: !Completed(f, OpenOf(f, s.bits), c, q)
    requires Advance(f, OpenOf(f, s.bits), c) != {}
    requires next.bits == Terminals(f, OpenOf(f, s.bits)) + Advance(f, OpenOf(f, s.bits), c)
    requires next.tableOffset == s.tableOffset && next.foundOffset == s.foundOffset + 1
    ensures Den(from, f, next, t + [c])
  {
    OpenOfDenoted(from, f, s, t);
    var open := Open(from, f, t);
    var adv := Advance(f, open, c);
    forall q | q in adv
      ensures 1 <= q < |f| && f[q].chr != 0
    {
      assert Extends(f[q - 1], f[q]);
      assert !Completed(f, open, c, q);
    }
    StepNothingCompleted(from, f, t, c);
    assert Alive(from, f, t + [c]) == adv;
  }

  /** Nothing follows by `c`: restart, or settle for the pending match. */
  lemma AdvanceNone(from: seq<seq<Byte>>, f: seq<Follow>, s: RepSet, t: seq<Byte>, c: Byte)
    requires Cells(from, f) && c != 0 && Den(from, f, s, t)
    requires Advance(f, OpenOf(f, s.bits), c) == {}
    ensures Best(from, t + [c]) == Best(from, t)
    ensures Best(from, t).Some? ==> Final(from, f, t + [c])
    ensures Best(from, t).None? ==> !Final(from, f, t + [c]) && Bits(from, f, t + [c]) == StartCells(f)
  {
    OpenOfDenoted(from, f, s, t);
    StepNothingCompleted(from, f, t, c);
  }

  /** Some string completed: its cell is first among the completed ones, and newly reached. */
  lemma CompletedFirst(from: seq<seq<Byte>>, f: seq<Follow>, s: RepSet, t: seq<Byte>, c: Byte,
                       bits: set<nat>, foundEnd: nat) returns (first: nat)
    requires Cells(from, f) && c != 0 && Den(from, f, s, t)
    requires bits == Terminals(f, OpenOf(f, s.bits)) + Advance(f, OpenOf(f, s.bits), c)
    requires forall q: nat | Completed(f, OpenOf(f, s.bits), c, q) :: f[q].Matched() <= foundEnd
    requires exists q: nat :: Completed(f, OpenOf(f, s.bits), c, q) && f[q].Matched() == foundEnd
    ensures IsFirst(f, bits, foundEnd, first)
    ensures first in Advance(f, OpenOf(f, s.bits), c) && f[first].Matched() == foundEnd
    ensures forall q | q in Terminals(f, OpenOf(f, s.bits)) :: f[q].Matched() < foundEnd
  {
    var open := OpenOf(f, s.bits);
    var q0: nat :| Completed(f, open, c, q0) && f[q0].Matched() == foundEnd;
    PendingIsShorter(from, f, s, t, c, q0);
    first := LeastCompleted(f, open, c, foundEnd, q0);
    forall q | q in bits && 1 <= q < |f| && f[q].chr == 0 && foundEnd <= f[q].Matched()
      ensures first <= q
    {
      AdvanceCompleted(f, open, c, q);
    }
  }

  lemma AdvanceCompleted(f: seq<Follow>, open: set<nat>, c: Byte, q: nat)
    requires c != 0 && q in Advance(f, open, c) && q < |f| && f[q].chr == 0
    ensures Completed(f, open, c, q)
  {
  }

  /** A newly completed string is longer than the pending match. */
  lemma PendingIsShorter(from: seq<seq<Byte>>, f: seq<Follow>, s: RepSet, t: seq<Byte>, c: Byte, q0: nat)
    requires Cells(from, f) && c != 0 && Den(from, f, s, t) && Completed(f, OpenOf(f, s.bits), c, q0)
    ensures forall q | q in Terminals(f, OpenOf(f, s.bits)) :: f[q].Matched() < f[q0].Matched()
  {
    OpenOfDenoted(from, f, s, t);
    assert q0 - 1 in Open(from, f, t);
    assert q0 in Advance(f, Open(from, f, t), c);
    AdvanceCell(from, f, t, c, q0);
    if Best(from, t).Some? {
      EndCellFacts(from, f, s.tableOffset);
    }
  }

  lemma {:induction false} LeastCompleted(f: seq<Follow>, open: set<nat>, c: Byte, foundEnd: nat, q0: nat)
    returns (first: nat)
    requires c != 0 && Completed(f, open, c, q0) && f[q0].Matched() == foundEnd
    ensures first in Advance(f, open, c) && Completed(f, open, c, first) && f[first].Matched() == foundEnd
    ensures forall q: nat | Completed(f, open, c, q) && f[q].Matched() == foundEnd :: first <= q
    decreases q0
  {
    if q: nat :| Completed(f, open, c, q) && f[q].Matched() == foundEnd && q < q0 {
      first := LeastCompleted(f, open, c, foundEnd, q);
    } else {
      first := q0;
      assert q0 - 1 in open && (q0 - 1) + 1 == q0;
    }
  }

  lemma CompletedMeaning(from: seq<seq<Byte>>, f: seq<Follow>, s: RepSet, t: seq<Byte>, c: Byte,
                         bits: set<nat>, foundEnd: nat, first: nat, next: RepSet)
    requires Cells(from, f) && c != 0 && Den(from, f, s, t)
    requires bits == Terminals(f, OpenOf(f, s.bits)) + Advance(f, OpenOf(f, s.bits), c)
    requires forall q: nat | Completed(f, OpenOf(f, s.bits), c, q) :: f[q].Matched() <= foundEnd
    requires IsFirst(f, bits, foundEnd, first)
    requires first in Advance(f, OpenOf(f, s.bits), c) && f[first].Matched() == foundEnd
    requires forall q | q in Terminals(f, OpenOf(f, s.bits)) :: f[q].Matched() < foundEnd
    requires next.bits == Pruned(f, bits, foundEnd, first)
    requires next.tableOffset == f[first].tableOffset && next.foundOffset == foundEnd
    ensures foundEnd <= |t| + 1
    ensures Best(from, t + [c]) == Some(Occurrence(|t| + 1 - foundEnd, f[first].tableOffset))
    ensures |next.bits| == 1 <==> Final(from, f, t + [c])
    ensures |next.bits| != 1 ==> Den(from, f, next, t + [c])
  {
    CompletedBits(from, f, s, t, c, bits, foundEnd, first);
    EndCellUnique(from, f, first);
    OneMore(Alive(from, f, t + [c]), first);
  }

  lemma CompletedBits(from: seq<seq<Byte>>, f: seq<Follow>, s: RepSet, t: seq<Byte>, c: Byte,
                      bits: set<nat>, foundEnd: nat, first: nat)
    requires Cells(from, f) && c != 0 && Den(from, f, s, t)
    requires bits == Terminals(f, OpenOf(f, s.bits)) + Advance(f, OpenOf(f, s.bits), c)
    requires forall q: nat | Completed(f, OpenOf(f, s.bits), c, q) :: f[q].Matched() <= foundEnd
    requires IsFirst(f, bits, foundEnd, first)
    requires first in Advance(f, OpenOf(f, s.bits), c) && f[first].Matched() == foundEnd
    requires forall q | q in Terminals(f, OpenOf(f, s.bits)) :: f[q].Matched() < foundEnd
    ensures foundEnd <= |t| + 1
    ensures Best(from, t + [c]) == Some(Occurrence(|t| + 1 - foundEnd, f[first].tableOffset))
    ensures Pruned(f, bits, foundEnd, first) == Alive(from, f, t + [c]) + {first}
    ensures first !in Alive(from, f, t + [c])
  {
    OpenOfDenoted(from, f, s, t);
    var open := Open(from, f, t);
    FirstOfAll(f, open, c, bits, foundEnd, first);
    StepCompleted(from, f, t, c, first);
    PrunedIs(f, Terminals(f, open), Advance(f, open, c), bits, foundEnd, first, Alive(from, f, t + [c]));
  }

  /** Among the cells completed by `c` the first of the longest comes before the others. */
  lemma FirstOfAll(f: seq<Follow>, open: set<nat>, c: Byte, bits: set<nat>, foundEnd: nat, first: nat)
    requires c != 0 && Advance(f, open, c) <= bits && IsFirst(f, bits, foundEnd, first)
    requires forall q: nat | Completed(f, open, c, q) :: f[q].Matched() <= foundEnd
    ensures forall q | q in Advance(f, open, c) && 1 <= q < |f| && f[q].chr == 0 ::
              f[q].Matched() < foundEnd || (f[q].Matched() == foundEnd && first <= q)
  {
    forall q | q in Advance(f, open, c) && 1 <= q < |f| && f[q].chr == 0
      ensures f[q].Matched() < foundEnd || (f[q].Matched() == foundEnd && first <= q)
    {
      assert Completed(f, open, c, q);
    }
  }

  /** What is left of the cells that were complete before, `term`, and of those reached now, `adv`. */
  lemma PrunedIs(f: seq<Follow>, term: set<nat>, adv: set<nat>, bits: set<nat>, foundEnd: nat, first: nat,
                 alive: set<nat>)
    requires bits == term + adv && forall q | q in term :: 1 <= q < |f| && f[q].Matched() < foundEnd
    requires first in adv && 1 <= first < |f| && f[first].chr == 0 && f[first].Matched() == foundEnd
    requires alive == set q | q in adv && 1 <= q < |f| && f[q].chr != 0 && foundEnd <= f[q].Matched()
    ensures Pruned(f, bits, foundEnd, first) == alive + {first} && first !in alive
  {
  }

  lemma OneMore(a: set<nat>, x: nat)
    requires x !in a
    ensures |a + {x}| == 1 <==> a == {}
  {
    assert |a + {x}| == |a| + 1;
  }

  /** End of line with a match pending. */
  lemma EndMeaning(from: seq<seq<Byte>>, f: seq<Follow>, s: RepSet, t: seq<Byte>, bits: set<nat>, foundEnd: nat)
    requires Cells(from, f) && Den(from, f, s, t)
    requires Terminals(f, OpenOf(f, s.bits)) != {}
    requires bits == Terminals(f, OpenOf(f, s.bits))
    requires forall q: nat | Completed(f, OpenOf(f, s.bits), 0, q) :: f[q].Matched() <= foundEnd
    requires foundEnd != 0 ==>
               exists q: nat :: Completed(f, OpenOf(f, s.bits), 0, q) && f[q].Matched() == foundEnd
    ensures Best(from, t).Some? && 0 <= s.tableOffset < |from| && foundEnd == |from[s.tableOffset]| && foundEnd > 0
    ensures IsFirst(f, bits, foundEnd, EndCell(from, s.tableOffset))
    ensures f[EndCell(from, s.tableOffset)].tableOffset == s.tableOffset
    ensures Pruned(f, bits, foundEnd, EndCell(from, s.tableOffset)) == {EndCell(from, s.tableOffset)}
  {
    OpenOfDenoted(from, f, s, t);
    EndCellFacts(from, f, s.tableOffset);
    assert from[s.tableOffset] != [];
    assert EndCell(from, s.tableOffset) in bits;
    assert Completed(f, OpenOf(f, s.bits), 0, EndCell(from, s.tableOffset));
  }
}
