/**
 hp_write_key: a new address is split off one chain, then the new entry is put in place.
 */
module HashWrite {
  import opened Wrappers
  import opened HashChains
  import opened HashIndex

  // ---------------------------------------------------------------- lists of slots

  ghost predicate Distinct(c: seq<nat>) {
    forall j, k | 0 <= j < k < |c| :: c[j] != c[k]
  }

  ghost function IndexOf(c: seq<nat>, x: nat): (i: nat)
    requires x in c
    ensures i < |c| && c[i] == x
  {
    var i :| 0 <= i < |c| && c[i] == x;
    i
  }

  lemma IndexOfAt(c: seq<nat>, i: nat)
    requires Distinct(c) && i < |c|
    ensures IndexOf(c, c[i]) == i
  {
  }

  /** The slots of `c` are linked in order, the last one to nothing. */
  ghost predicate LinkedList(s: seq<HashInfo>, c: seq<nat>) {
    && (forall j | 0 <= j < |c| :: c[j] < |s|)
    && (forall j {:trigger NextIn(c, j)} | 0 <= j < |c| :: s[c[j]].next == NextIn(c, j))
  }

  ghost function NextIn(c: seq<nat>, j: nat): Option<nat> {
    if j + 1 < |c| then Some(c[j + 1]) else None
  }

  lemma LinkAt(s: seq<HashInfo>, c: seq<nat>, j: nat)
    requires LinkedList(s, c) && j < |c|
    ensures c[j] < |s| && s[c[j]].next == if j + 1 < |c| then Some(c[j + 1]) else None
  {
    assert s[c[j]].next == NextIn(c, j);
  }

  lemma ConsList(s: seq<HashInfo>, x: nat, d: seq<nat>)
    requires x < |s| && LinkedList(s, d) && s[x].next == (if d == [] then None else Some(d[0]))
    ensures LinkedList(s, [x] + d)
  {
    var c := [x] + d;
    forall j | 0 <= j < |c|
      ensures c[j] < |s| && s[c[j]].next == NextIn(c, j)
    {
      if j > 0 {
        LinkAt(s, d, j - 1);
      }
    }
  }

  /** The chain from slot `i` to its end, in link order. */
  lemma {:induction false} ChainFrom(s: seq<HashInfo>, hm: seq<nat>, live: set<nat>, rank: seq<nat>, prev: seq<nat>,
                                     i: nat, top: nat)
    returns (c: seq<nat>)
    requires Chained(s, hm, live, rank, prev) && i in live && Above(rank, top)
    ensures c != [] && c[0] == i && LinkedList(s, c)
    ensures forall j | 0 <= j < |c| :: c[j] in live && hm[c[j]] == hm[i] && rank[i] <= rank[c[j]]
    ensures Distinct(c)
    decreases top - rank[i]
  {
    assert SlotOk(s, hm, live, rank, prev, i);
    if s[i].next.None? {
      c := [i];
    } else {
      var d := ChainFrom(s, hm, live, rank, prev, s[i].next.value, top);
      c := [i] + d;
      ConsList(s, i, d);
    }
  }

  /** The chain from the head contains every slot of that address. */
  lemma {:induction false} ChainComplete(s: seq<HashInfo>, hm: seq<nat>, live: set<nat>, rank: seq<nat>,
                                         prev: seq<nat>, c: seq<nat>, i: nat)
    requires Chained(s, hm, live, rank, prev) && i in live
    requires c != [] && c[0] == hm[i] && LinkedList(s, c)
    ensures i in c
    decreases rank[i]
  {
    assert SlotOk(s, hm, live, rank, prev, i);
    if i != hm[i] {
      var p := prev[i];
      assert SlotOk(s, hm, live, rank, prev, p);
      ChainComplete(s, hm, live, rank, prev, c, p);
      var j :| 0 <= j < |c| && c[j] == p;
      LinkAt(s, c, j);
      assert c[j + 1] in c;
    } else {
      assert c[0] in c;
    }
  }

  // ---------------------------------------------------------------- splitting a chain in two

  /** The slots of chain `c` and the new slot `r` are shared out to the lists and the free slot `e`. */
  ghost predicate Shares(c: seq<nat>, r: nat, low: seq<nat>, high: seq<nat>, e: nat) {
    && Distinct(low) && Distinct(high)
    && (forall i | i in low :: i !in high && i != e && (i in c || i == r))
    && (forall i | i in high :: i !in low && i != e && (i in c || i == r))
    && (forall i | i in c :: i == e || i in low || i in high)
    && (r == e || r in low || r in high) && (e in c || e == r)
  }

  ghost function SplitRank(rank: seq<nat>, low: seq<nat>, high: seq<nat>): (r: seq<nat>)
    ensures |r| == |rank|
    ensures forall i | 0 <= i < |rank| ::
              r[i] == if i in low then IndexOf(low, i) else if i in high then IndexOf(high, i) else rank[i]
  {
    seq<nat>(|rank|, i requires 0 <= i < |rank| =>
      if i in low then IndexOf(low, i) else if i in high then IndexOf(high, i) else rank[i])
  }

  /** The element before `i` in its list. */
  ghost function Before(c: seq<nat>, i: nat): nat
    requires i in c
  {
    if IndexOf(c, i) == 0 then 0 else c[IndexOf(c, i) - 1]
  }

  ghost function SplitPrev(prev: seq<nat>, low: seq<nat>, high: seq<nat>): (r: seq<nat>)
    ensures |r| == |prev|
    ensures forall i | 0 <= i < |prev| ::
              r[i] == if i in low then Before(low, i) else if i in high then Before(high, i) else prev[i]
  {
    seq<nat>(|prev|, i requires 0 <= i < |prev| =>
      if i in low then Before(low, i) else if i in high then Before(high, i) else prev[i])
  }

  /** A slot in a list of its own address is in order. */
  lemma ListSlotOk(s: seq<HashInfo>, hm: seq<nat>, live: set<nat>, rank: seq<nat>, prev: seq<nat>, c: seq<nat>, p: nat,
                   i: nat)
    requires |s| == |hm| == |rank| == |prev| && Distinct(c) && LinkedList(s, c) && i in c
    requires c[0] == p
    requires forall x | x in c :: x in live && hm[x] == p && rank[x] == IndexOf(c, x) && prev[x] == Before(c, x)
    ensures i < |s| && SlotOk(s, hm, live, rank, prev, i)
  {
    var j := IndexOf(c, i);
    IndexOfAt(c, 0);
    LinkAt(s, c, j);
    if j > 0 {
      IndexOfAt(c, j - 1);
      LinkAt(s, c, j - 1);
      assert c[j - 1] in c;
    }
    if j + 1 < |c| {
      IndexOfAt(c, j + 1);
      assert c[j + 1] in c;
    }
    assert c[0] in c;
  }

  /** The slots before and after chain `p` became the list `low` at `p` and the list `high` at the new address `r`. */
  ghost predicate IsSplit(s: seq<HashInfo>, hm: seq<nat>, rank: seq<nat>, prev: seq<nat>, r: nat, p: nat, c: seq<nat>,
                          low: seq<nat>, high: seq<nat>, e: nat, s': seq<HashInfo>, hm': seq<nat>)
  {
    && Chained(s, hm, Upto(r), rank, prev) && p < r < |s| == |s'| == |hm'|
    && (forall i: nat | i < r :: i in c <==> hm[i] == p)
    && (forall i | i in c :: i < r)
    && Shares(c, r, low, high, e) && LinkedList(s', low) && LinkedList(s', high)
    && (low != [] ==> low[0] == p) && (high != [] ==> high[0] == r)
    && (forall i | 0 <= i < r && i !in c :: s'[i] == s[i] && hm'[i] == hm[i])
    && (forall i | i in low :: i <= r && hm'[i] == p) && (forall i | i in high :: i <= r && hm'[i] == r)
  }

  lemma Split(s: seq<HashInfo>, hm: seq<nat>, rank: seq<nat>, prev: seq<nat>, r: nat, p: nat, c: seq<nat>,
              low: seq<nat>, high: seq<nat>, e: nat, s': seq<HashInfo>, hm': seq<nat>)
    requires IsSplit(s, hm, rank, prev, r, p, c, low, high, e, s', hm')
    ensures Chained(s', hm', Upto(r + 1) - {e}, SplitRank(rank, low, high), SplitPrev(prev, low, high))
  {
    SplitLists(s, hm, rank, prev, r, p, c, low, high, e, s', hm');
    var live', rank', prev' := Upto(r + 1) - {e}, SplitRank(rank, low, high), SplitPrev(prev, low, high);
    forall i | i in live'
      ensures i < |s| && SlotOk(s', hm', live', rank', prev', i)
    {
      if i !in low && i !in high {
        OtherSlotOk(s, hm, rank, prev, r, p, c, low, high, e, s', hm', i);
      }
    }
  }

  lemma SplitLists(s: seq<HashInfo>, hm: seq<nat>, rank: seq<nat>, prev: seq<nat>, r: nat, p: nat, c: seq<nat>,
                   low: seq<nat>, high: seq<nat>, e: nat, s': seq<HashInfo>, hm': seq<nat>)
    requires IsSplit(s, hm, rank, prev, r, p, c, low, high, e, s', hm')
    ensures forall i | i in low || i in high ::
              i < |s| && SlotOk(s', hm', Upto(r + 1) - {e}, SplitRank(rank, low, high), SplitPrev(prev, low, high), i)
  {
    var live', rank', prev' := Upto(r + 1) - {e}, SplitRank(rank, low, high), SplitPrev(prev, low, high);
    if low != [] {
      ListOk(s', hm', live', rank', prev', low, p);
    }
    if high != [] {
      ListOk(s', hm', live', rank', prev', high, r);
    }
  }

  lemma ListOk(s: seq<HashInfo>, hm: seq<nat>, live: set<nat>, rank: seq<nat>, prev: seq<nat>, c: seq<nat>, p: nat)
    requires |s| == |hm| == |rank| == |prev| && Distinct(c) && LinkedList(s, c) && c != [] && c[0] == p
    requires forall x | x in c ::
               x in live && x < |hm| && hm[x] == p && rank[x] == IndexOf(c, x) && prev[x] == Before(c, x)
    ensures forall i | i in c :: i < |s| && SlotOk(s, hm, live, rank, prev, i)
  {
    forall i | i in c
      ensures i < |s| && SlotOk(s, hm, live, rank, prev, i)
    {
      ListSlotOk(s, hm, live, rank, prev, c, p, i);
    }
  }

  /** Slots of other chains are not touched by the split. */
  lemma OtherSlotOk(s: seq<HashInfo>, hm: seq<nat>, rank: seq<nat>, prev: seq<nat>, r: nat, p: nat, c: seq<nat>,
                    low: seq<nat>, high: seq<nat>, e: nat, s': seq<HashInfo>, hm': seq<nat>, i: nat)
    requires IsSplit(s, hm, rank, prev, r, p, c, low, high, e, s', hm')
    requires i <= r && i !in low && i !in high && i != e
    ensures i < r && SlotOk(s', hm', Upto(r + 1) - {e}, SplitRank(rank, low, high), SplitPrev(prev, low, high), i)
  {
    assert SlotOk(s, hm, Upto(r), rank, prev, i);
    assert i !in c && hm[hm[i]] == hm[i];
    Elsewhere(c, r, low, high, e, hm[i]);
    if i != hm[i] {
      assert SlotOk(s, hm, Upto(r), rank, prev, prev[i]);
      Elsewhere(c, r, low, high, e, prev[i]);
    }
    if s[i].next.Some? {
      Elsewhere(c, r, low, high, e, s[i].next.value);
    }
  }

  lemma Elsewhere(c: seq<nat>, r: nat, low: seq<nat>, high: seq<nat>, e: nat, i: nat)
    requires Shares(c, r, low, high, e) && i !in c && i != r
    ensures i !in low && i !in high && i != e
  {
  }

  // ---------------------------------------------------------------- the splitting loop

  /** Progress on one of the two lists: its last slot and the record that belongs there. */
  datatype Part = Part(found: bool, used: bool, gpos: nat, rec: RecPtr)

  /**
   `l` is the list built so far.  All links but the last are written; the last slot is known to be
   right, and to link to `tail`, only when `used` is set.
   */
  ghost predicate PartOk(s: seq<HashInfo>, recs: seq<RecPtr>, l: seq<nat>, part: Part, tail: Option<nat>) {
    && (part.found <==> l != [])
    && (forall j | 0 <= j < |l| :: l[j] < |s| && l[j] < |recs|)
    && (l != [] ==> part.gpos == l[|l| - 1] && part.rec == recs[l[|l| - 1]])
    && (forall j {:trigger NextIn(l, j)} | 0 <= j < |l| - 1 :: s[l[j]] == HashInfo(NextIn(l, j), recs[l[j]]))
    && (part.used ==> l != [] && s[l[|l| - 1]] == HashInfo(tail, recs[l[|l| - 1]]))
  }

  ghost function TailAt(c: seq<nat>, t: nat): Option<nat> {
    if t < |c| then Some(c[t]) else None
  }

  /** A list is not disturbed by writes elsewhere. */
  lemma PartFrame(s: seq<HashInfo>, recs: seq<RecPtr>, l: seq<nat>, part: Part, tail: Option<nat>,
                  s': seq<HashInfo>, recs': seq<RecPtr>, tail': Option<nat>)
    requires PartOk(s, recs, l, part, tail) && |s'| == |s| && |recs'| == |recs|
    requires forall x | x in l && x < |s| && x < |recs| :: s'[x] == s[x] && recs'[x] == recs[x]
    ensures PartOk(s', recs', l, part.(used := false), tail')
    ensures tail' == tail ==> PartOk(s', recs', l, part, tail')
  {
    assert forall j | 0 <= j < |l| :: l[j] in l;
  }

  /** One more slot `x`, which already holds its record and the link to `tail'`. */
  method Append(s: seq<HashInfo>, part: Part, x: nat, ghost recs: seq<RecPtr>, ghost l: seq<nat>,
                ghost tail': Option<nat>)
    returns (s': seq<HashInfo>, part': Part)
    requires part.found && PartOk(s, recs, l, part, Some(x)) && x < |s| && x < |recs| && x !in l && Distinct(l)
    requires s[x] == HashInfo(tail', recs[x])
    ensures PartOk(s', recs, l + [x], part', tail') && part'.used
    ensures |s'| == |s| && forall i | 0 <= i < |s| && i !in l :: s'[i] == s[i]
  {
    s' := s;
    if !part.used {
      s' := s'[part.gpos := HashInfo(Some(x), part.rec)];
    }
    part' := Part(true, true, x, s'[x].rec);
    assert l[|l| - 1] in l;
    assert forall j | 0 <= j < |l| - 1 :: l[j] != part.gpos;
    assert forall j {:trigger NextIn(l + [x], j)} | 0 <= j < |l| - 1 :: NextIn(l + [x], j) == NextIn(l, j);
  }

  /** The slot shares after one more slot `x` of the chain went to the end of `low`. */
  lemma SharesAppend(c: seq<nat>, t: nat, r: nat, low: seq<nat>, high: seq<nat>, e: nat)
    requires Distinct(c) && t < |c| && r !in c && Shares(c[..t], r, low, high, e)
    ensures c[t] !in low && c[t] !in high && c[t] != e
    ensures Shares(c[..t + 1], r, low + [c[t]], high, e)
  {
    assert c[..t + 1] == c[..t] + [c[t]];
    assert c[t] !in c[..t];
    assert c[t] in c;
  }

  /** The slot shares after the first entry of a list took the free slot and left its own free. */
  lemma SharesMove(c: seq<nat>, t: nat, r: nat, high: seq<nat>, e: nat)
    requires Distinct(c) && t < |c| && r !in c && Shares(c[..t], r, [], high, e)
    ensures c[t] !in high && c[t] != e && e !in high
    ensures Shares(c[..t + 1], r, [e], high, c[t])
  {
    assert c[..t + 1] == c[..t] + [c[t]];
    assert c[t] !in c[..t];
    assert c[t] in c;
  }

  lemma SharesSwap(c: seq<nat>, r: nat, low: seq<nat>, high: seq<nat>, e: nat)
    requires Shares(c, r, low, high, e)
    ensures Shares(c, r, high, low, e)
  {
  }

  /** Where the loop is after `t` entries of the chain `c`; `recs` says which record every slot will hold. */
  ghost predicate Progress(kind: RecPtr -> nat, s0: seq<HashInfo>, s: seq<HashInfo>, recs: seq<RecPtr>, c: seq<nat>,
                           t: nat, r: nat, p: nat, low: seq<nat>, high: seq<nat>, e: nat, lo: Part, hi: Part)
  {
    && t <= |c| && |s| == |s0| && r < |s0| && |recs| == r + 1
    && Shares(c[..t], r, low, high, e)
    && PartOk(s, recs, low, lo, TailAt(c, t)) && PartOk(s, recs, high, hi, TailAt(c, t))
    && !(lo.used && hi.used)
    && (forall x | x in low && x < |recs| :: kind(recs[x]) == p) &&
       (forall x | x in high && x < |recs| :: kind(recs[x]) == r)
    && (low != [] ==> low[0] == p) && (high != [] ==> high[0] == r)
    && (high == [] ==> e == r) && (low == [] && high != [] ==> e == p)
    && (low == [] && high == [] ==> t == 0)
    && e < |recs|
    && (forall j | t <= j < |c| :: c[j] < r && s[c[j]] == s0[c[j]] && recs[c[j]] == s0[c[j]].rec)
    && (forall i | 0 <= i < |s| && i !in c && i != r :: s[i] == s0[i])
    && (forall i | 0 <= i < r && i !in c :: recs[i] == s0[i].rec)
  }

  /** The chain that is split: in slots below `r`, from `p` on. */
  ghost predicate ChainAt(isHigh: RecPtr -> bool, kind: RecPtr -> nat, s0: seq<HashInfo>, c: seq<nat>, r: nat, p: nat) {
    && c != [] && c[0] == p && Distinct(c) && LinkedList(s0, c) && r < |s0|
    && forall x | x in c :: x < r && kind(s0[x].rec) == if isHigh(s0[x].rec) then r else p
  }

  /** A low entry, and a low list exists: it goes to the end of that list, in its own slot. */
  method StepLow(isHigh: RecPtr -> bool, ghost kind: RecPtr -> nat, s0: seq<HashInfo>, s: seq<HashInfo>, pos: nat,
                 lo: Part, hi: Part, ghost recs: seq<RecPtr>, ghost c: seq<nat>, ghost t: nat, ghost r: nat,
                 ghost p: nat, ghost low: seq<nat>, ghost high: seq<nat>, ghost e: nat)
    returns (s': seq<HashInfo>, lo': Part, hi': Part)
    requires ChainAt(isHigh, kind, s0, c, r, p) && t < |c| && pos == c[t] && lo.found
    requires Progress(kind, s0, s, recs, c, t, r, p, low, high, e, lo, hi) && !isHigh(s[pos].rec)
    ensures Progress(kind, s0, s', recs, c, t + 1, r, p, low + [pos], high, e, lo', hi') && s'[pos] == s[pos]
  {
    assert c[t] in c && r !in c;
    LinkAt(s0, c, t);
    SharesAppend(c, t, r, low, high, e);
    s', lo' := Append(s, lo, pos, recs, low, TailAt(c, t + 1));
    hi' := if lo.used then hi else hi.(used := false);
    PartFrame(s, recs, high, hi, TailAt(c, t), s', recs, TailAt(c, t + 1));
    LaterUntouched(c, t, r, low, high, e);
  }

  /** Entries not yet looked at are in no list. */
  lemma LaterUntouched(c: seq<nat>, t: nat, r: nat, low: seq<nat>, high: seq<nat>, e: nat)
    requires Distinct(c) && t <= |c| && r !in c && Shares(c[..t], r, low, high, e)
    ensures forall j | t <= j < |c| :: c[j] !in low && c[j] !in high && c[j] != e
    ensures forall i | i in low || i in high || i == e :: i in c || i == r
  {
    forall j | t <= j < |c|
      ensures c[j] !in low && c[j] !in high && c[j] != e
    {
      assert c[j] !in c[..t];
      assert c[j] in c;
    }
  }

  /** A high entry, and a high list exists. */
  method StepHigh(isHigh: RecPtr -> bool, ghost kind: RecPtr -> nat, s0: seq<HashInfo>, s: seq<HashInfo>, pos: nat,
                  lo: Part, hi: Part, ghost recs: seq<RecPtr>, ghost c: seq<nat>, ghost t: nat, ghost r: nat,
                  ghost p: nat, ghost low: seq<nat>, ghost high: seq<nat>, ghost e: nat)
    returns (s': seq<HashInfo>, lo': Part, hi': Part)
    requires ChainAt(isHigh, kind, s0, c, r, p) && t < |c| && pos == c[t] && hi.found
    requires Progress(kind, s0, s, recs, c, t, r, p, low, high, e, lo, hi) && isHigh(s[pos].rec)
    ensures Progress(kind, s0, s', recs, c, t + 1, r, p, low, high + [pos], e, lo', hi') && s'[pos] == s[pos]
  {
    assert c[t] in c && r !in c;
    LinkAt(s0, c, t);
    SharesSwap(c[..t], r, low, high, e);
    SharesAppend(c, t, r, high, low, e);
    SharesSwap(c[..t + 1], r, high + [pos], low, e);
    s', hi' := Append(s, hi, pos, recs, high, TailAt(c, t + 1));
    lo' := if hi.used then lo else lo.(used := false);
    PartFrame(s, recs, low, lo, TailAt(c, t), s', recs, TailAt(c, t + 1));
    LaterUntouched(c, t, r, low, high, e);
  }

  /** The very first entry is low: it stays where it is. */
  lemma FirstLow(isHigh: RecPtr -> bool, kind: RecPtr -> nat, s0: seq<HashInfo>, s: seq<HashInfo>, recs: seq<RecPtr>,
                 c: seq<nat>, t: nat, r: nat, p: nat, high: seq<nat>, e: nat, lo: Part, hi: Part)
    requires ChainAt(isHigh, kind, s0, c, r, p) && t < |c| && !lo.found && !hi.found
    requires Progress(kind, s0, s, recs, c, t, r, p, [], high, e, lo, hi) && !isHigh(s[c[t]].rec)
    ensures Progress(kind, s0, s, recs, c, t + 1, r, p, [c[t]], high, e, Part(true, true, c[t], s[c[t]].rec), hi)
  {
    assert c[t] in c && r !in c;
    LinkAt(s0, c, t);
    SharesAppend(c, t, r, [], high, e);
    assert [] + [c[t]] == [c[t]];
    LaterUntouched(c, t, r, [], high, e);
  }

  /** Slots `e` and `x` exchange their records. */
  ghost function Exchange(recs: seq<RecPtr>, e: nat, x: nat): seq<RecPtr>
    requires e < |recs| && x < |recs|
  {
    recs[e := recs[x]][x := recs[e]]
  }

  /** The first low entry after high ones takes the free slot. */
  lemma MoveLow(isHigh: RecPtr -> bool, kind: RecPtr -> nat, s0: seq<HashInfo>, s: seq<HashInfo>, recs: seq<RecPtr>,
                c: seq<nat>, t: nat, r: nat, p: nat, high: seq<nat>, e: nat, lo: Part, hi: Part)
    requires ChainAt(isHigh, kind, s0, c, r, p) && t < |c| && !lo.found && hi.found
    requires Progress(kind, s0, s, recs, c, t, r, p, [], high, e, lo, hi) && !isHigh(s[c[t]].rec)
    ensures e < |recs| && c[t] < |recs|
    ensures Progress(kind, s0, s, Exchange(recs, e, c[t]), c, t + 1, r, p, [e], high, c[t],
                     Part(true, false, e, s[c[t]].rec), hi.(used := false))
  {
    assert c[t] in c && r !in c;
    SharesMove(c, t, r, high, e);
    LaterUntouched(c, t, r, [], high, e);
    var recs' := Exchange(recs, e, c[t]);
    PartFrame(s, recs, high, hi, TailAt(c, t), s, recs', TailAt(c, t + 1));
    assert forall j | t < j < |c| :: c[j] != c[t];
  }

  /** The first high entry takes the free slot, which is the new one. */
  lemma MoveHigh(isHigh: RecPtr -> bool, kind: RecPtr -> nat, s0: seq<HashInfo>, s: seq<HashInfo>, recs: seq<RecPtr>,
                 c: seq<nat>, t: nat, r: nat, p: nat, low: seq<nat>, e: nat, lo: Part, hi: Part)
    requires ChainAt(isHigh, kind, s0, c, r, p) && t < |c| && !hi.found
    requires Progress(kind, s0, s, recs, c, t, r, p, low, [], e, lo, hi) && isHigh(s[c[t]].rec)
    ensures e < |recs| && c[t] < |recs|
    ensures Progress(kind, s0, s, Exchange(recs, e, c[t]), c, t + 1, r, p, low, [e], c[t],
                     lo.(used := false), Part(true, false, e, s[c[t]].rec))
  {
    assert c[t] in c && r !in c;
    SharesSwap(c[..t], r, low, [], e);
    SharesMove(c, t, r, low, e);
    SharesSwap(c[..t + 1], r, [e], low, c[t]);
    LaterUntouched(c, t, r, low, [], e);
    var recs' := Exchange(recs, e, c[t]);
    PartFrame(s, recs, low, lo, TailAt(c, t), s, recs', TailAt(c, t + 1));
    assert forall j | t < j < |c| :: c[j] != c[t];
  }

  /** The end of the loop: a list whose last slot is still to be written gets it now. */
  method Close(s: seq<HashInfo>, part: Part, ghost recs: seq<RecPtr>, ghost l: seq<nat>) returns (s': seq<HashInfo>)
    requires PartOk(s, recs, l, part, None) && Distinct(l)
    ensures |s'| == |s| && LinkedList(s', l)
    ensures forall x | x in l :: x < |s| && x < |recs| && s'[x].rec == recs[x]
    ensures forall i | 0 <= i < |s| && i !in l :: s'[i] == s[i]
  {
    s' := s;
    if part.found && !part.used {
      s' := s'[part.gpos := HashInfo(None, part.rec)];
    }
    assert l != [] ==> l[|l| - 1] in l;
    assert forall j | 0 <= j < |l| - 1 :: l[j] != l[|l| - 1];
    forall j | 0 <= j < |l|
      ensures l[j] < |s| && l[j] < |recs| && s'[l[j]].rec == recs[l[j]]
      ensures s'[l[j]].next == if j + 1 < |l| then Some(l[j + 1]) else None
    {
      if j < |l| - 1 {
        assert s[l[j]] == HashInfo(NextIn(l, j), recs[l[j]]);
      }
    }
    forall x | x in l
      ensures x < |s| && x < |recs| && s'[x].rec == recs[x]
    {
      var j := IndexOf(l, x);
      assert s'[l[j]].rec == recs[l[j]];
    }
  }

  lemma ExchangeBag(recs: seq<RecPtr>, e: nat, x: nat)
    requires e < |recs| && x < |recs| && e != x
    ensures multiset(Exchange(recs, e, x)) == multiset(recs) && Exchange(recs, e, x)[x] == recs[e]
  {
    UpdateBag(recs, e, recs[x]);
    UpdateBag(recs[e := recs[x]], x, recs[e]);
  }

  /** The bag of records with slot `e` as the one that holds no entry. */
  ghost predicate SameBag(s0: seq<HashInfo>, r: nat, recs: seq<RecPtr>, e: nat)
    requires r < |s0|
  {
    e < |recs| && multiset(recs) == multiset(Recs(s0, r + 1)) && recs[e] == s0[r].rec
  }

  /** One iteration of the loop, for entry `t` of the chain. */
  method SplitStep(isHigh: RecPtr -> bool, ghost kind: RecPtr -> nat, s0: seq<HashInfo>, s: seq<HashInfo>, pos: nat,
                   e: nat, lo: Part, hi: Part, ghost recs: seq<RecPtr>, ghost c: seq<nat>, ghost t: nat, ghost r: nat,
                   ghost p: nat, ghost low: seq<nat>, ghost high: seq<nat>)
    returns (s': seq<HashInfo>, e': nat, lo': Part, hi': Part,
             ghost recs': seq<RecPtr>, ghost low': seq<nat>, ghost high': seq<nat>)
    requires ChainAt(isHigh, kind, s0, c, r, p) && t < |c| && pos == c[t]
    requires Progress(kind, s0, s, recs, c, t, r, p, low, high, e, lo, hi) && SameBag(s0, r, recs, e)
    ensures Progress(kind, s0, s', recs', c, t + 1, r, p, low', high', e', lo', hi') && SameBag(s0, r, recs', e')
    ensures pos < |s'| && s'[pos].next == TailAt(c, t + 1)
  {
    assert r !in c;
    LaterUntouched(c, t, r, low, high, e);
    LinkAt(s0, c, t);
    s', e', lo', hi', recs', low', high' := s, e, lo, hi, recs, low, high;
    if !isHigh(s[pos].rec) {
      if lo.found {
        s', lo', hi' := StepLow(isHigh, kind, s0, s, pos, lo, hi, recs, c, t, r, p, low, high, e);
        low' := low + [pos];
      } else if hi.found {
        MoveLow(isHigh, kind, s0, s, recs, c, t, r, p, high, e, lo, hi);
        ExchangeBag(recs, e, pos);
        recs', low' := Exchange(recs, e, pos), [e];
        lo', hi', e' := Part(true, false, e, s[pos].rec), hi.(used := false), pos;
      } else {
        FirstLow(isHigh, kind, s0, s, recs, c, t, r, p, high, e, lo, hi);
        lo', low' := Part(true, true, pos, s[pos].rec), [pos];
      }
    } else if hi.found {
      s', lo', hi' := StepHigh(isHigh, kind, s0, s, pos, lo, hi, recs, c, t, r, p, low, high, e);
      high' := high + [pos];
    } else {
      MoveHigh(isHigh, kind, s0, s, recs, c, t, r, p, low, e, lo, hi);
      ExchangeBag(recs, e, pos);
      recs', high' := Exchange(recs, e, pos), [e];
      lo', hi', e' := lo.(used := false), Part(true, false, e, s[pos].rec), pos;
    }
  }

  lemma ProgressStart(isHigh: RecPtr -> bool, kind: RecPtr -> nat, s0: seq<HashInfo>, c: seq<nat>, r: nat, p: nat)
    requires ChainAt(isHigh, kind, s0, c, r, p)
    ensures Reached(kind, s0, s0, c, 0, r, p, r, Part(false, false, 0, 0), Part(false, false, 0, 0))
  {
    var none := Part(false, false, 0, 0);
    assert c[..0] == [];
    assert forall j | 0 <= j < |c| :: c[j] in c;
    assert Progress(kind, s0, s0, Recs(s0, r + 1), c, 0, r, p, [], [], r, none, none);
  }

  /** The result of the splitting loop. */
  ghost predicate SplitResult(kind: RecPtr -> nat, s0: seq<HashInfo>, s: seq<HashInfo>, recs: seq<RecPtr>, c: seq<nat>,
                              r: nat, p: nat, low: seq<nat>, high: seq<nat>, e: nat)
  {
    && |s| == |s0| && r < |s0| && |recs| == r + 1
    && LinkedList(s, low) && LinkedList(s, high) && Shares(c, r, low, high, e)
    && (low != [] ==> low[0] == p) && (high != [] ==> high[0] == r)
    && (forall i | i in low :: i <= r && kind(s[i].rec) == p) && (forall i | i in high :: i <= r && kind(s[i].rec) == r)
    && (forall i | 0 <= i < |s| && i !in c && i != r :: s[i] == s0[i])
    && (forall i | 0 <= i <= r && i != e :: recs[i] == s[i].rec)
    && SameBag(s0, r, recs, e)
  }

  method CloseBoth(isHigh: RecPtr -> bool, ghost kind: RecPtr -> nat, s0: seq<HashInfo>, s: seq<HashInfo>, lo: Part,
                   hi: Part, ghost recs: seq<RecPtr>, ghost c: seq<nat>, ghost r: nat, ghost p: nat,
                   ghost low: seq<nat>, ghost high: seq<nat>, ghost e: nat)
    returns (s': seq<HashInfo>)
    requires ChainAt(isHigh, kind, s0, c, r, p)
    requires Progress(kind, s0, s, recs, c, |c|, r, p, low, high, e, lo, hi) && SameBag(s0, r, recs, e)
    ensures SplitResult(kind, s0, s', recs, c, r, p, low, high, e)
  {
    assert c[..|c|] == c;
    var s1 := Close(s, lo, recs, low);
    PartFrame(s, recs, high, hi, None, s1, recs, None);
    s' := Close(s1, hi, recs, high);
    KeepsList(s1, s', low);
  }

  lemma KeepsList(s: seq<HashInfo>, s': seq<HashInfo>, l: seq<nat>)
    requires LinkedList(s, l) && |s'| == |s| && forall x | x in l && x < |s| :: s'[x] == s[x]
    ensures LinkedList(s', l)
  {
    assert forall j | 0 <= j < |l| :: l[j] in l;
  }

  /** Where the loop is, whatever the lists. */
  ghost predicate Reached(kind: RecPtr -> nat, s0: seq<HashInfo>, s: seq<HashInfo>, c: seq<nat>, t: nat, r: nat, p: nat,
                          e: nat, lo: Part, hi: Part)
  {
    exists recs, low, high ::
      Progress(kind, s0, s, recs, c, t, r, p, low, high, e, lo, hi) && SameBag(s0, r, recs, e)
  }

  /** The same with the lists left out; `next` is the link of the entry that was dealt with. */
  method SplitNext(isHigh: RecPtr -> bool, ghost kind: RecPtr -> nat, s0: seq<HashInfo>, s: seq<HashInfo>, pos: nat,
                   e: nat, lo: Part, hi: Part, ghost c: seq<nat>, ghost t: nat, ghost r: nat, ghost p: nat)
    returns (s': seq<HashInfo>, e': nat, lo': Part, hi': Part, next: Option<nat>)
    requires ChainAt(isHigh, kind, s0, c, r, p) && t < |c| && pos == c[t]
    requires Reached(kind, s0, s, c, t, r, p, e, lo, hi)
    ensures Reached(kind, s0, s', c, t + 1, r, p, e', lo', hi') && next == TailAt(c, t + 1)
  {
    ghost var recs, low, high :|
      Progress(kind, s0, s, recs, c, t, r, p, low, high, e, lo, hi) && SameBag(s0, r, recs, e);
    s', e', lo', hi', recs, low, high := SplitStep(isHigh, kind, s0, s, pos, e, lo, hi, recs, c, t, r, p, low, high);
    next := s'[pos].next;
  }

  /** The loop of hp_write_key over the chain at `p`. */
  method SplitLoop(isHigh: RecPtr -> bool, ghost kind: RecPtr -> nat, s0: seq<HashInfo>, r: nat, p: nat,
                   ghost c: seq<nat>)
    returns (s: seq<HashInfo>, e: nat, lo: Part, hi: Part)
    requires ChainAt(isHigh, kind, s0, c, r, p)
    ensures Reached(kind, s0, s, c, |c|, r, p, e, lo, hi)
  {
    s, e, lo, hi := s0, r, Part(false, false, 0, 0), Part(false, false, 0, 0);
    var pos := Some(p);
    ghost var t := 0;
    ProgressStart(isHigh, kind, s0, c, r, p);
    while pos.Some?
      invariant 0 <= t <= |c| && pos == TailAt(c, t)
      invariant Reached(kind, s0, s, c, t, r, p, e, lo, hi)
      decreases |c| - t
    {
      s, e, lo, hi, pos := SplitNext(isHigh, kind, s0, s, pos.value, e, lo, hi, c, t, r, p);
      t := t + 1;
    }
  }

  /**
   Splits the chain at `p`: entries with the high bit form a list that starts in the new slot `r`,
   the others one that starts at `p`; slot `e` is left free.
   */
  method SplitChain(isHigh: RecPtr -> bool, ghost kind: RecPtr -> nat, s0: seq<HashInfo>, r: nat, p: nat,
                    ghost c: seq<nat>)
    returns (s: seq<HashInfo>, e: nat, both: bool, ghost low: seq<nat>, ghost high: seq<nat>, ghost recs: seq<RecPtr>)
    requires ChainAt(isHigh, kind, s0, c, r, p)
    ensures SplitResult(kind, s0, s, recs, c, r, p, low, high, e)
    ensures both <==> low != [] && high != []
  {
    var lo, hi;
    s, e, lo, hi := SplitLoop(isHigh, kind, s0, r, p, c);
    recs, low, high :| Progress(kind, s0, s, recs, c, |c|, r, p, low, high, e, lo, hi) && SameBag(s0, r, recs, e);
    s := CloseBoth(isHigh, kind, s0, s, lo, hi, recs, c, r, p, low, high, e);
    both := lo.found && hi.found;
  }

  // ---------------------------------------------------------------- making room for a new address

  /** The heads after a split: one more when both lists have entries. */
  lemma SplitHeads(s: seq<HashInfo>, hm: seq<nat>, rank: seq<nat>, prev: seq<nat>, r: nat, p: nat, c: seq<nat>,
                   low: seq<nat>, high: seq<nat>, e: nat, s': seq<HashInfo>, hm': seq<nat>)
    requires IsSplit(s, hm, rank, prev, r, p, c, low, high, e, s', hm') && hm[p] == p && (low != [] || high != [])
    ensures |Heads(hm', Upto(r + 1) - {e})| == |Heads(hm, Upto(r))| + (if low != [] && high != [] then 1 else 0)
  {
    var was, now := Heads(hm, Upto(r)), Heads(hm', Upto(r + 1) - {e});
    assert low != [] ==> low[0] in low;
    assert high != [] ==> high[0] in high;
    forall i: nat
      ensures i in now <==> (i in was && i != p) || (i == p && low != []) || (i == r && high != [])
    {
      if i <= r && i != e && i !in low && i !in high {
        OtherSlotOk(s, hm, rank, prev, r, p, c, low, high, e, s', hm', i);
      }
    }
    HeadCount(was, now, p, r, low != [], high != []);
  }

  lemma HeadCount(was: set<nat>, now: set<nat>, p: nat, r: nat, low: bool, high: bool)
    requires p in was && r !in was && (low || high)
    requires forall i: nat :: i in now <==> (i in was && i != p) || (i == p && low) || (i == r && high)
    ensures |now| == |was| + (if low && high then 1 else 0)
  {
    if low && high {
      assert now == was + {r};
    } else if low {
      assert now == was;
    } else {
      assert now == was - {p} + {r};
    }
  }

  /** The new addresses agree with the old ones outside the split chain. */
  ghost predicate Grows(a: RecPtr -> nat, a': RecPtr -> nat, isHigh: RecPtr -> bool, r: nat, p: nat) {
    p < r && forall x: RecPtr :: a(x) < r && a'(x) == if a(x) != p then a(x) else if isHigh(x) then r else p
  }

  lemma SplitIsSplit(a: RecPtr -> nat, a': RecPtr -> nat, isHigh: RecPtr -> bool, s0: seq<HashInfo>, s: seq<HashInfo>,
                     recs: seq<RecPtr>, rank: seq<nat>, prev: seq<nat>, c: seq<nat>, r: nat, p: nat,
                     low: seq<nat>, high: seq<nat>, e: nat)
    requires Grows(a, a', isHigh, r, p) && r < |s0| && Chained(s0, Homes(a, s0), Upto(r), rank, prev)
    requires forall i: nat | i < r :: i in c <==> Homes(a, s0)[i] == p
    requires forall i | i in c :: i < r
    requires SplitResult(a', s0, s, recs, c, r, p, low, high, e)
    ensures IsSplit(s0, Homes(a, s0), rank, prev, r, p, c, low, high, e, s, Homes(a', s))
  {
  }

  /** The bag of records once the splitting loop is done. */
  lemma SplitBag(kind: RecPtr -> nat, s0: seq<HashInfo>, s: seq<HashInfo>, recs: seq<RecPtr>, c: seq<nat>, r: nat,
                 p: nat, low: seq<nat>, high: seq<nat>, e: nat)
    requires SplitResult(kind, s0, s, recs, c, r, p, low, high, e)
    ensures e <= r && multiset(Recs(s, r + 1)) - multiset{s[e].rec} == multiset(Recs(s0, r))
  {
    UpdateBag(recs, e, s[e].rec);
    assert Recs(s, r + 1) == recs[e := s[e].rec];
    LastRecord(s0, r);
  }

  /** The first half of hp_write_key: address `r` is split off address `p`. */
  method MakeAddress(address: RecPtr -> nat, isHigh: RecPtr -> bool, s0: seq<HashInfo>, r: nat, p: nat, buckets0: int,
                     ghost newAddress: RecPtr -> nat, ghost rank: seq<nat>, ghost prev: seq<nat>)
    returns (s: seq<HashInfo>, e: nat, buckets: int, ghost rank': seq<nat>, ghost prev': seq<nat>)
    requires Grows(address, newAddress, isHigh, r, p) && r < |s0|
    requires Chained(s0, Homes(address, s0), Upto(r), rank, prev) && buckets0 == |Heads(Homes(address, s0), Upto(r))|
    ensures |s| == |s0| && e <= r && Chained(s, Homes(newAddress, s), Upto(r + 1) - {e}, rank', prev')
    ensures buckets == |Heads(Homes(newAddress, s), Upto(r + 1) - {e})|
    ensures multiset(Recs(s, r + 1)) - multiset{s[e].rec} == multiset(Recs(s0, r))
  {
    ghost var hm := Homes(address, s0);
    s, e, buckets, rank', prev' := s0, r, buckets0, rank, prev;
    if address(s0[p].rec) != p {
      NoChain(address, newAddress, isHigh, s0, r, p, rank, prev);
      LastRecord(s0, r);
      return;
    }
    ghost var top := HasAbove(rank);
    ghost var c := ChainFrom(s0, hm, Upto(r), rank, prev, p, top);
    ChainMembers(s0, hm, r, p, rank, prev, c);
    var both: bool;
    ghost var low, high, recs;
    s, e, both, low, high, recs := SplitChain(isHigh, newAddress, s0, r, p, c);
    if both {
      buckets := buckets + 1;
    }
    SplitIsSplit(address, newAddress, isHigh, s0, s, recs, rank, prev, c, r, p, low, high, e);
    Split(s0, hm, rank, prev, r, p, c, low, high, e, s, Homes(newAddress, s));
    assert c[0] in c;
    SplitHeads(s0, hm, rank, prev, r, p, c, low, high, e, s, Homes(newAddress, s));
    SplitBag(newAddress, s0, s, recs, c, r, p, low, high, e);
    rank', prev' := SplitRank(rank, low, high), SplitPrev(prev, low, high);
  }

  lemma ChainMembers(s: seq<HashInfo>, hm: seq<nat>, r: nat, p: nat, rank: seq<nat>, prev: seq<nat>, c: seq<nat>)
    requires Chained(s, hm, Upto(r), rank, prev) && r <= |s| && c != [] && c[0] == p && LinkedList(s, c)
    requires forall j | 0 <= j < |c| :: c[j] in Upto(r) && hm[c[j]] == p
    ensures forall i: nat | i < r :: i in c <==> hm[i] == p
    ensures forall i | i in c :: i < r
  {
    forall i: nat | i < r
      ensures i in c <==> hm[i] == p
    {
      if hm[i] == p {
        ChainComplete(s, hm, Upto(r), rank, prev, c, i);
      }
    }
  }

  /** Slot `p` holds an entry of another chain: no entry has address `p`, so none moves. */
  lemma NoChain(a: RecPtr -> nat, a': RecPtr -> nat, isHigh: RecPtr -> bool, s: seq<HashInfo>, r: nat, p: nat,
                rank: seq<nat>, prev: seq<nat>)
    requires Grows(a, a', isHigh, r, p) && r < |s| && Chained(s, Homes(a, s), Upto(r), rank, prev) && a(s[p].rec) != p
    ensures Chained(s, Homes(a', s), Upto(r + 1) - {r}, rank, prev)
    ensures Heads(Homes(a', s), Upto(r + 1) - {r}) == Heads(Homes(a, s), Upto(r))
  {
    assert Upto(r + 1) - {r} == Upto(r);
    forall i | i in Upto(r)
      ensures Homes(a', s)[i] == Homes(a, s)[i]
    {
      assert SlotOk(s, Homes(a, s), Upto(r), rank, prev, i);
    }
    Refit(s, Homes(a, s), Upto(r), rank, prev, s, Homes(a', s));
  }

  // ---------------------------------------------------------------- putting the new entry in place

  /** A new chain of one entry at a free address. */
  lemma PlaceHead(s: seq<HashInfo>, hm: seq<nat>, live: set<nat>, rank: seq<nat>, prev: seq<nat>, e: nat, x: HashInfo)
    requires Chained(s, hm, live, rank, prev) && e !in live && e < |s| && x.next == None
    ensures Chained(s[e := x], hm[e := e], live + {e}, rank, prev)
    ensures Heads(hm[e := e], live + {e}) == Heads(hm, live) + {e}
  {
    var s', hm', live' := s[e := x], hm[e := e], live + {e};
    forall i | i in live'
      ensures i < |s| && SlotOk(s', hm', live', rank, prev, i)
    {
      if i != e {
        assert SlotOk(s, hm, live, rank, prev, i);
      }
    }
  }

  lemma InsertBag(s: seq<HashInfo>, s': seq<HashInfo>, n: nat, e: nat, pos: nat, rec: RecPtr)
    requires n <= |s| == |s'| && e < n && pos < n && s'[pos].rec == rec
    requires (e != pos ==> s'[e].rec == s[pos].rec) &&
             forall i | 0 <= i < n && i != e && i != pos :: s'[i].rec == s[i].rec
    ensures multiset(Recs(s', n)) == multiset(Recs(s, n)) - multiset{s[e].rec} + multiset{rec}
  {
    var r := Recs(s, n);
    UpdateBag(r, e, s[pos].rec);
    if e == pos {
      UpdateBag(r, e, rec);
      assert Recs(s', n) == r[e := rec];
    } else {
      var r1: seq<RecPtr> := r[e := s[pos].rec];
      UpdateBag(r1, pos, rec);
      assert Recs(s', n) == r1[pos := rec];
    }
  }

  /** The addresses after slot `pos` got a new entry and slot `e` the old one of `pos`. */
  ghost function InsertHomes(hm: seq<nat>, pos: nat, e: nat): seq<nat>
    requires pos < |hm| && e < |hm|
  {
    hm[e := hm[pos]][pos := pos]
  }

  /** Slot `pos` has the new record, slot `e` the one it replaced. */
  ghost predicate Inserted(s0: seq<HashInfo>, s: seq<HashInfo>, pos: nat, e: nat, recpos: RecPtr)
    requires pos < |s0| && e < |s0|
  {
    && |s| == |s0| && s[pos].rec == recpos && (e != pos ==> s[e].rec == s0[pos].rec)
    && forall i | 0 <= i < |s0| && i != e && i != pos :: s[i].rec == s0[i].rec
  }

  method InsertSlots(s0: seq<HashInfo>, pos: nat, gpos: nat, e: nat, recpos: RecPtr, buckets0: int,
                     ghost hm: seq<nat>, ghost live: set<nat>, ghost rank: seq<nat>, ghost prev: seq<nat>)
    returns (s: seq<HashInfo>, buckets: int, ghost rank': seq<nat>, ghost prev': seq<nat>)
    requires Chained(s0, hm, live, rank, prev) && e !in live && e < |s0| && (pos in live || pos == e)
    requires pos != e ==> gpos == hm[pos]
    requires buckets0 == |Heads(hm, live)|
    ensures Inserted(s0, s, pos, e, recpos)
    ensures Chained(s, InsertHomes(hm, pos, e), live + {e}, rank', prev')
    ensures buckets == |Heads(InsertHomes(hm, pos, e), live + {e})|
    ensures s[pos].next == if pos != e && gpos == pos then Some(e) else None
  {
    if pos == e {
      s, buckets, rank', prev' := s0[e := HashInfo(None, recpos)], buckets0 + 1, rank, prev;
      PlaceHead(s0, hm, live, rank, prev, e, HashInfo(None, recpos));
      assert hm[e := e] == InsertHomes(hm, pos, e);
      assert e !in Heads(hm, live);
    } else if pos == gpos {
      s, buckets := s0[e := s0[pos]][pos := HashInfo(Some(e), recpos)], buckets0;
      rank' := PushHead(s0, hm, live, rank, prev, pos, e, HashInfo(Some(e), recpos));
      prev' := Relinked(s0, prev, pos, e)[e := pos];
      assert hm[e := pos] == InsertHomes(hm, pos, e);
    } else {
      buckets := buckets0 + 1;
      s, rank', prev' := InsertForeign(s0, pos, gpos, e, recpos, hm, live, rank, prev);
      assert live - {pos} + {e} + {pos} == live + {e};
    }
  }

  lemma InsertAddresses(a: RecPtr -> nat, s0: seq<HashInfo>, s: seq<HashInfo>, pos: nat, e: nat, recpos: RecPtr)
    requires pos < |s0| && e < |s0| && pos == a(recpos) && Inserted(s0, s, pos, e, recpos)
    ensures Homes(a, s) == InsertHomes(Homes(a, s0), pos, e)
  {
  }

  /** The second half of hp_write_key: the new entry takes its address, moving away what is there. */
  method Insert(address: RecPtr -> nat, s0: seq<HashInfo>, n: nat, e: nat, recpos: RecPtr, buckets0: int,
                ghost rank: seq<nat>, ghost prev: seq<nat>)
    returns (s: seq<HashInfo>, buckets: int, ghost rank': seq<nat>, ghost prev': seq<nat>)
    requires e < n <= |s0| && address(recpos) < n
    requires Chained(s0, Homes(address, s0), Upto(n) - {e}, rank, prev)
    requires buckets0 == |Heads(Homes(address, s0), Upto(n) - {e})|
    ensures Inserted(s0, s, address(recpos), e, recpos)
    ensures Chained(s, Homes(address, s), Upto(n), rank', prev')
    ensures buckets == |Heads(Homes(address, s), Upto(n))|
    ensures multiset(Recs(s, n)) == multiset(Recs(s0, n)) - multiset{s0[e].rec} + multiset{recpos}
  {
    assert Upto(n) - {e} + {e} == Upto(n);
    var pos := address(recpos);
    var gpos := if pos == e then 0 else address(s0[pos].rec);
    s, buckets, rank', prev' :=
      InsertSlots(s0, pos, gpos, e, recpos, buckets0, Homes(address, s0), Upto(n) - {e}, rank, prev);
    InsertAddresses(address, s0, s, pos, e, recpos);
    InsertBag(s0, s, n, e, pos, recpos);
  }

  /** The entry at `pos` belongs to the chain of `gpos`; it moves to `e` and `pos` starts a new chain. */
  method InsertForeign(s0: seq<HashInfo>, pos: nat, gpos: nat, e: nat, recpos: RecPtr,
                       ghost hm: seq<nat>, ghost live: set<nat>, ghost rank: seq<nat>, ghost prev: seq<nat>)
    returns (s: seq<HashInfo>, ghost rank': seq<nat>, ghost prev': seq<nat>)
    requires Chained(s0, hm, live, rank, prev) && pos in live && gpos == hm[pos] && gpos != pos && e !in live &&
             e < |s0|
    ensures |s| == |s0| && s[pos] == HashInfo(None, recpos) && s[e].rec == s0[pos].rec
    ensures forall i | 0 <= i < |s0| && i != e && i != pos :: s[i].rec == s0[i].rec
    ensures Chained(s, hm[e := hm[pos]][pos := pos], live - {pos} + {e} + {pos}, rank', prev')
    ensures |Heads(hm[e := hm[pos]][pos := pos], live - {pos} + {e} + {pos})| == |Heads(hm, live)| + 1
  {
    s, rank', prev' := MoveEntry(s0, pos, gpos, e, hm, live, rank, prev);
    assert SlotOk(s0, hm, live, rank, prev, pos);
    HeadsKept(hm, live, pos, e);
    PlaceHead(s, hm[e := hm[pos]], live - {pos} + {e}, rank', prev', pos, HashInfo(None, recpos));
    s := s[pos := HashInfo(None, recpos)];
  }

  // ---------------------------------------------------------------- hp_write_key

  /** Tells the records whose hash has the bit worth `half`. */
  function HasBit(h: RecPtr -> nat, half: nat): RecPtr -> bool {
    (x: RecPtr) => HighBit(h(x), half)
  }

  lemma AddressGrows(h: RecPtr -> nat, n: nat, b: nat)
    requires n >= 1 && GoodLength(n, b)
    ensures b / 2 >= 1 && b / 2 <= n
    ensures Grows(Address(h, b, n), Address(h, b, n + 1), HasBit(h, b / 2), n, n - b / 2)
  {
    forall x: RecPtr
      ensures var p := Mask(h(x), b, n);
              p < n && Mask(h(x), b, n + 1) == if p != n - b / 2 then p else if HighBit(h(x), b / 2) then n
                else n - b / 2
    {
      MaskGrow(h(x), n, b);
    }
    MaskGrow(0, n, b);
  }

  /** Looks for a record equal to the new one in the chain behind it. */
  method FindDuplicate(s: seq<HashInfo>, start: Option<nat>, sameKey: RecPtr -> bool, ghost c: seq<nat>)
    returns (dup: bool)
    requires c != [] && LinkedList(s, c) && s[c[0]].next == start
    ensures dup <==> exists j :: 1 <= j < |c| && sameKey(s[c[j]].rec)
  {
    var pos := start;
    ghost var t := 1;
    LinkAt(s, c, 0);
    while pos.Some?
      invariant 1 <= t <= |c| && pos == TailAt(c, t)
      invariant forall j | 1 <= j < t :: !sameKey(s[c[j]].rec)
      decreases |c| - t
    {
      if sameKey(s[pos.value].rec) {
        return true;
      }
      LinkAt(s, c, t);
      pos, t := s[pos.value].next, t + 1;
    }
    return false;
  }

  /** What every form of hp_write_key promises. */
  ghost predicate Written(k: Key, k': Key, records: nat, recpos: RecPtr, unique: bool, sameKey: RecPtr -> bool,
                          dup: bool)
  {
    && records <= |k.slots| && records + 1 <= |k'.slots|
    && multiset(Recs(k'.slots, records + 1)) == multiset(Recs(k.slots, records)) + multiset{recpos}
    && (dup <==> unique && exists x :: x in Recs(k.slots, records) && sameKey(x))
  }

  /** Puts the entry into the free slot `e`; the other records are those of `before`. */
  method PutEntry(address: RecPtr -> nat, s0: seq<HashInfo>, records: nat, e: nat, buckets0: int, recpos: RecPtr,
                  ghost before: seq<RecPtr>, ghost rank0: seq<nat>, ghost prev0: seq<nat>)
    returns (k: Key, ghost rank: seq<nat>, ghost prev: seq<nat>)
    requires e <= records < |s0| && address(recpos) <= records
    requires Chained(s0, Homes(address, s0), Upto(records + 1) - {e}, rank0, prev0)
    requires buckets0 == |Heads(Homes(address, s0), Upto(records + 1) - {e})|
    requires multiset(Recs(s0, records + 1)) - multiset{s0[e].rec} == multiset(before)
    ensures ValidBy(address, k, records + 1, rank, prev) && k.slots[address(recpos)].rec == recpos
    ensures multiset(Recs(k.slots, records + 1)) == multiset(before) + multiset{recpos}
  {
    var s, buckets;
    s, buckets, rank, prev := Insert(address, s0, records + 1, e, recpos, buckets0, rank0, prev0);
    k := Key(s, buckets);
  }

  /** The end of hp_write_key: put the entry into the free slot `e` and look for duplicates. */
  method Finish(address: RecPtr -> nat, k: Key, s0: seq<HashInfo>, records: nat, e: nat, buckets0: int, recpos: RecPtr,
                unique: bool, sameKey: RecPtr -> bool, ghost rank0: seq<nat>, ghost prev0: seq<nat>)
    returns (k': Key, dup: bool)
    requires records <= |k.slots| && e <= records < |s0| && address(recpos) <= records
    requires Chained(s0, Homes(address, s0), Upto(records + 1) - {e}, rank0, prev0)
    requires buckets0 == |Heads(Homes(address, s0), Upto(records + 1) - {e})|
    requires multiset(Recs(s0, records + 1)) - multiset{s0[e].rec} == multiset(Recs(k.slots, records))
    requires forall x: RecPtr | sameKey(x) :: address(x) == address(recpos)
    ensures ValidFor(address, k', records + 1) && Written(k, k', records, recpos, unique, sameKey, dup)
  {
    ghost var rank, prev;
    ghost var before := Recs(k.slots, records);
    k', rank, prev := PutEntry(address, s0, records, e, buckets0, recpos, before, rank0, prev0);
    var same := CheckDuplicate(address, k'.slots, records + 1, address(recpos), sameKey, before, rank, prev);
    dup := unique && same;
  }

  /** Tells whether some other record has the key of the one at `pos`; only its chain is looked at. */
  method CheckDuplicate(ghost address: RecPtr -> nat, s: seq<HashInfo>, n: nat, pos: nat, sameKey: RecPtr -> bool,
                        ghost before: seq<RecPtr>, ghost rank: seq<nat>, ghost prev: seq<nat>)
    returns (dup: bool)
    requires pos < n <= |s| && Chained(s, Homes(address, s), Upto(n), rank, prev) && address(s[pos].rec) == pos
    requires multiset(Recs(s, n)) == multiset(before) + multiset{s[pos].rec}
    requires forall x: RecPtr | sameKey(x) :: address(x) == pos
    ensures dup <==> exists x :: x in before && sameKey(x)
  {
    ghost var c := FullChain(s, Homes(address, s), n, rank, prev, pos);
    DuplicateInChain(address, s, n, pos, c, sameKey, before);
    dup := FindDuplicate(s, s[pos].next, sameKey, c);
  }

  /** An equal record elsewhere in the index can only be in the chain of the new one. */
  lemma DuplicateInChain(a: RecPtr -> nat, s: seq<HashInfo>, n: nat, pos: nat, c: seq<nat>, sameKey: RecPtr -> bool,
                         before: seq<RecPtr>)
    requires pos < n <= |s| && c != [] && c[0] == pos && Distinct(c) && a(s[pos].rec) == pos
    requires forall i: nat | i < n :: i in c <==> a(s[i].rec) == pos
    requires forall i | i in c :: i < n
    requires forall x: RecPtr | sameKey(x) :: a(x) == pos
    requires multiset(Recs(s, n)) == multiset(before) + multiset{s[pos].rec}
    ensures forall j | 0 <= j < |c| :: c[j] < n
    ensures (exists x :: x in before && sameKey(x)) <==> exists j :: 1 <= j < |c| && sameKey(s[c[j]].rec)
  {
    assert forall j | 0 <= j < |c| :: c[j] in c;
    OtherRecords(s, n, pos, before);
    if x :| x in before && sameKey(x) {
      var i :| 0 <= i < n && i != pos && s[i].rec == x;
      assert i in c;
      assert c[IndexOf(c, i)] == i;
    }
    if j :| 1 <= j < |c| && sameKey(s[c[j]].rec) {
      assert c[0] != c[j] && c[j] in c;
      assert s[c[j]].rec in before;
    }
  }

  /** The records outside slot `pos` are the ones that were there before. */
  lemma OtherRecords(s: seq<HashInfo>, n: nat, pos: nat, before: seq<RecPtr>)
    requires pos < n <= |s| && multiset(Recs(s, n)) == multiset(before) + multiset{s[pos].rec}
    ensures forall x :: x in before <==> exists i :: 0 <= i < n && i != pos && s[i].rec == x
  {
    var r := Recs(s, n);
    assert r == r[..pos] + [r[pos]] + r[pos + 1..];
    SameBagElements(Without(r, pos), before, s[pos].rec);
    forall x
      ensures x in before <==> exists i :: 0 <= i < n && i != pos && s[i].rec == x
    {
      Others(s, n, pos, x);
    }
  }

  ghost function Without(r: seq<RecPtr>, pos: nat): seq<RecPtr>
    requires pos < |r|
  {
    r[..pos] + r[pos + 1..]
  }

  lemma Others(s: seq<HashInfo>, n: nat, pos: nat, x: RecPtr)
    requires pos < n <= |s|
    ensures x in Without(Recs(s, n), pos) <==> exists i :: 0 <= i < n && i != pos && s[i].rec == x
  {
    var others := Without(Recs(s, n), pos);
    if q :| 0 <= q < |others| && others[q] == x {
      assert s[if q < pos then q else q + 1].rec == x;
    }
    if i :| 0 <= i < n && i != pos && s[i].rec == x {
      assert others[if i < pos then i else i - 1] == x;
    }
  }

  lemma SameBagElements(a: seq<RecPtr>, b: seq<RecPtr>, y: RecPtr)
    requires multiset(a) + multiset{y} == multiset(b) + multiset{y}
    ensures forall x :: x in a <==> x in b
  {
    forall x
      ensures x in a <==> x in b
    {
      assert (multiset(a) + multiset{y})[x] == (multiset(b) + multiset{y})[x];
      assert x in a <==> x in multiset(a);
      assert x in b <==> x in multiset(b);
    }
  }

  /** The chain at `pos`, as a list. */
  lemma FullChain(s: seq<HashInfo>, hm: seq<nat>, n: nat, rank: seq<nat>, prev: seq<nat>, pos: nat)
    returns (c: seq<nat>)
    requires n <= |s| && Chained(s, hm, Upto(n), rank, prev) && pos < n && hm[pos] == pos
    ensures c != [] && c[0] == pos && LinkedList(s, c) && Distinct(c)
    ensures forall i: nat | i < n :: i in c <==> hm[i] == pos
    ensures forall i | i in c :: i < n
  {
    var top := HasAbove(rank);
    c := ChainFrom(s, hm, Upto(n), rank, prev, pos, top);
    ChainMembers(s, hm, n, pos, rank, prev, c);
  }

  lemma Enlarged(s: seq<HashInfo>, hm: seq<nat>, live: set<nat>, rank: seq<nat>, prev: seq<nat>, x: HashInfo, y: nat)
    requires Chained(s, hm, live, rank, prev)
    ensures Chained(s + [x], hm + [y], live, rank + [0], prev + [0])
    ensures Heads(hm + [y], live) == Heads(hm, live)
  {
    forall i | i in live
      ensures i < |s| && SlotOk(s + [x], hm + [y], live, rank + [0], prev + [0], i)
    {
      assert SlotOk(s, hm, live, rank, prev, i);
    }
  }

  /** hp_find_free_hash: a slot behind the ones in use, allocated if need be. */
  method FreeSlot(k: Key, records: nat, ghost a: RecPtr -> nat, ghost rank0: seq<nat>, ghost prev0: seq<nat>)
    returns (s: seq<HashInfo>, ghost rank: seq<nat>, ghost prev: seq<nat>)
    requires records <= |k.slots| && ValidBy(a, k, records, rank0, prev0)
    ensures records < |s| && Recs(s, records) == Recs(k.slots, records)
    ensures ValidBy(a, Key(s, k.hashBuckets), records, rank, prev)
  {
    s, rank, prev := k.slots, rank0, prev0;
    if records == |s| {
      Enlarged(s, Homes(a, s), Upto(records), rank, prev, HashInfo(None, 0), a(0));
      s, rank, prev := s + [HashInfo(None, 0)], rank + [0], prev + [0];
      assert Homes(a, s) == Homes(a, k.slots) + [a(0)];
    }
  }

  /** hp_write_key when the table already has records: address `records` is split off address `p`. */
  method WriteWith(address: RecPtr -> nat, newAddress: RecPtr -> nat, isHigh: RecPtr -> bool, k: Key, records: nat,
                   p: nat, recpos: RecPtr, unique: bool, sameKey: RecPtr -> bool)
    returns (k': Key, dup: bool)
    requires Grows(address, newAddress, isHigh, records, p) && ValidFor(address, k, records)
    requires forall x: RecPtr | sameKey(x) :: newAddress(x) == newAddress(recpos)
    ensures ValidFor(newAddress, k', records + 1) && Written(k, k', records, recpos, unique, sameKey, dup)
  {
    ghost var rank, prev :| ValidBy(address, k, records, rank, prev);
    var s;
    s, rank, prev := FreeSlot(k, records, address, rank, prev);
    var e, buckets;
    s, e, buckets, rank, prev := MakeAddress(address, isHigh, s, records, p, k.hashBuckets, newAddress, rank, prev);
    k', dup := Finish(newAddress, k, s, records, e, buckets, recpos, unique, sameKey, rank, prev);
  }

  /** hp_write_key for the first record. */
  method WriteFirst(address: RecPtr -> nat, k: Key, recpos: RecPtr, unique: bool, sameKey: RecPtr -> bool)
    returns (k': Key, dup: bool)
    requires k.hashBuckets == 0 && address(recpos) == 0
    requires forall x: RecPtr | sameKey(x) :: address(x) == 0
    ensures ValidFor(address, k', 1) && Written(k, k', 0, recpos, unique, sameKey, dup)
  {
    var s := k.slots;
    if |s| == 0 {
      s := s + [HashInfo(None, 0)];
    }
    ghost var none := EmptyIndex(address, s);
    k', dup := Finish(address, k, s, 0, 0, 0, recpos, unique, sameKey, none, none);
  }

  lemma EmptyIndex(a: RecPtr -> nat, s: seq<HashInfo>) returns (none: seq<nat>)
    requires s != []
    ensures Chained(s, Homes(a, s), Upto(1) - {0}, none, none) && |Heads(Homes(a, s), Upto(1) - {0})| == 0
    ensures multiset(Recs(s, 1)) - multiset{s[0].rec} == multiset{}
  {
    none := seq<nat>(|s|, _ => 0);
    assert Upto(1) - {0} == {};
    assert Heads(Homes(a, s), {}) == {};
    LastRecord(s, 0);
  }

  lemma SameAddress(h: RecPtr -> nat, b: nat, n: nat, recpos: RecPtr, sameKey: RecPtr -> bool)
    requires b >= 1 && n >= 1 && forall x: RecPtr | sameKey(x) :: h(x) == h(recpos)
    ensures forall x: RecPtr | sameKey(x) :: Address(h, b, n)(x) == Address(h, b, n)(recpos)
  {
  }

  lemma FirstAddress(h: RecPtr -> nat)
    ensures forall x: RecPtr :: Address(h, 1, 1)(x) == 0
  {
    forall x: RecPtr
      ensures Address(h, 1, 1)(x) == 0
    {
      assert LowBits(h(x), 1) == 0;
    }
  }

  /**
   hp_write_key, called while the share still has the old `records`.  `sameKey` tells which records
   have the key of the new one; a duplicate on a unique key is reported after the entry was added.
   */
  method WriteKey(h: RecPtr -> nat, k: Key, records: nat, blength: nat, recpos: RecPtr, unique: bool,
                  sameKey: RecPtr -> bool)
    returns (k': Key, dup: bool)
    requires GoodLength(records, blength) && Valid(h, k, records, blength)
    requires forall x: RecPtr | sameKey(x) :: h(x) == h(recpos)
    ensures Valid(h, k', records + 1, blength) && Written(k, k', records, recpos, unique, sameKey, dup)
  {
    SameAddress(h, blength, records + 1, recpos, sameKey);
    if records == 0 {
      FirstAddress(h);
      k', dup := WriteFirst(Address(h, 1, 1), k, recpos, unique, sameKey);
    } else {
      AddressGrows(h, records, blength);
      k', dup := WriteWith(Address(h, blength, records), Address(h, blength, records + 1), HasBit(h, blength / 2), k,
                           records, records - blength / 2, recpos, unique, sameKey);
    }
  }
}
