/**
 The main loop of init_replace: every state gets its 256 transitions, new states are
 appended until none is left without transitions.
 */
module Construction {
  import opened LeftmostLongest
  import opened FollowTable
  import opened MatchStates
  import opened Automaton

  /** What holds of the tables after the first `done` states are finished. */
  ghost predicate Inv(from: seq<seq<Byte>>, f: seq<Follow>, sets: seq<RepSet>, found: seq<FoundSet>,
                      maxLength: nat, done: nat)
  {
    && Cells(from, f)
    && GoodSets(from, f, sets)
    && GoodFound(from, found, maxLength)
    && (forall i | 0 <= i < |from| :: |from[i]| <= maxLength)
    && done <= |sets|
    && forall q | 0 <= q < done :: Complete(from, f, sets, found, sets[q])
  }

  // ---------------------------------------------------------------- keeping the tables good

  /** A match that a live state may record fits the found table. */
  lemma RoomForFound(from: seq<seq<Byte>>, found: seq<FoundSet>, maxLength: nat, tableOffset: int, foundOffset: int)
    requires GoodFound(from, found, maxLength)
    requires 0 <= tableOffset < |from| && 1 <= foundOffset <= maxLength
    requires FoundSet(tableOffset, foundOffset) !in found
    ensures |found| < |from| * maxLength
    ensures GoodFound(from, found + [FoundSet(tableOffset, foundOffset)], maxLength)
  {
    FoundFits(from, found + [FoundSet(tableOffset, foundOffset)], maxLength);
  }

  method AddFound(founds: FoundSets, ghost from: seq<seq<Byte>>, ghost maxLength: nat, tableOffset: int,
                  foundOffset: int)
    returns (n: int)
    requires GoodFound(from, founds.found, maxLength) && founds.capacity == |from| * maxLength
    requires 0 <= tableOffset < |from| && 1 <= foundOffset <= maxLength
    modifies founds
    ensures old(founds.found) <= founds.found && GoodFound(from, founds.found, maxLength)
    ensures IsFound(founds.found, n, tableOffset, foundOffset)
  {
    if FoundSet(tableOffset, foundOffset) !in founds.found {
      RoomForFound(from, founds.found, maxLength, tableOffset, foundOffset);
    }
    n := founds.FindFound(tableOffset, foundOffset);
  }

  /** Stores the candidate in the last place and looks it up by its bits. */
  method AddSet(sets: RepSets, ghost from: seq<seq<Byte>>, ghost f: seq<Follow>, s: RepSet) returns (n: nat)
    requires Cells(from, f) && |sets.sets| > 2
    requires GoodSets(from, f, sets.sets[..|sets.sets| - 1]) && Represented(from, f, s)
    modifies sets
    ensures GoodSets(from, f, sets.sets) && n < |sets.sets|
    ensures old(sets.sets)[..|old(sets.sets)| - 1] <= sets.sets
    ensures forall u | Den(from, f, s, u) :: Den(from, f, sets.sets[n], u)
  {
    var last := |sets.sets| - 1;
    ghost var before := sets.sets[..last];
    sets.sets := sets.sets[last := s];
    ghost var full := sets.sets;
    assert full[..last] == before;
    n := sets.FindSet();
    if n < last {
      assert sets.sets == before;
      assert Represented(from, f, before[n]);
      ghost var t :| Den(from, f, before[n], t);
      forall u | Den(from, f, s, u)
        ensures Den(from, f, before[n], u)
      {
        MergeDenotes(from, f, before[n].bits, before[n].tableOffset, before[n].foundOffset, t, u);
      }
    } else {
      NewSetGood(from, f, before, s);
      assert full == before + [s];
    }
  }

  lemma NewSetGood(from: seq<seq<Byte>>, f: seq<Follow>, sets: seq<RepSet>, s: RepSet)
    requires Cells(from, f) && GoodSets(from, f, sets) && Represented(from, f, s)
    requires forall q | 0 <= q < |sets| :: sets[q].bits != s.bits
    ensures GoodSets(from, f, sets + [s])
  {
  }

  // ---------------------------------------------------------------- one character

  /** A character that no open cell expects. */
  lemma UnusedTarget(from: seq<seq<Byte>>, f: seq<Follow>, sets: seq<RepSet>, found: seq<FoundSet>,
                     s: RepSet, defaultState: int, chr: Byte)
    requires Cells(from, f) && GoodSets(from, f, sets)
    requires forall b | b in OpenOf(f, s.bits) && 1 <= b < |f| :: f[b].chr != chr
    requires if Terminals(f, s.bits) == {} then defaultState == 0
             else IsFound(found, defaultState, s.tableOffset, s.foundOffset + 1)
    ensures TargetAll(from, f, sets, found, s, if chr != 0 then defaultState else -1, chr)
  {
    var n := if chr != 0 then defaultState else -1;
    forall t | Den(from, f, s, t)
      ensures Target(from, f, sets, found, n, t, chr)
    {
      OpenOfDenoted(from, f, s, t);
      if chr != 0 {
        assert Advance(f, OpenOf(f, s.bits), chr) == {};
        AdvanceNone(from, f, s, t, chr);
        if Best(from, t).None? {
          EmptyText(from, f);
          MergeDenotes(from, f, sets[0].bits, sets[0].tableOffset, sets[0].foundOffset, [], t + [chr]);
        }
      }
    }
  }

  /** The entry to record at the end of a line while a match is pending. */
  method EndCandidate(ghost from: seq<seq<Byte>>, f: seq<Follow>, ghost maxLength: nat, s: RepSet, open: set<nat>)
    returns (tableOffset: int, foundOffset: int)
    requires Cells(from, f) && forall i | 0 <= i < |from| :: |from[i]| <= maxLength
    requires Represented(from, f, s) && open == OpenOf(f, s.bits) && Terminals(f, open) != {}
    requires forall b | b in open :: 1 <= b < |f|
    ensures tableOffset == s.tableOffset && foundOffset == s.foundOffset + 1
    ensures 0 <= tableOffset < |from| && 1 <= foundOffset <= maxLength
  {
    var bits, foundEnd := Followers(f, open, 0);
    ghost var t0 :| Den(from, f, s, t0);
    EndMeaning(from, f, s, t0, bits, foundEnd);
    OffsetBound(from, f, t0, maxLength);
    PrunePrecondition(from, f, bits);
    var foundLen, bitsSet;
    bits, tableOffset, foundOffset, foundLen, bitsSet :=
      Prune(f, bits, 0, foundEnd, s.tableOffset, s.foundOffset + 1, EndCell(from, s.tableOffset));
  }

  lemma EndTarget(from: seq<seq<Byte>>, f: seq<Follow>, sets: seq<RepSet>, found: seq<FoundSet>, s: RepSet, n: int)
    requires Cells(from, f) && Terminals(f, OpenOf(f, s.bits)) != {}
    requires IsFound(found, n, s.tableOffset, s.foundOffset + 1)
    ensures TargetAll(from, f, sets, found, s, n, 0)
  {
    forall t | Den(from, f, s, t)
      ensures Target(from, f, sets, found, n, t, 0)
    {
      OpenOfDenoted(from, f, s, t);
    }
  }

  lemma PrunePrecondition(from: seq<seq<Byte>>, f: seq<Follow>, bits: set<nat>)
    requires Cells(from, f)
    requires forall q | q in bits :: 1 <= q < |f| && (f[q].chr == 0 || f[q].Matched() >= 1)
    ensures forall q | q in bits :: 1 < q < |f| && f[q - 1].len == f[q].Matched()
  {
    forall q | q in bits
      ensures 1 < q < |f| && f[q - 1].len == f[q].Matched()
    {
      assert IsCell(from, f[q]);
      assert from[f[q].tableOffset] != [];
      assert q > 1 && Extends(f[q - 1], f[q]) && IsCell(from, f[q - 1]);
    }
  }

  lemma FollowersRange(from: seq<seq<Byte>>, f: seq<Follow>, open: set<nat>, chr: Byte)
    requires Cells(from, f) && chr != 0
    ensures forall q | q in Terminals(f, open) + Advance(f, open, chr) ::
              1 <= q < |f| && (f[q].chr == 0 || f[q].Matched() >= 1)
  {
    forall q | q in Advance(f, open, chr)
      ensures 1 <= q < |f| && f[q].Matched() >= 1
    {
      assert Extends(f[q - 1], f[q]) && IsCell(from, f[q - 1]);
    }
  }

  /** `r` is the state after `c`, or, when `only`, the match that is left alone in it. */
  ghost predicate Outcome(from: seq<seq<Byte>>, f: seq<Follow>, u: seq<Byte>, r: RepSet, only: bool)
    requires Cells(from, f)
  {
    if only
    then Final(from, f, u) && Best(from, u).value.which == r.tableOffset &&
      |u| - Best(from, u).value.start == r.foundOffset
    else Den(from, f, r, u)
  }

  ghost predicate OutcomeAll(from: seq<seq<Byte>>, f: seq<Follow>, s: RepSet, c: Byte, r: RepSet, only: bool)
    requires Cells(from, f)
  {
    forall t | Den(from, f, s, t) :: Outcome(from, f, t + [c], r, only)
  }

  /** The set made for a character that some open cell expects. */
  method Candidate(ghost from: seq<seq<Byte>>, f: seq<Follow>, ghost maxLength: nat,
                   s: RepSet, open: set<nat>, chr: Byte, fresh0: RepSet)
    returns (r: RepSet, only: bool)
    requires Cells(from, f) && forall i | 0 <= i < |from| :: |from[i]| <= maxLength
    requires Represented(from, f, s) && open == OpenOf(f, s.bits) && chr != 0
    requires forall b | b in open :: 1 <= b < |f|
    requires exists b :: b in open && f[b].chr == chr
    ensures OutcomeAll(from, f, s, chr, r, only)
    ensures only ==> 0 <= r.tableOffset < |from| && 1 <= r.foundOffset <= maxLength
  {
    var bits, foundEnd := Followers(f, open, chr);
    if foundEnd != 0 {
      ghost var first := FirstCompleted(from, f, s, chr, bits, foundEnd);
      FollowersRange(from, f, open, chr);
      PrunePrecondition(from, f, bits);
      CompletedBound(from, f, first, maxLength);
      ghost var bits0 := bits;
      var tableOffset, foundOffset, foundLen, bitsSet;
      bits, tableOffset, foundOffset, foundLen, bitsSet :=
        Prune(f, bits, chr, foundEnd, s.tableOffset, s.foundOffset + 1, first);
      r := fresh0.(bits := bits, tableOffset := tableOffset, foundOffset := foundOffset, foundLen := foundLen);
      only := bitsSet == 1;
      SomeCompleted(from, f, s, chr, bits0, foundEnd, first, r);
    } else {
      r := fresh0.(bits := bits, tableOffset := s.tableOffset, foundOffset := s.foundOffset + 1,
                   foundLen := s.foundLen);
      only := false;
      NothingCompleted(from, f, s, chr, r);
    }
  }

  lemma CompletedBound(from: seq<seq<Byte>>, f: seq<Follow>, first: nat, maxLength: nat)
    requires Cells(from, f) && 1 <= first < |f|
    requires forall i | 0 <= i < |from| :: |from[i]| <= maxLength
    ensures f[first].tableOffset < |from| && f[first].Matched() <= maxLength
  {
    assert IsCell(from, f[first]);
  }

  /** What Followers promises about its result. */
  ghost predicate IsFollowers(f: seq<Follow>, s: RepSet, c: Byte, bits: set<nat>, foundEnd: nat) {
    && bits == Terminals(f, OpenOf(f, s.bits)) + Advance(f, OpenOf(f, s.bits), c)
    && (forall q: nat | Completed(f, OpenOf(f, s.bits), c, q) :: f[q].Matched() <= foundEnd)
    && exists q: nat :: Completed(f, OpenOf(f, s.bits), c, q) && f[q].Matched() == foundEnd
  }

  ghost predicate FirstOk(f: seq<Follow>, s: RepSet, c: Byte, bits: set<nat>, foundEnd: nat, first: nat) {
    && IsFirst(f, bits, foundEnd, first)
    && first in Advance(f, OpenOf(f, s.bits), c) && f[first].Matched() == foundEnd
    && forall q | q in Terminals(f, OpenOf(f, s.bits)) :: f[q].Matched() < foundEnd
  }

  lemma FirstCompleted(from: seq<seq<Byte>>, f: seq<Follow>, s: RepSet, c: Byte, bits: set<nat>, foundEnd: nat)
    returns (first: nat)
    requires Cells(from, f) && c != 0 && Represented(from, f, s) && IsFollowers(f, s, c, bits, foundEnd)
    ensures FirstOk(f, s, c, bits, foundEnd, first)
  {
    var t :| Den(from, f, s, t);
    first := CompletedFirst(from, f, s, t, c, bits, foundEnd);
  }

  lemma SomeCompleted(from: seq<seq<Byte>>, f: seq<Follow>, s: RepSet, c: Byte,
                      bits: set<nat>, foundEnd: nat, first: nat, r: RepSet)
    requires Cells(from, f) && c != 0 && IsFollowers(f, s, c, bits, foundEnd)
    requires FirstOk(f, s, c, bits, foundEnd, first)
    requires r.bits == Pruned(f, bits, foundEnd, first)
    requires r.tableOffset == f[first].tableOffset && r.foundOffset == foundEnd
    ensures OutcomeAll(from, f, s, c, r, |r.bits| == 1)
  {
    forall t | Den(from, f, s, t)
      ensures Outcome(from, f, t + [c], r, |r.bits| == 1)
    {
      CompletedMeaning(from, f, s, t, c, bits, foundEnd, first, r);
    }
  }

  lemma NothingCompleted(from: seq<seq<Byte>>, f: seq<Follow>, s: RepSet, chr: Byte, newSet: RepSet)
    requires Cells(from, f) && chr != 0
    requires exists b :: b in OpenOf(f, s.bits) && 1 <= b < |f| && f[b].chr == chr
    requires forall q: nat | Completed(f, OpenOf(f, s.bits), chr, q) :: f[q].Matched() <= 0
    requires newSet.bits == Terminals(f, OpenOf(f, s.bits)) + Advance(f, OpenOf(f, s.bits), chr)
    requires newSet.tableOffset == s.tableOffset && newSet.foundOffset == s.foundOffset + 1
    ensures OutcomeAll(from, f, s, chr, newSet, false)
  {
    var b :| b in OpenOf(f, s.bits) && 1 <= b < |f| && f[b].chr == chr;
    assert b + 1 in Advance(f, OpenOf(f, s.bits), chr);
    forall q: nat
      ensures !Completed(f, OpenOf(f, s.bits), chr, q)
    {
      if 1 <= q < |f| && f[q].chr == 0 {
        assert IsCell(from, f[q]);
        assert from[f[q].tableOffset] != [];
      }
    }
    forall t | Den(from, f, s, t)
      ensures Outcome(from, f, t + [chr], newSet, false)
    {
      AdvanceOnly(from, f, s, t, chr, newSet);
    }
  }

  // ---------------------------------------------------------------- storing the result

  lemma FoundTarget(from: seq<seq<Byte>>, f: seq<Follow>, sets: seq<RepSet>, found: seq<FoundSet>,
                    s: RepSet, c: Byte, r: RepSet, n: int)
    requires Cells(from, f) && c != 0 && OutcomeAll(from, f, s, c, r, true)
    requires IsFound(found, n, r.tableOffset, r.foundOffset)
    ensures TargetAll(from, f, sets, found, s, n, c)
  {
    forall t | Den(from, f, s, t)
      ensures Target(from, f, sets, found, n, t, c)
    {
      assert Outcome(from, f, t + [c], r, true);
    }
  }

  lemma SetTarget(from: seq<seq<Byte>>, f: seq<Follow>, sets: seq<RepSet>, found: seq<FoundSet>,
                  s: RepSet, c: Byte, r: RepSet, n: nat)
    requires Cells(from, f) && c != 0 && OutcomeAll(from, f, s, c, r, false) && n < |sets|
    requires forall u | Den(from, f, r, u) :: Den(from, f, sets[n], u)
    ensures TargetAll(from, f, sets, found, s, n, c)
  {
    forall t | Den(from, f, s, t)
      ensures Target(from, f, sets, found, n, t, c)
    {
      assert Outcome(from, f, t + [c], r, false);
    }
  }

  lemma OutcomeRepresented(from: seq<seq<Byte>>, f: seq<Follow>, s: RepSet, c: Byte, r: RepSet)
    requires Cells(from, f) && Represented(from, f, s) && OutcomeAll(from, f, s, c, r, false)
    ensures Represented(from, f, r)
  {
    var t :| Den(from, f, s, t);
    assert Outcome(from, f, t + [c], r, false);
  }

  /** The transition of state `s` at the end of a line, when some match is pending. */
  method EndTransition(sets: RepSets, founds: FoundSets, ghost from: seq<seq<Byte>>, f: seq<Follow>,
                       ghost maxLength: nat, s: RepSet, open: set<nat>) returns (next: int)
    requires Cells(from, f) && GoodFound(from, founds.found, maxLength)
    requires founds.capacity == |from| * maxLength && forall i | 0 <= i < |from| :: |from[i]| <= maxLength
    requires Represented(from, f, s) && open == OpenOf(f, s.bits)
    requires forall b | b in open :: 1 <= b < |f|
    requires exists b :: b in open && f[b].chr == 0
    modifies founds
    ensures GoodFound(from, founds.found, maxLength) && old(founds.found) <= founds.found
    ensures TargetAll(from, f, sets.sets, founds.found, s, next, 0)
  {
    TerminalOpen(f, open);
    var tableOffset, foundOffset := EndCandidate(from, f, maxLength, s, open);
    next := AddFound(founds, from, maxLength, tableOffset, foundOffset);
    EndTarget(from, f, sets.sets, founds.found, s, next);
  }

  /** The transition of state `s` on a character that some open cell expects. */
  method CharTransition(sets: RepSets, founds: FoundSets, ghost from: seq<seq<Byte>>, f: seq<Follow>,
                        ghost maxLength: nat, s: RepSet, open: set<nat>, chr: Byte) returns (next: int)
    requires Cells(from, f) && GoodSets(from, f, sets.sets) && GoodFound(from, founds.found, maxLength)
    requires founds.capacity == |from| * maxLength && forall i | 0 <= i < |from| :: |from[i]| <= maxLength
    requires Represented(from, f, s) && open == OpenOf(f, s.bits) && chr != 0
    requires forall b | b in open :: 1 <= b < |f|
    requires exists b :: b in open && f[b].chr == chr
    modifies sets, founds
    ensures GoodSets(from, f, sets.sets) && GoodFound(from, founds.found, maxLength)
    ensures old(founds.found) <= founds.found && old(sets.sets) <= sets.sets
    ensures TargetAll(from, f, sets.sets, founds.found, s, next, chr)
  {
    ghost var sets0 := sets.sets;
    sets.MakeNewSet();
    assert sets.sets[..|sets.sets| - 1] == sets0;
    var r, only := Candidate(from, f, maxLength, s, open, chr, sets.sets[|sets.sets| - 1]);
    if only {
      next := AddFound(founds, from, maxLength, r.tableOffset, r.foundOffset);
      sets.FreeLastSet();
      FoundTarget(from, f, sets.sets, founds.found, s, chr, r, next);
    } else {
      OutcomeRepresented(from, f, s, chr, r);
      next := AddSet(sets, from, f, r);
      SetTarget(from, f, sets.sets, founds.found, s, chr, r, next);
    }
  }

  lemma TerminalOpen(f: seq<Follow>, open: set<nat>)
    requires forall b | b in open :: 1 <= b < |f|
    requires exists b :: b in open && f[b].chr == 0
    ensures Terminals(f, open) != {}
  {
    var b :| b in open && f[b].chr == 0;
    assert b in Terminals(f, open);
  }

  // ---------------------------------------------------------------- one state, all characters

  /** The transitions computed so far are right for state `s`. */
  ghost predicate Targets(from: seq<seq<Byte>>, f: seq<Follow>, sets: seq<RepSet>, found: seq<FoundSet>,
                          s: RepSet, next: seq<int>)
    requires Cells(from, f) && |next| <= 256
  {
    forall c: Byte | c < |next| :: TargetAll(from, f, sets, found, s, next[c], c)
  }

  lemma TargetsGrow(from: seq<seq<Byte>>, f: seq<Follow>, sets: seq<RepSet>, sets': seq<RepSet>,
                    found: seq<FoundSet>, found': seq<FoundSet>, s: RepSet, next: seq<int>)
    requires Cells(from, f) && |next| <= 256 && Grows(sets, sets') && found <= found'
    requires Targets(from, f, sets, found, s, next)
    ensures Targets(from, f, sets', found', s, next)
  {
    forall c: Byte | c < |next|
      ensures TargetAll(from, f, sets', found', s, next[c], c)
    {
      TargetGrows(from, f, sets, sets', found, found', s, next[c], c);
    }
  }

  lemma TargetsAppend(from: seq<seq<Byte>>, f: seq<Follow>, sets: seq<RepSet>, sets': seq<RepSet>,
                      found: seq<FoundSet>, found': seq<FoundSet>, s: RepSet, next: seq<int>, n: int)
    requires Cells(from, f) && |next| < 256 && sets <= sets' && found <= found'
    requires Targets(from, f, sets, found, s, next) && TargetAll(from, f, sets', found', s, n, |next|)
    ensures Targets(from, f, sets', found', s, next + [n])
  {
    TargetsGrow(from, f, sets, sets', found, found', s, next);
  }

  /** The starting point of the loop over characters: the pending match and the open cells. */
  method Prepare(sets: RepSets, founds: FoundSets, ghost from: seq<seq<Byte>>, f: seq<Follow>,
                 ghost maxLength: nat, s: RepSet)
    returns (defaultState: int, open: set<nat>)
    requires Cells(from, f) && GoodSets(from, f, sets.sets) && GoodFound(from, founds.found, maxLength)
    requires founds.capacity == |from| * maxLength && forall i | 0 <= i < |from| :: |from[i]| <= maxLength
    requires Represented(from, f, s)
    modifies founds
    ensures GoodFound(from, founds.found, maxLength) && old(founds.found) <= founds.found
    ensures open == OpenOf(f, s.bits) && forall b | b in open :: 1 <= b < |f|
    ensures if Terminals(f, s.bits) == {} then defaultState == 0
            else IsFound(founds.found, defaultState, s.tableOffset, s.foundOffset + 1)
  {
    ghost var t0 :| Den(from, f, s, t0);
    TerminalBits(from, f, t0);
    OpenOfDenoted(from, f, s, t0);
    EmptyText(from, f);
    defaultState := 0;
    var terminal := HasTerminal(f, s.bits);
    if terminal {
      OffsetBound(from, f, t0, maxLength);
      defaultState := AddFound(founds, from, maxLength, s.tableOffset, s.foundOffset + 1);
    }
    open := s.bits;
    if defaultState == 0 {
      open := open + sets.sets[0].bits;
    }
  }

  method NextState(sets: RepSets, founds: FoundSets, ghost from: seq<seq<Byte>>, f: seq<Follow>,
                   ghost maxLength: nat, s: RepSet, open: set<nat>, used: set<int>, defaultState: int, chr: Byte)
    returns (n: int)
    requires Cells(from, f) && GoodSets(from, f, sets.sets) && GoodFound(from, founds.found, maxLength)
    requires founds.capacity == |from| * maxLength && forall i | 0 <= i < |from| :: |from[i]| <= maxLength
    requires Represented(from, f, s)
    requires open == OpenOf(f, s.bits) && forall b | b in open :: 1 <= b < |f|
    requires chr in used <==> exists b :: b in open && f[b].chr == chr
    requires if Terminals(f, s.bits) == {} then defaultState == 0
             else IsFound(founds.found, defaultState, s.tableOffset, s.foundOffset + 1)
    modifies sets, founds
    ensures GoodSets(from, f, sets.sets) && GoodFound(from, founds.found, maxLength)
    ensures old(founds.found) <= founds.found && old(sets.sets) <= sets.sets
    ensures TargetAll(from, f, sets.sets, founds.found, s, n, chr)
  {
    if chr !in used {
      n := if chr != 0 then defaultState else -1;
      UnusedTarget(from, f, sets.sets, founds.found, s, defaultState, chr);
    } else if chr == 0 {
      n := EndTransition(sets, founds, from, f, maxLength, s, open);
    } else {
      n := CharTransition(sets, founds, from, f, maxLength, s, open, chr);
    }
  }

  /** All transitions of one state; new states may be appended on the way. */
  method ProcessSet(sets: RepSets, founds: FoundSets, ghost from: seq<seq<Byte>>, f: seq<Follow>,
                    ghost maxLength: nat, s: RepSet) returns (next: seq<int>)
    requires Cells(from, f) && GoodSets(from, f, sets.sets) && GoodFound(from, founds.found, maxLength)
    requires founds.capacity == |from| * maxLength && forall i | 0 <= i < |from| :: |from[i]| <= maxLength
    requires Represented(from, f, s)
    modifies sets, founds
    ensures GoodSets(from, f, sets.sets) && GoodFound(from, founds.found, maxLength)
    ensures old(founds.found) <= founds.found && old(sets.sets) <= sets.sets
    ensures |next| == 256 && Targets(from, f, sets.sets, founds.found, s, next)
  {
    var defaultState, open := Prepare(sets, founds, from, f, maxLength, s);
    var used := UsedChars(f, open);
    ghost var found0 := founds.found;
    next := [];
    for chr := 0 to 256
      invariant |next| == chr
      invariant GoodSets(from, f, sets.sets) && GoodFound(from, founds.found, maxLength)
      invariant found0 <= founds.found && old(sets.sets) <= sets.sets
      invariant Targets(from, f, sets.sets, founds.found, s, next)
    {
      ghost var sets1, found1 := sets.sets, founds.found;
      var n := NextState(sets, founds, from, f, maxLength, s, open, used, defaultState, chr);
      TargetsAppend(from, f, sets1, sets.sets, found1, founds.found, s, next, n);
      next := next + [n];
    }
  }

  // ---------------------------------------------------------------- all states

  lemma StoreNext(from: seq<seq<Byte>>, f: seq<Follow>, sets0: seq<RepSet>, found0: seq<FoundSet>,
                  sets: seq<RepSet>, found: seq<FoundSet>, maxLength: nat, setNr: nat, next: seq<int>)
    requires Inv(from, f, sets0, found0, maxLength, setNr) && setNr < |sets0|
    requires sets0 <= sets && found0 <= found
    requires GoodSets(from, f, sets) && GoodFound(from, found, maxLength)
    requires |next| == 256 && Targets(from, f, sets, found, sets0[setNr], next)
    ensures Inv(from, f, sets[setNr := sets[setNr].(next := next)], found, maxLength, setNr + 1)
  {
    var s := sets[setNr].(next := next);
    var sets1 := sets[setNr := s];
    StoreKeepsGood(from, f, sets, setNr, next);
    forall q | 0 <= q < setNr + 1
      ensures Complete(from, f, sets1, found, sets1[q])
    {
      if q < setNr {
        CompleteGrows(from, f, sets0, sets1, found0, found, sets0[q]);
      } else {
        TargetsGrow(from, f, sets, sets1, found, found, sets0[q], next);
        SameDen(from, f, sets1, found, sets0[q], s);
      }
    }
  }

  lemma StoreKeepsGood(from: seq<seq<Byte>>, f: seq<Follow>, sets: seq<RepSet>, setNr: nat, next: seq<int>)
    requires Cells(from, f) && GoodSets(from, f, sets) && setNr < |sets|
    ensures GoodSets(from, f, sets[setNr := sets[setNr].(next := next)])
  {
    var s := sets[setNr].(next := next);
    assert Represented(from, f, sets[setNr]);
    var t :| Den(from, f, sets[setNr], t);
    assert Den(from, f, s, t);
  }

  lemma CompleteGrows(from: seq<seq<Byte>>, f: seq<Follow>, sets: seq<RepSet>, sets': seq<RepSet>,
                      found: seq<FoundSet>, found': seq<FoundSet>, s: RepSet)
    requires Cells(from, f) && Grows(sets, sets') && found <= found'
    requires Complete(from, f, sets, found, s)
    ensures Complete(from, f, sets', found', s)
  {
    forall c: Byte
      ensures TargetAll(from, f, sets', found', s, s.next[c], c)
    {
      TargetGrows(from, f, sets, sets', found, found', s, s.next[c], c);
    }
  }

  /** Writing the transitions into a state does not change what it stands for. */
  lemma SameDen(from: seq<seq<Byte>>, f: seq<Follow>, sets: seq<RepSet>, found: seq<FoundSet>, s: RepSet, s': RepSet)
    requires Cells(from, f) && s'.(next := s.next) == s && |s'.next| == 256
    requires Targets(from, f, sets, found, s, s'.next)
    ensures Complete(from, f, sets, found, s')
  {
    forall c: Byte
      ensures TargetAll(from, f, sets, found, s', s'.next[c], c)
    {
      assert TargetAll(from, f, sets, found, s, s'.next[c], c);
      forall t | Den(from, f, s', t)
        ensures Target(from, f, sets, found, s'.next[c], t, c)
      {
        assert Den(from, f, s, t);
      }
    }
  }

  method BuildSets(sets: RepSets, founds: FoundSets, ghost from: seq<seq<Byte>>, f: seq<Follow>, ghost maxLength: nat)
    requires Inv(from, f, sets.sets, founds.found, maxLength, 0) && founds.capacity == |from| * maxLength
    modifies sets, founds
    ensures Inv(from, f, sets.sets, founds.found, maxLength, |sets.sets|)
  {
    var setNr := 0;
    SetsBounded(from, f, sets.sets);
    while setNr < |sets.sets|
      invariant Inv(from, f, sets.sets, founds.found, maxLength, setNr)
      invariant |sets.sets| <= |Subsets(|f|)| + 1
      decreases |Subsets(|f|)| + 1 - setNr
    {
      ghost var sets0, found0 := sets.sets, founds.found;
      var next := ProcessSet(sets, founds, from, f, maxLength, sets.sets[setNr]);
      StoreNext(from, f, sets0, found0, sets.sets, founds.found, maxLength, setNr, next);
      sets.sets := sets.sets[setNr := sets.sets[setNr].(next := next)];
      SetsBounded(from, f, sets.sets);
      setNr := setNr + 1;
    }
  }
}
