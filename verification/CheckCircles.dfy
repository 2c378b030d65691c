/**
 When check_one_key comes to an end.  Its inner loop follows links until they end or more records were
 found than there are; it goes round for ever exactly when the links run into a circle that holds
 no record of the chain, before that many were found.
 */
module CheckCircles {
  import opened Wrappers
  import opened HashChains
  import opened HashIndex
  import opened HashWrite
  import opened CheckKey

  /** The slot that is reached from the link `pos` over `k` links. */
  ghost function Nth(s: seq<HashInfo>, pos: Option<nat>, k: nat): Option<nat>
    decreases k
  {
    if k == 0 then pos else Nth(s, Next(s, pos), k - 1)
  }

  ghost function Next(s: seq<HashInfo>, pos: Option<nat>): Option<nat> {
    if pos.Some? && pos.value < |s| then s[pos.value].next else None
  }

  /** Whether there is a record of the chain of `i` in the slot `pos`. */
  ghost function Hit(a: RecPtr -> nat, s: seq<HashInfo>, i: nat, pos: Option<nat>): nat {
    if pos.Some? && pos.value < |s| && a(s[pos.value].rec) == i then 1 else 0
  }

  /** How many of the first `k` slots from `pos` on hold one. */
  ghost function Hits(a: RecPtr -> nat, s: seq<HashInfo>, i: nat, pos: Option<nat>, k: nat): nat
    decreases k
  {
    if k == 0 then 0 else Hit(a, s, i, pos) + Hits(a, s, i, Next(s, pos), k - 1)
  }

  /** The `l`-th slot is the `j`-th one again, with no record of the chain of `i` on the way. */
  ghost predicate Repeats(a: RecPtr -> nat, s: seq<HashInfo>, i: nat, pos: Option<nat>, j: nat, l: nat) {
    j < l && Nth(s, pos, j).Some? && Nth(s, pos, j) == Nth(s, pos, l) && Hits(a, s, i, pos, j) == Hits(a, s, i, pos, l)
  }

  /**
   The links from `pos` on run into such a circle before more than `n` records are found, with `found` at the
   start.
   */
  ghost predicate InCircle(a: RecPtr -> nat, s: seq<HashInfo>, n: nat, i: nat, pos: Option<nat>, found: nat) {
    exists j, l :: Repeats(a, s, i, pos, j, l) && found + Hits(a, s, i, pos, j) <= n
  }

  // ---------------------------------------------------------------- following links

  lemma {:induction false} NthAdd(s: seq<HashInfo>, pos: Option<nat>, j: nat, k: nat)
    ensures Nth(s, Nth(s, pos, j), k) == Nth(s, pos, j + k)
    decreases j
  {
    if j > 0 {
      NthAdd(s, Next(s, pos), j - 1, k);
    }
  }

  lemma {:induction false} HitsAdd(a: RecPtr -> nat, s: seq<HashInfo>, i: nat, pos: Option<nat>, j: nat, k: nat)
    ensures Hits(a, s, i, pos, j + k) == Hits(a, s, i, pos, j) + Hits(a, s, i, Nth(s, pos, j), k)
    decreases j
  {
    if j > 0 {
      HitsAdd(a, s, i, Next(s, pos), j - 1, k);
    }
  }

  /** Nothing follows the end. */
  lemma {:induction false} NoneStays(s: seq<HashInfo>, k: nat)
    ensures Nth(s, None, k).None?
  {
    if k > 0 {
      NoneStays(s, k - 1);
    }
  }

  /** A circle found later is one of the whole. */
  lemma RepeatsLater(a: RecPtr -> nat, s: seq<HashInfo>, i: nat, pos: Option<nat>, k: nat, j: nat, l: nat)
    ensures Repeats(a, s, i, Nth(s, pos, k), j, l) <==> j < l && Repeats(a, s, i, pos, k + j, k + l)
  {
    NthAdd(s, pos, k, j);
    NthAdd(s, pos, k, l);
    HitsAdd(a, s, i, pos, k, j);
    HitsAdd(a, s, i, pos, k, l);
  }

  lemma CircleLater(a: RecPtr -> nat, s: seq<HashInfo>, n: nat, i: nat, pos: Option<nat>, found: nat, k: nat)
    ensures InCircle(a, s, n, i, Nth(s, pos, k), found + Hits(a, s, i, pos, k)) ==> InCircle(a, s, n, i, pos, found)
  {
    var p, f := Nth(s, pos, k), found + Hits(a, s, i, pos, k);
    if InCircle(a, s, n, i, p, f) {
      var j, l :| Repeats(a, s, i, p, j, l) && f + Hits(a, s, i, p, j) <= n;
      RepeatsLater(a, s, i, pos, k, j, l);
      HitsAdd(a, s, i, pos, k, j);
      assert Repeats(a, s, i, pos, k + j, k + l);
    }
  }

  // ---------------------------------------------------------------- in a circle the walk does not end

  /** A circle at the start is one after each step. */
  lemma CircleTurns(a: RecPtr -> nat, s: seq<HashInfo>, i: nat, pos: Option<nat>, l: nat)
    requires Repeats(a, s, i, pos, 0, l)
    ensures Hit(a, s, i, pos) == 0 && Repeats(a, s, i, Next(s, pos), 0, l)
  {
    var next := Next(s, pos);
    assert Nth(s, pos, 1) == next;
    NthAdd(s, pos, l, 1);
    HitsAdd(a, s, i, pos, l, 1);
    HitsAdd(a, s, i, pos, 1, l);
    NthAdd(s, pos, 1, l - 1);
    NoneStays(s, l - 1);
    NthAdd(s, pos, 1, l);
  }

  lemma {:induction false} WalkHangs(a: RecPtr -> nat, s: seq<HashInfo>, n: nat, i: nat, pos: Option<nat>, st: Scan,
                                     fuel: nat, j: nat, l: nat)
    requires st.Scan? && Repeats(a, s, i, pos, j, l) && st.found + Hits(a, s, i, pos, j) <= n
    ensures Walk(a, s, n, i, pos, st, fuel).NoVerdict?
    decreases fuel
  {
    if j > 0 {
      NoneStays(s, j);
    }
    if fuel > 0 && pos.value < |s| {
      var e := s[pos.value];
      var st' := if a(e.rec) != i then st.(error := true) else st.(found := st.found + 1);
      if j == 0 {
        CircleTurns(a, s, i, pos, l);
        WalkHangs(a, s, n, i, e.next, st', fuel - 1, 0, l);
      } else {
        WalkHangs(a, s, n, i, e.next, st', fuel - 1, j - 1, l - 1);
      }
    }
  }

  // ---------------------------------------------------------------- without one it does

  /** Steps that are enough for `hits` more records: `m` slots and one more for each. */
  function Enough(m: nat, hits: nat): nat {
    if hits == 0 then 0 else m + 1 + Enough(m, hits - 1)
  }

  /** The slots passed since `start`, none of them with a record of the chain. */
  ghost predicate Passed(a: RecPtr -> nat, s: seq<HashInfo>, m: nat, i: nat, start: Option<nat>, seen: seq<nat>) {
    && Distinct(seen) && (forall x | x in seen :: x < m) && Hits(a, s, i, start, |seen|) == 0
    && forall k | 0 <= k < |seen| :: Nth(s, start, k) == Some(seen[k]) && Hits(a, s, i, start, k) == 0
  }

  /** No slot comes twice. */
  lemma NotAgain(a: RecPtr -> nat, s: seq<HashInfo>, n: nat, m: nat, i: nat, start: Option<nat>, found: nat,
                 seen: seq<nat>, x: nat)
    requires Passed(a, s, m, i, start, seen) && Nth(s, start, |seen|) == Some(x) && found <= n
    requires !InCircle(a, s, n, i, start, found)
    ensures x !in seen
  {
    if x in seen {
      var k :| 0 <= k < |seen| && seen[k] == x;
      assert Repeats(a, s, i, start, k, |seen|);
      assert false;
    }
  }

  /** So there are not more than `m` of them. */
  lemma NotMore(seen: seq<nat>, m: nat)
    requires Distinct(seen) && forall x | x in seen :: x < m
    ensures |seen| <= m
  {
    DistinctSize(seen);
    UptoSize(m);
    assert Members(seen) <= Upto(m);
    SubsetSize(Members(seen), Upto(m));
  }

  lemma PassedStep(a: RecPtr -> nat, s: seq<HashInfo>, m: nat, i: nat, start: Option<nat>, seen: seq<nat>, x: nat)
    requires Passed(a, s, m, i, start, seen) && Nth(s, start, |seen|) == Some(x) && x !in seen && x < m <= |s|
    ensures Nth(s, start, |seen| + 1) == s[x].next
    ensures Hits(a, s, i, start, |seen| + 1) == Hit(a, s, i, Some(x))
    ensures a(s[x].rec) != i ==> Passed(a, s, m, i, start, seen + [x])
  {
    NthAdd(s, start, |seen|, 1);
    HitsAdd(a, s, i, start, |seen|, 1);
    assert Nth(s, Some(x), 1) == Nth(s, Next(s, Some(x)), 0);
    assert Hits(a, s, i, Some(x), 1) == Hit(a, s, i, Some(x)) + Hits(a, s, i, s[x].next, 0);
  }

  /** The walk ends: `start` is where the last record of the chain was behind, `seen` what was passed since. */
  lemma {:induction false} WalkEnds(a: RecPtr -> nat, s: seq<HashInfo>, n: nat, m: nat, i: nat, start: Option<nat>,
                                    seen: seq<nat>, st: Scan, fuel: nat)
    requires LinksInUse(s, m) && st.Scan? && Passed(a, s, m, i, start, seen)
    requires Nth(s, start, |seen|).Some? ==> Nth(s, start, |seen|).value < m
    requires !InCircle(a, s, n, i, start, st.found)
    requires st.found <= n ==> fuel + |seen| >= Enough(m, n + 1 - st.found)
    ensures Walk(a, s, n, i, Nth(s, start, |seen|), st, fuel).Scan?
    decreases fuel
  {
    var pos := Nth(s, start, |seen|);
    if pos.Some? && st.found <= n {
      var x := pos.value;
      NotAgain(a, s, n, m, i, start, st.found, seen, x);
      PassedStep(a, s, m, i, start, seen, x);
      assert forall y | y in seen + [x] :: y < m;
      NotMore(seen + [x], m);
      if a(s[x].rec) != i {
        WalkEnds(a, s, n, m, i, start, seen + [x], st.(error := true), fuel - 1);
      } else {
        CircleLater(a, s, n, i, start, st.found, |seen| + 1);
        WalkEnds(a, s, n, m, i, s[x].next, [], st.(found := st.found + 1), fuel - 1);
      }
    }
  }

  /** More fuel changes nothing. */
  lemma {:induction false} MoreFuel(a: RecPtr -> nat, s: seq<HashInfo>, n: nat, i: nat, pos: Option<nat>, st: Scan,
                                    fuel: nat, fuel': nat)
    requires fuel <= fuel' && Walk(a, s, n, i, pos, st, fuel).Scan?
    ensures Walk(a, s, n, i, pos, st, fuel') == Walk(a, s, n, i, pos, st, fuel)
    decreases fuel
  {
    if !(st.NoVerdict? || pos.None? || st.found >= n + 1) {
      var e := s[pos.value];
      MoreFuel(a, s, n, i, e.next, if a(e.rec) != i then st.(error := true) else st.(found := st.found + 1), fuel - 1,
               fuel' - 1);
    }
  }

  // ---------------------------------------------------------------- the whole scan

  /** The counters when the scan comes to slot `i`. */
  ghost function ScanUpto(a: RecPtr -> nat, s: seq<HashInfo>, n: nat, i: nat, fuel: nat): Scan
    requires i <= n <= |s|
    decreases i
  {
    if i == 0 then Scan(false, 0, 0)
    else
      var st := ScanUpto(a, s, n, i - 1, fuel);
      if st.NoVerdict? then st else ScanSlot(a, s, n, i - 1, st, fuel)
  }

  lemma {:induction false} UptoIsFrom(a: RecPtr -> nat, s: seq<HashInfo>, n: nat, i: nat, fuel: nat)
    requires i <= n <= |s|
    ensures ScanFrom(a, s, n, i, ScanUpto(a, s, n, i, fuel), fuel) == ScanUpto(a, s, n, n, fuel)
    decreases n - i
  {
    if i < n {
      UptoIsFrom(a, s, n, i + 1, fuel);
      if ScanUpto(a, s, n, i, fuel).NoVerdict? {
        assert ScanUpto(a, s, n, i + 1, fuel).NoVerdict?;
      }
    }
  }

  lemma {:induction false} NoVerdictStays(a: RecPtr -> nat, s: seq<HashInfo>, n: nat, i: nat, fuel: nat)
    requires i <= n <= |s| && ScanUpto(a, s, n, i, fuel).NoVerdict?
    ensures ScanUpto(a, s, n, n, fuel).NoVerdict?
    decreases n - i
  {
    if i < n {
      NoVerdictStays(a, s, n, i + 1, fuel);
    }
  }

  lemma {:induction false} UptoMoreFuel(a: RecPtr -> nat, s: seq<HashInfo>, n: nat, i: nat, fuel: nat, fuel': nat)
    requires i <= n <= |s| && fuel <= fuel' && ScanUpto(a, s, n, i, fuel).Scan?
    ensures ScanUpto(a, s, n, i, fuel') == ScanUpto(a, s, n, i, fuel)
    decreases i
  {
    if i > 0 {
      UptoMoreFuel(a, s, n, i - 1, fuel, fuel');
      var st := ScanUpto(a, s, n, i - 1, fuel);
      if a(s[i - 1].rec) == i - 1 {
        MoreFuel(a, s, n, i - 1, s[i - 1].next, st.(found := st.found + 1), fuel, fuel');
      }
    }
  }

  /** All walks that end over `m` slots end within these steps. */
  function Steps(m: nat, n: nat): nat {
    Enough(m, n + 1)
  }

  /** The head in slot `i` has links that run into a circle, with what was found when the scan comes there. */
  ghost predicate Stuck(a: RecPtr -> nat, s: seq<HashInfo>, n: nat, m: nat, i: nat)
    requires i < n <= |s|
  {
    var st := ScanUpto(a, s, n, i, Steps(m, n));
    a(s[i].rec) == i && st.Scan? && InCircle(a, s, n, i, s[i].next, st.found + 1)
  }

  lemma {:induction false} EnoughMore(m: nat, hits: nat, more: nat)
    requires hits <= more
    ensures Enough(m, hits) <= Enough(m, more)
    decreases more
  {
    if hits < more {
      EnoughMore(m, hits, more - 1);
    }
  }

  lemma {:induction false} NotStuckEnds(a: RecPtr -> nat, s: seq<HashInfo>, n: nat, m: nat, i: nat)
    requires i <= n <= m && LinksInUse(s, m) && forall x | 0 <= x < i :: !Stuck(a, s, n, m, x)
    ensures ScanUpto(a, s, n, i, Steps(m, n)).Scan?
    decreases i
  {
    if i > 0 {
      NotStuckEnds(a, s, n, m, i - 1);
      var st := ScanUpto(a, s, n, i - 1, Steps(m, n));
      if a(s[i - 1].rec) == i - 1 {
        assert !Stuck(a, s, n, m, i - 1);
        if st.found < n {
          EnoughMore(m, n - st.found, n + 1);
        }
        WalkEnds(a, s, n, m, i - 1, s[i - 1].next, [], st.(found := st.found + 1), Steps(m, n));
      }
    }
  }

  lemma StuckHangs(a: RecPtr -> nat, s: seq<HashInfo>, n: nat, m: nat, i: nat, fuel: nat)
    requires i < n <= |s| && Stuck(a, s, n, m, i)
    ensures ScanUpto(a, s, n, n, fuel).NoVerdict?
  {
    var st := ScanUpto(a, s, n, i, fuel);
    if st.Scan? {
      if fuel <= Steps(m, n) {
        UptoMoreFuel(a, s, n, i, fuel, Steps(m, n));
      } else {
        UptoMoreFuel(a, s, n, i, Steps(m, n), fuel);
      }
      var j, l :| Repeats(a, s, i, s[i].next, j, l) && st.found + 1 + Hits(a, s, i, s[i].next, j) <= n;
      WalkHangs(a, s, n, i, s[i].next, st.(found := st.found + 1), fuel, j, l);
      NoVerdictStays(a, s, n, i + 1, fuel);
    } else {
      NoVerdictStays(a, s, n, i, fuel);
    }
  }

  ghost predicate ComesToEnd(a: RecPtr -> nat, k: Key, n: nat)
    requires n <= |k.slots|
  {
    exists fuel :: CheckFun(a, k, n, fuel).Scan?
  }

  /**
   check_one_key comes to a verdict exactly when no head's links run into a circle before one record too many
   was found; and then each of its walks ends within `Steps(m, n)` entries.  All links stay below `m`.
   */
  lemma EndsExactly(a: RecPtr -> nat, k: Key, n: nat, m: nat)
    requires n <= m && LinksInUse(k.slots, m)
    ensures ComesToEnd(a, k, n) <==> forall i | 0 <= i < n :: !Stuck(a, k.slots, n, m, i)
    ensures ComesToEnd(a, k, n) ==> CheckFun(a, k, n, Steps(m, n)).Scan?
  {
    var s := k.slots;
    if ComesToEnd(a, k, n) {
      var fuel :| CheckFun(a, k, n, fuel).Scan?;
      UptoIsFrom(a, s, n, 0, fuel);
      forall i | 0 <= i < n
        ensures !Stuck(a, s, n, m, i)
      {
        if Stuck(a, s, n, m, i) {
          StuckHangs(a, s, n, m, i, fuel);
          assert false;
        }
      }
    }
    if forall i | 0 <= i < n :: !Stuck(a, s, n, m, i) {
      NotStuckEnds(a, s, n, m, n);
      UptoIsFrom(a, s, n, 0, Steps(m, n));
      assert CheckFun(a, k, n, Steps(m, n)).Scan?;
    }
  }

  /** With that bound on the walks or a larger one, no verdict is the same as no end. */
  lemma NoVerdictExactly(a: RecPtr -> nat, k: Key, n: nat, m: nat, fuel: nat)
    requires n <= m && LinksInUse(k.slots, m) && fuel >= Steps(m, n)
    ensures CheckFun(a, k, n, fuel).NoVerdict? <==> exists i :: 0 <= i < n && Stuck(a, k.slots, n, m, i)
  {
    EndsExactly(a, k, n, m);
    if ComesToEnd(a, k, n) {
      UptoIsFrom(a, k.slots, n, 0, Steps(m, n));
      UptoIsFrom(a, k.slots, n, 0, fuel);
      UptoMoreFuel(a, k.slots, n, n, Steps(m, n), fuel);
    } else {
      assert !CheckFun(a, k, n, fuel).Scan?;
    }
  }

  /** The head in slot 0 links to slot 1, which holds another chain and links to itself: the check never ends. */
  lemma CircleNeverChecked(a: RecPtr -> nat, r: RecPtr, t: RecPtr, fuel: nat)
    requires a(r) == 0 && a(t) == 1
    ensures var k := Key([HashInfo(Some(1), r), HashInfo(Some(1), t)], 2);
            LinksInUse(k.slots, 2) && CheckFun(a, k, 2, fuel).NoVerdict? && !ComesToEnd(a, k, 2)
  {
    var k := Key([HashInfo(Some(1), r), HashInfo(Some(1), t)], 2);
    var s := k.slots;
    assert s[0].next == s[1].next == Some(1);
    assert Nth(s, Some(1), 1) == Nth(s, Some(1), 0) && Hits(a, s, 0, Some(1), 1) == Hits(a, s, 0, Some(1), 0);
    assert Repeats(a, s, 0, Some(1), 0, 1);
    assert Stuck(a, s, 2, 2, 0);
    EndsExactly(a, k, 2, 2);
  }
}
