/**
 check_one_key: the scan that tests a hash index.  It accepts an index exactly when the index is
 in order, provided no slot in use links to a slot that is not in use.
 */
module CheckKey {
  import opened Wrappers
  import opened HashChains
  import opened HashIndex
  import opened HashWrite

  /** Counters of the scan; a walk may go in circles or leave the array, then there is no verdict. */
  datatype Scan = Scan(error: bool, found: nat, buckets: nat) | NoVerdict

  /** Links of the first `n` slots stay among them. */
  ghost predicate LinksInUse(s: seq<HashInfo>, n: nat) {
    n <= |s| && forall i | 0 <= i < n :: s[i].next.Some? ==> s[i].next.value < n
  }

  /** The inner loop, entered with the link `pos`, for at most `fuel` entries. */
  ghost function Walk(a: RecPtr -> nat, s: seq<HashInfo>, n: nat, i: nat, pos: Option<nat>, st: Scan, fuel: nat): Scan
    decreases fuel
  {
    if st.NoVerdict? || pos.None? || st.found >= n + 1 then st
    else if fuel == 0 || pos.value >= |s| then NoVerdict
    else
      var e := s[pos.value];
      Walk(a, s, n, i, e.next, if a(e.rec) != i then st.(error := true) else st.(found := st.found + 1), fuel - 1)
  }

  /** The outer loop from slot `i` on. */
  ghost function ScanFrom(a: RecPtr -> nat, s: seq<HashInfo>, n: nat, i: nat, st: Scan, fuel: nat): Scan
    requires i <= n <= |s|
    decreases n - i
  {
    if st.NoVerdict? || i == n then st
    else ScanFrom(a, s, n, i + 1, ScanSlot(a, s, n, i, st, fuel), fuel)
  }

  ghost function ScanSlot(a: RecPtr -> nat, s: seq<HashInfo>, n: nat, i: nat, st: Scan, fuel: nat): Scan
    requires i < n <= |s| && st.Scan?
  {
    if a(s[i].rec) != i then st
    else
      var w := Walk(a, s, n, i, s[i].next, st.(found := st.found + 1), fuel);
      if w.NoVerdict? then w else w.(buckets := w.buckets + 1)
  }

  ghost function CheckFun(a: RecPtr -> nat, k: Key, n: nat, fuel: nat): Scan
    requires n <= |k.slots|
  {
    var st := ScanFrom(a, k.slots, n, 0, Scan(false, 0, 0), fuel);
    if st.NoVerdict? then st
    else st.(error := st.error || st.found != n || st.buckets != k.hashBuckets)
  }

  ghost predicate Accepts(a: RecPtr -> nat, k: Key, n: nat, fuel: nat)
    requires n <= |k.slots|
  {
    CheckFun(a, k, n, fuel).Scan? && !CheckFun(a, k, n, fuel).error
  }

  /**
   check_one_key itself: 0 for a good index, 1 for a bad one, nothing if a walk leaves the slots or does not end
   within `fuel`.
   */
  method CheckOneKey(a: RecPtr -> nat, k: Key, records: nat, fuel: nat) returns (r: Option<int>)
    requires records <= |k.slots|
    ensures r.None? <==> CheckFun(a, k, records, fuel).NoVerdict?
    ensures r == Some(0) <==> Accepts(a, k, records, fuel)
    ensures r.Some? ==> r.value == 0 || r.value == 1
  {
    var error, found, bucketsFound := false, 0, 0;
    for i := 0 to records
      invariant found >= 0 && bucketsFound >= 0
      invariant ScanFrom(a, k.slots, records, 0, Scan(false, 0, 0), fuel) ==
                ScanFrom(a, k.slots, records, i, Scan(error, found, bucketsFound), fuel)
    {
      var info := k.slots[i];
      if a(info.rec) == i {
        found := found + 1;
        var left := fuel;
        ghost var whole := Walk(a, k.slots, records, i, info.next, Scan(error, found, bucketsFound), fuel);
        while info.next.Some? && found < records + 1
          invariant 0 <= left && found >= 0
          invariant Walk(a, k.slots, records, i, info.next, Scan(error, found, bucketsFound), left) == whole
          decreases left
        {
          if left == 0 || info.next.value >= |k.slots| {
            return None;
          }
          info := k.slots[info.next.value];
          if a(info.rec) != i {
            error := true;
          } else {
            found := found + 1;
          }
          left := left - 1;
        }
        bucketsFound := bucketsFound + 1;
      }
    }
    if found != records {
      error := true;
    }
    if k.hashBuckets != bucketsFound {
      error := true;
    }
    return Some(if error then 1 else 0);
  }

  // ---------------------------------------------------------------- accepted indexes are in order

  lemma {:induction false} ScanKeepsError(a: RecPtr -> nat, s: seq<HashInfo>, n: nat, i: nat, pos: Option<nat>,
                                          st: Scan, fuel: nat)
    requires st.Scan?
    ensures var w := Walk(a, s, n, i, pos, st, fuel);
            w.Scan? ==> (st.error ==> w.error) && st.found <= w.found && w.buckets == st.buckets
    decreases fuel
  {
    if pos.Some? && st.found < n + 1 && fuel > 0 && pos.value < |s| {
      var e := s[pos.value];
      var st' := if a(e.rec) != i then st.(error := true) else st.(found := st.found + 1);
      ScanKeepsError(a, s, n, i, e.next, st', fuel - 1);
    }
  }

  lemma {:induction false} LaterScan(a: RecPtr -> nat, s: seq<HashInfo>, n: nat, i: nat, st: Scan, fuel: nat)
    requires i <= n <= |s| && st.Scan?
    ensures var w := ScanFrom(a, s, n, i, st, fuel);
            w.Scan? ==> (st.error ==> w.error) && st.found <= w.found
    decreases n - i
  {
    if i < n {
      if a(s[i].rec) == i {
        ScanKeepsError(a, s, n, i, s[i].next, st.(found := st.found + 1), fuel);
      }
      var st' := ScanSlot(a, s, n, i, st, fuel);
      if st'.Scan? {
        LaterScan(a, s, n, i + 1, st', fuel);
      }
    }
  }

  /** A walk without complaint lists the rest of the chain. */
  lemma {:induction false} WalkLists(a: RecPtr -> nat, s: seq<HashInfo>, n: nat, i: nat, pos: Option<nat>, st: Scan,
                                     fuel: nat)
    returns (c: seq<nat>)
    requires LinksInUse(s, n) && (pos.Some? ==> pos.value < n) && st.Scan?
    requires var w := Walk(a, s, n, i, pos, st, fuel); w.Scan? && !w.error && w.found <= n
    ensures (pos == if c == [] then None else Some(c[0])) && LinkedList(s, c)
    ensures forall x | x in c :: x < n && a(s[x].rec) == i
    ensures Walk(a, s, n, i, pos, st, fuel) == st.(found := st.found + |c|)
    decreases fuel
  {
    ScanKeepsError(a, s, n, i, pos, st, fuel);
    if pos.None? {
      c := [];
    } else {
      var e := s[pos.value];
      var st' := if a(e.rec) != i then st.(error := true) else st.(found := st.found + 1);
      ScanKeepsError(a, s, n, i, e.next, st', fuel - 1);
      var d := WalkLists(a, s, n, i, e.next, st', fuel - 1);
      c := [pos.value] + d;
      ConsList(s, pos.value, d);
    }
  }

  /** A list that ends has no slot twice. */
  lemma {:induction false} ListDistinct(s: seq<HashInfo>, c: seq<nat>, j: nat, k: nat)
    requires LinkedList(s, c) && j < k < |c|
    ensures c[j] != c[k]
    decreases |c| - k
  {
    LinkAt(s, c, j);
    LinkAt(s, c, k);
    if k + 1 < |c| {
      ListDistinct(s, c, j + 1, k + 1);
    }
  }

  ghost predicate AtHome(a: RecPtr -> nat, s: seq<HashInfo>, n: nat, p: nat, c: seq<nat>)
    requires n <= |s|
  {
    forall x | x in c :: x < n && a(s[x].rec) == p
  }

  /** The chains listed so far, and all their slots in `all`. */
  ghost predicate Listed(a: RecPtr -> nat, s: seq<HashInfo>, n: nat, i: nat, chains: seq<seq<nat>>, all: seq<nat>) {
    && |chains| == i <= n <= |s|
    && (forall p | 0 <= p < i :: LinkedList(s, chains[p]) && Distinct(chains[p]))
    && (forall p | 0 <= p < i :: chains[p] != [] <==> a(s[p].rec) == p)
    && (forall p | 0 <= p < i && chains[p] != [] :: chains[p][0] == p)
    && (forall p | 0 <= p < i :: AtHome(a, s, n, p, chains[p]))
    && Distinct(all) && (forall x | x in all :: x < n && a(s[x].rec) < i && x in chains[a(s[x].rec)])
  }

  /** One more chain. */
  lemma ListedStep(a: RecPtr -> nat, s: seq<HashInfo>, n: nat, i: nat, chains: seq<seq<nat>>, all: seq<nat>,
                   c: seq<nat>)
    requires Listed(a, s, n, i, chains, all) && i < n && LinkedList(s, c)
    requires c != [] <==> a(s[i].rec) == i
    requires (c != [] ==> c[0] == i) && forall x | x in c :: x < n && a(s[x].rec) == i
    ensures Listed(a, s, n, i + 1, chains + [c], all + c)
  {
    forall j, k | 0 <= j < k < |c|
      ensures c[j] != c[k]
    {
      ListDistinct(s, c, j, k);
    }
    var all' := all + c;
    forall j, k | 0 <= j < k < |all'|
      ensures all'[j] != all'[k]
    {
      if j < |all| <= k {
        assert all[j] in all && c[k - |all|] in c;
      }
    }
  }

  /** Scanning slot `i` without complaint lists its chain, or nothing when it is not a head. */
  lemma SlotLists(a: RecPtr -> nat, s: seq<HashInfo>, n: nat, i: nat, st: Scan, fuel: nat) returns (c: seq<nat>)
    requires LinksInUse(s, n) && i < n && st.Scan?
    requires var w := ScanSlot(a, s, n, i, st, fuel); w.Scan? && !w.error && w.found <= n
    ensures LinkedList(s, c) && (c != [] <==> a(s[i].rec) == i) && (c != [] ==> c[0] == i)
    ensures AtHome(a, s, n, i, c)
    ensures ScanSlot(a, s, n, i, st, fuel) == Scan(false, st.found + |c|, st.buckets + (if c == [] then 0 else 1))
  {
    c := [];
    if a(s[i].rec) == i {
      var d := WalkLists(a, s, n, i, s[i].next, st.(found := st.found + 1), fuel);
      c := [i] + d;
      ConsList(s, i, d);
    }
  }

  /** A scan that ends without complaint has listed chains with as many slots as it counted. */
  lemma {:induction false} ScanLists(a: RecPtr -> nat, s: seq<HashInfo>, n: nat, i: nat, st: Scan, fuel: nat,
                                     chains: seq<seq<nat>>, all: seq<nat>)
    returns (chains': seq<seq<nat>>, all': seq<nat>)
    requires LinksInUse(s, n) && Listed(a, s, n, i, chains, all) && st.Scan? && st.found == |all|
    requires st.buckets == HeadsBelow(a, s, i)
    requires var w := ScanFrom(a, s, n, i, st, fuel); w.Scan? && !w.error && w.found == n
    ensures Listed(a, s, n, n, chains', all') && |all'| == n
    ensures ScanFrom(a, s, n, i, st, fuel).buckets == HeadsBelow(a, s, n)
    decreases n - i
  {
    LaterScan(a, s, n, i, st, fuel);
    if i == n {
      chains', all' := chains, all;
    } else {
      var st' := ScanSlot(a, s, n, i, st, fuel);
      LaterScan(a, s, n, i + 1, st', fuel);
      var c := SlotLists(a, s, n, i, st, fuel);
      ListedStep(a, s, n, i, chains, all, c);
      chains', all' := ScanLists(a, s, n, i + 1, st', fuel, chains + [c], all + c);
    }
  }

  /** How many of the first `i` slots are heads. */
  ghost function HeadsBelow(a: RecPtr -> nat, s: seq<HashInfo>, i: nat): nat
    requires i <= |s|
  {
    if i == 0 then 0
    else HeadsBelow(a, s, i - 1) + (if a(s[i - 1].rec) == i - 1 then 1 else 0)
  }

  lemma {:induction false} HeadsBelowAre(a: RecPtr -> nat, s: seq<HashInfo>, n: nat)
    requires n <= |s|
    ensures HeadsBelow(a, s, n) == |Heads(Homes(a, s), Upto(n))|
  {
    if n > 0 {
      HeadsBelowAre(a, s, n - 1);
      HeadsStep(Homes(a, s), n);
    } else {
      assert Heads(Homes(a, s), Upto(0)) == {};
    }
  }

  lemma HeadsStep(hm: seq<nat>, n: nat)
    requires 0 < n <= |hm|
    ensures |Heads(hm, Upto(n))| == |Heads(hm, Upto(n - 1))| + if hm[n - 1] == n - 1 then 1 else 0
  {
    MaybeOneMore(Heads(hm, Upto(n - 1)), Heads(hm, Upto(n)), n - 1, hm[n - 1] == n - 1);
  }

  lemma MaybeOneMore(was: set<nat>, now: set<nat>, x: nat, more: bool)
    requires x !in was && forall y :: y in now <==> y in was || (more && y == x)
    ensures |now| == |was| + if more then 1 else 0
  {
    assert now == was + if more then {x} else {};
  }

  /** As many different slots below `n` as there are: all of them. */
  lemma AllSlots(all: seq<nat>, n: nat)
    requires Distinct(all) && |all| == n && forall x | x in all :: x < n
    ensures forall x: nat | x < n :: x in all
  {
    DistinctSize(all);
    UptoSize(n);
    SubsetFull(Members(all), Upto(n));
    assert forall x: nat | x < n :: x in Upto(n);
  }

  ghost function Members(c: seq<nat>): (r: set<nat>)
    ensures forall x :: x in r <==> x in c
  {
    set x | x in c
  }

  lemma {:induction false} DistinctSize(c: seq<nat>)
    requires Distinct(c)
    ensures |Members(c)| == |c|
  {
    if c != [] {
      var d, x := c[..|c| - 1], c[|c| - 1];
      DistinctSize(d);
      assert c == d + [x];
      assert Members(c) == Members(d) + {x};
      assert x !in d;
    }
  }

  lemma {:induction false} UptoSize(n: nat)
    ensures |Upto(n)| == n
  {
    if n > 0 {
      UptoSize(n - 1);
    }
  }

  lemma SubsetSize(a: set<nat>, b: set<nat>)
    requires a <= b
    ensures |a| <= |b|
  {
    assert b == a + (b - a);
  }

  lemma SubsetFull(a: set<nat>, b: set<nat>)
    requires a <= b && |a| == |b|
    ensures a == b
  {
    assert b == a + (b - a);
  }

  ghost function ListRank(chains: seq<seq<nat>>, hm: seq<nat>): (r: seq<nat>)
    ensures |r| == |hm|
    ensures forall x | 0 <= x < |hm| :: hm[x] < |chains| && x in chains[hm[x]] ==> r[x] == IndexOf(chains[hm[x]], x)
  {
    seq<nat>(|hm|, x requires 0 <= x < |hm| =>
      if hm[x] < |chains| && x in chains[hm[x]] then IndexOf(chains[hm[x]], x) else 0)
  }

  ghost function ListPrev(chains: seq<seq<nat>>, hm: seq<nat>): (r: seq<nat>)
    ensures |r| == |hm|
    ensures forall x | 0 <= x < |hm| :: hm[x] < |chains| && x in chains[hm[x]] ==> r[x] == Before(chains[hm[x]], x)
  {
    seq<nat>(|hm|, x requires 0 <= x < |hm| =>
      if hm[x] < |chains| && x in chains[hm[x]] then Before(chains[hm[x]], x) else 0)
  }

  /** Chains that list every slot make a good index. */
  lemma ListedIsChained(a: RecPtr -> nat, s: seq<HashInfo>, n: nat, chains: seq<seq<nat>>, all: seq<nat>)
    requires Listed(a, s, n, n, chains, all) && |all| == n
    ensures Chained(s, Homes(a, s), Upto(n), ListRank(chains, Homes(a, s)), ListPrev(chains, Homes(a, s)))
  {
    AllSlots(all, n);
    var hm := Homes(a, s);
    var rank, prev := ListRank(chains, hm), ListPrev(chains, hm);
    forall i | i in Upto(n)
      ensures i < |s| && SlotOk(s, hm, Upto(n), rank, prev, i)
    {
      assert i in all;
      var p := hm[i];
      assert AtHome(a, s, n, p, chains[p]);
      ListSlotOk(s, hm, Upto(n), rank, prev, chains[p], p, i);
    }
  }

  /** Soundness: what the check accepts is in order. */
  lemma AcceptedIsValid(a: RecPtr -> nat, k: Key, n: nat, fuel: nat)
    requires LinksInUse(k.slots, n) && Accepts(a, k, n, fuel)
    ensures ValidFor(a, k, n)
  {
    var chains, all := ScanLists(a, k.slots, n, 0, Scan(false, 0, 0), fuel, [], []);
    ListedIsChained(a, k.slots, n, chains, all);
    HeadsBelowAre(a, k.slots, n);
    assert ValidBy(a, k, n, ListRank(chains, Homes(a, k.slots)), ListPrev(chains, Homes(a, k.slots)));
  }

  // ---------------------------------------------------------------- indexes in order are accepted

  /** The walk along a chain counts it. */
  lemma {:induction false} WalkCounts(a: RecPtr -> nat, s: seq<HashInfo>, n: nat, i: nat, c: seq<nat>, j: nat,
                                      st: Scan, fuel: nat)
    requires n <= |s| && LinkedList(s, c) && AtHome(a, s, n, i, c) && j < |c|
    requires st.Scan? && st.found + (|c| - 1 - j) <= n && |c| - 1 - j <= fuel
    ensures Walk(a, s, n, i, s[c[j]].next, st, fuel) == st.(found := st.found + (|c| - 1 - j))
    decreases |c| - j
  {
    LinkAt(s, c, j);
    if j + 1 < |c| {
      assert c[j + 1] in c;
      WalkCounts(a, s, n, i, c, j + 1, st.(found := st.found + 1), fuel - 1);
    }
  }

  /** The slots whose entries belong to the addresses below `i`. */
  ghost function Placed(a: RecPtr -> nat, s: seq<HashInfo>, n: nat, i: nat): (r: set<nat>)
    requires n <= |s|
  {
    set x | x in Upto(n) && a(s[x].rec) < i
  }

  /** How many there are among the first `n` slots. */
  ghost function CountPlaced(a: RecPtr -> nat, s: seq<HashInfo>, n: nat, i: nat): (r: nat)
    requires n <= |s|
    ensures r <= n
    ensures (forall x: nat | x < n :: a(s[x].rec) < i) ==> r == n
    ensures i == 0 ==> r == 0
  {
    if n == 0 then 0 else CountPlaced(a, s, n - 1, i) + (if a(s[n - 1].rec) < i then 1 else 0)
  }

  lemma {:induction false} CountsPlaced(a: RecPtr -> nat, s: seq<HashInfo>, n: nat, i: nat)
    requires n <= |s|
    ensures CountPlaced(a, s, n, i) == |Placed(a, s, n, i)|
  {
    if n > 0 {
      CountsPlaced(a, s, n - 1, i);
      MaybeOneMore(Placed(a, s, n - 1, i), Placed(a, s, n, i), n - 1, a(s[n - 1].rec) < i);
    }
  }

  lemma PlacedStep(a: RecPtr -> nat, s: seq<HashInfo>, n: nat, i: nat, c: seq<nat>)
    requires n <= |s| && Distinct(c) && forall x: nat :: x in c <==> x < n && a(s[x].rec) == i
    ensures CountPlaced(a, s, n, i + 1) == CountPlaced(a, s, n, i) + |c|
  {
    CountsPlaced(a, s, n, i);
    CountsPlaced(a, s, n, i + 1);
    DistinctSize(c);
    assert Placed(a, s, n, i + 1) == Placed(a, s, n, i) + Members(c);
    assert Placed(a, s, n, i) !! Members(c);
  }

  /** One slot of a good index: the whole chain is counted, or nothing. */
  lemma SlotCounts(a: RecPtr -> nat, s: seq<HashInfo>, n: nat, i: nat, rank: seq<nat>, prev: seq<nat>, st: Scan,
                   fuel: nat)
    requires i < n <= |s| && n <= fuel && Chained(s, Homes(a, s), Upto(n), rank, prev)
    requires st.Scan? && st.found == CountPlaced(a, s, n, i)
    ensures ScanSlot(a, s, n, i, st, fuel) ==
            st.(found := CountPlaced(a, s, n, i + 1), buckets := st.buckets + (if a(s[i].rec) == i then 1 else 0))
  {
    if a(s[i].rec) == i {
      var c := FullChain(s, Homes(a, s), n, rank, prev, i);
      PlacedStep(a, s, n, i, c);
      WalkCounts(a, s, n, i, c, 0, st.(found := st.found + 1), fuel);
    } else {
      forall x: nat | x < n
        ensures a(s[x].rec) != i
      {
        assert SlotOk(s, Homes(a, s), Upto(n), rank, prev, x);
      }
      PlacedStep(a, s, n, i, []);
    }
  }

  lemma {:induction false} ScanCounts(a: RecPtr -> nat, s: seq<HashInfo>, n: nat, i: nat, rank: seq<nat>,
                                      prev: seq<nat>, st: Scan, fuel: nat)
    requires i <= n <= |s| && n <= fuel && Chained(s, Homes(a, s), Upto(n), rank, prev)
    requires st == Scan(false, CountPlaced(a, s, n, i), HeadsBelow(a, s, i))
    ensures ScanFrom(a, s, n, i, st, fuel) == Scan(false, CountPlaced(a, s, n, n), HeadsBelow(a, s, n))
    decreases n - i
  {
    if i < n {
      SlotCounts(a, s, n, i, rank, prev, st, fuel);
      ScanCounts(a, s, n, i + 1, rank, prev, ScanSlot(a, s, n, i, st, fuel), fuel);
    }
  }

  /** Completeness: an index in order is accepted, and its links stay among the slots in use. */
  lemma ValidIsAccepted(a: RecPtr -> nat, k: Key, n: nat, fuel: nat)
    requires ValidFor(a, k, n) && n <= fuel
    ensures LinksInUse(k.slots, n) && Accepts(a, k, n, fuel)
  {
    var s, hm := k.slots, Homes(a, k.slots);
    var rank, prev :| ValidBy(a, k, n, rank, prev);
    forall i: nat | i < n
      ensures s[i].next.Some? ==> s[i].next.value < n
      ensures hm[i] < n
    {
      assert SlotOk(s, hm, Upto(n), rank, prev, i);
    }
    ScanCounts(a, s, n, 0, rank, prev, Scan(false, 0, 0), fuel);
    HeadsBelowAre(a, s, n);
  }

  /** check_one_key accepts exactly the good indexes, among those whose links stay in use. */
  lemma CheckExact(a: RecPtr -> nat, k: Key, n: nat, fuel: nat)
    requires n <= |k.slots| && n <= fuel
    ensures ValidFor(a, k, n) <==> LinksInUse(k.slots, n) && Accepts(a, k, n, fuel)
  {
    if ValidFor(a, k, n) {
      ValidIsAccepted(a, k, n, fuel);
    }
    if LinksInUse(k.slots, n) && Accepts(a, k, n, fuel) {
      AcceptedIsValid(a, k, n, fuel);
    }
  }

  /**
   The check does not look whether a link leaves the slots in use: here slot 0 links to the stale
   slot 2 instead of slot 1, whose record no search reaches, and the check accepts.
   */
  lemma StaleLinkAccepted(a: RecPtr -> nat, r: RecPtr, t: RecPtr)
    requires a(r) == a(t) == 0
    ensures var k := Key([HashInfo(Some(2), r), HashInfo(None, t), HashInfo(None, r)], 1);
            Accepts(a, k, 2, 2) && !ValidFor(a, k, 2)
  {
    var k := Key([HashInfo(Some(2), r), HashInfo(None, t), HashInfo(None, r)], 1);
    var s := k.slots;
    assert Walk(a, s, 2, 0, Some(2), Scan(false, 1, 0), 2) == Walk(a, s, 2, 0, None, Scan(false, 2, 0), 1);
    assert ScanSlot(a, s, 2, 0, Scan(false, 0, 0), 2) == Scan(false, 2, 1);
    assert ScanSlot(a, s, 2, 1, Scan(false, 2, 1), 2) == Scan(false, 2, 1);
    assert s[0].next == Some(2);
    CheckExact(a, k, 2, 2);
  }
}
