/**
 What heap_check_heap does not see.  A table that it accepts is in order exactly if a few more things hold: the total
 of the counters, the rows in the slots of the indexes, the free list, and the unique keys.
 */
module HeapCheck {
  import opened Wrappers
  import opened HashChains
  import opened HashIndex
  import opened HashWrite
  import opened CheckKey
  import opened CheckCircles
  import opened HeapTable
  import opened HeapShare

  // ---------------------------------------------------------------- the rows in the slots

  /** The first `n` slots have rows that are in use, none of them twice. */
  ghost predicate LiveOnce(rows: seq<Row>, k: Key, n: nat) {
    && n <= |k.slots| && Distinct(Recs(k.slots, n))
    && forall i | 0 <= i < n :: k.slots[i].rec in LiveRows(rows)
  }

  /** As many different rows in use as there are: all of them. */
  lemma AllLive(recs: seq<RecPtr>, live: set<nat>)
    requires Distinct(recs) && |recs| == |live| && forall x | x in recs :: x in live
    ensures multiset(recs) == multiset(live)
  {
    DistinctSize(recs);
    SubsetFull(Members(recs), live);
    forall x
      ensures multiset(recs)[x] == multiset(live)[x]
    {
      DistinctBag(recs, x);
    }
  }

  lemma {:induction false} DistinctBag(recs: seq<RecPtr>, x: RecPtr)
    requires Distinct(recs)
    ensures multiset(recs)[x] == if x in recs then 1 else 0
  {
    if recs != [] {
      var n := |recs| - 1;
      assert recs == recs[..n] + [recs[n]];
      DistinctBag(recs[..n], x);
    }
  }

  /** A bag that is a set has nothing twice. */
  lemma SetIsDistinct(recs: seq<RecPtr>, live: set<nat>)
    requires multiset(recs) == multiset(live)
    ensures Distinct(recs) && forall i | 0 <= i < |recs| :: recs[i] in live
  {
    forall i, j | 0 <= i < j < |recs|
      ensures recs[i] != recs[j]
    {
      TwiceInBag(recs, i, j);
    }
    forall i | 0 <= i < |recs|
      ensures recs[i] in live
    {
      assert recs[i] in multiset(recs);
    }
  }

  lemma TwiceInBag(recs: seq<RecPtr>, i: nat, j: nat)
    requires i < j < |recs|
    ensures recs[i] == recs[j] ==> multiset(recs)[recs[i]] >= 2
  {
    assert recs == recs[..j] + [recs[j]] + recs[j + 1..];
    assert recs[i] in recs[..j];
  }

  /** The rows in use are those that are not deleted. */
  lemma LiveCount(rows: seq<Row>)
    ensures |LiveRows(rows)| == |rows| - CountFree(rows, |rows|)
  {
    CountsFree(rows, |rows|);
    UptoSize(|rows|);
    var live, free := LiveRows(rows), FreeBelow(rows, |rows|);
    assert live + free == Upto(|rows|) && live !! free;
  }

  /**
   Where the counters are right and add up to all rows, an index with its links in use that is accepted has exactly the
   rows in use, each once, if and only if its slots have rows in use only and none twice.
   */
  lemma IndexExact(d: KeyDef, rows: seq<Row>, k: Key, records: nat, deleted: nat, b: nat, fuel: nat)
    requires records + deleted == |rows| && CountFree(rows, |rows|) == deleted && b >= 1 && records <= fuel
    requires LinksInUse(k.slots, records) && Accepted(d, rows, k, records, b, fuel)
    ensures Indexes(d, rows, k, records, b, multiset(LiveRows(rows))) <==> LiveOnce(rows, k, records)
  {
    KeyCheckExact(d, rows, k, records, b, fuel);
    LiveBag(rows, k, records, deleted);
  }

  lemma LiveBag(rows: seq<Row>, k: Key, records: nat, deleted: nat)
    requires records + deleted == |rows| && CountFree(rows, |rows|) == deleted && records <= |k.slots|
    ensures multiset(Recs(k.slots, records)) == multiset(LiveRows(rows)) <==> LiveOnce(rows, k, records)
  {
    var recs, live := Recs(k.slots, records), LiveRows(rows);
    LiveCount(rows);
    if LiveOnce(rows, k, records) {
      AllLive(recs, live);
    }
    if multiset(recs) == multiset(live) {
      SetIsDistinct(recs, live);
      forall i | 0 <= i < records
        ensures k.slots[i].rec in live
      {
        assert recs[i] in live;
      }
    }
  }

  // ---------------------------------------------------------------- the free list

  /** A list that ends has no row twice. */
  lemma {:induction false} FreeDistinct(rows: seq<Row>, link: Option<RecPtr>, free: seq<nat>)
    requires FreeList(rows, link, free)
    ensures Distinct(free)
    decreases |free|
  {
    if free != [] {
      FreeDistinct(rows, rows[free[0]].next, free[1..]);
      forall j | 0 < j < |free|
        ensures free[0] != free[j]
      {
        FreeSuffix(rows, link, free, j);
        if free[0] == free[j] {
          SameList(rows, Some(free[0]), free, free[j..]);
        }
      }
    }
  }

  lemma {:induction false} FreeSuffix(rows: seq<Row>, link: Option<RecPtr>, free: seq<nat>, j: nat)
    requires FreeList(rows, link, free) && j < |free|
    ensures FreeList(rows, Some(free[j]), free[j..])
    decreases |free|
  {
    if j == 0 {
      assert free[0..] == free;
    } else {
      FreeSuffix(rows, rows[free[0]].next, free[1..], j - 1);
      assert free[1..][j - 1..] == free[j..];
    }
  }

  /** A link has one list. */
  lemma {:induction false} SameList(rows: seq<Row>, link: Option<RecPtr>, a: seq<nat>, b: seq<nat>)
    requires FreeList(rows, link, a) && FreeList(rows, link, b)
    ensures |a| == |b|
    decreases |a|
  {
    if a != [] {
      SameList(rows, rows[a[0]].next, a[1..], b[1..]);
    }
  }

  /** With right counters, a free list of the right length has all deleted rows. */
  lemma RowsExact(rows: seq<Row>, link: Option<RecPtr>, free: seq<nat>, records: nat, deleted: nat)
    requires records + deleted == |rows| && CountFree(rows, |rows|) == deleted
    ensures RowsOk(rows, link, free, records, deleted) <==> FreeList(rows, link, free) && |free| == deleted
  {
    if FreeList(rows, link, free) && |free| == deleted {
      FreeDistinct(rows, link, free);
      FreeInRange(rows, link, free);
      DistinctSize(free);
      CountsFree(rows, |rows|);
      SubsetFull(Members(free), FreeBelow(rows, |rows|));
    }
  }

  // ---------------------------------------------------------------- the whole table

  ghost predicate AllLiveOnce(rows: seq<Row>, keys: seq<Key>, n: nat) {
    forall i {:trigger LiveOnce(rows, keys[i], n)} | 0 <= i < |keys| :: LiveOnce(rows, keys[i], n)
  }

  /** What acceptance leaves open. */
  ghost predicate LeftOpen(defs: seq<KeyDef>, rows: seq<Row>, link: Option<RecPtr>, free: seq<nat>, keys: seq<Key>,
                           records: nat, deleted: nat, blength: nat)
  {
    && GoodLength(records, blength) && records + deleted == |rows| && FreeList(rows, link, free) && |free| == deleted
    && AllLiveOnce(rows, keys, records) && AllUnique(defs, rows)
  }

  lemma IndexesExact(defs: seq<KeyDef>, rows: seq<Row>, keys: seq<Key>, records: nat, deleted: nat, b: nat)
    requires records + deleted == |rows| && CountFree(rows, |rows|) == deleted && AllValid(defs, rows, keys, records, b)
    ensures AllIndex(defs, rows, keys, 0, |defs|, records, b, multiset(LiveRows(rows))) <==>
            AllLiveOnce(rows, keys, records)
  {
    forall i | 0 <= i < |defs|
      ensures Indexes(defs[i], rows, keys[i], records, b, multiset(LiveRows(rows))) <==>
              LiveOnce(rows, keys[i], records)
    {
      assert Valid(Hash(defs[i], rows), keys[i], records, b);
      LiveBag(rows, keys[i], records, deleted);
    }
  }

  /** A table is in order exactly if heap_check_heap accepts it and what acceptance leaves open holds as well. */
  lemma TableExact(defs: seq<KeyDef>, rows: seq<Row>, link: Option<RecPtr>, free: seq<nat>, keys: seq<Key>,
                   records: nat, deleted: nat, blength: nat)
    ensures TableOk(defs, rows, link, free, keys, records, deleted, blength) <==>
            && Sound(defs, rows, keys, records, deleted, blength)
            && LeftOpen(defs, rows, link, free, keys, records, deleted, blength)
  {
    if TableOk(defs, rows, link, free, keys, records, deleted, blength) {
      TableIsSound(defs, rows, link, free, keys, records, deleted, blength);
    }
    if Sound(defs, rows, keys, records, deleted, blength) && records + deleted == |rows| {
      IndexesExact(defs, rows, keys, records, deleted, blength);
      RowsExact(rows, link, free, records, deleted);
    }
  }

  // ---------------------------------------------------------------- tables that are accepted and not in order

  /** A chain of two slots at address 0. */
  ghost function TwoSlots(r: RecPtr, t: RecPtr): Key {
    Key([HashInfo(Some(1), r), HashInfo(None, t)], 1)
  }

  lemma TwoSlotsAccepted(a: RecPtr -> nat, r: RecPtr, t: RecPtr)
    requires a(r) == a(t) == 0
    ensures LinksInUse(TwoSlots(r, t).slots, 2) && Accepts(a, TwoSlots(r, t), 2, 2)
  {
    var k := TwoSlots(r, t);
    var s := k.slots;
    assert s[0].next == Some(1) && s[1].next == None;
    assert Walk(a, s, 2, 0, Some(1), Scan(false, 1, 0), 2) == Walk(a, s, 2, 0, None, Scan(false, 2, 0), 1);
    assert ScanSlot(a, s, 2, 0, Scan(false, 0, 0), 2) == Scan(false, 2, 1);
    assert ScanSlot(a, s, 2, 1, Scan(false, 2, 1), 2) == Scan(false, 2, 1);
    assert ScanFrom(a, s, 2, 1, Scan(false, 2, 1), 2) == ScanFrom(a, s, 2, 2, Scan(false, 2, 1), 2);
  }

  lemma MaskOfZero()
    ensures Mask(0, 4, 2) == 0
  {
    assert LowBits(0, 2) == 0;
    assert LowBits(0, 4) == 0;
  }

  /** Two rows with hash 0, and an index that is accepted. */
  lemma TwoRows(d: KeyDef, x: Record, y: Record, r: RecPtr, t: RecPtr)
    requires d.hash(d.part(x)) == d.hash(d.part(y)) == 0 && r < 2 && t < 2
    ensures var rows := [Live(x), Live(y)];
            && LinksInUse(TwoSlots(r, t).slots, 2) && Accepted(d, rows, TwoSlots(r, t), 2, 4, 2)
            && CountFree(rows, 2) == 0 && Sound([d], rows, [TwoSlots(r, t)], 2, 0, 4)
  {
    var rows, k := [Live(x), Live(y)], TwoSlots(r, t);
    var h := Hash(d, rows);
    assert h(r) == h(t) == 0;
    MaskOfZero();
    TwoSlotsAccepted(Address(h, 4, 2), r, t);
    KeyCheckExact(d, rows, k, 2, 4, 2);
    assert CountFree(rows, 1) == CountFree(rows, 0) + 0;
    assert CountFree(rows, 2) == CountFree(rows, 1) + 0;
  }

  /** An index that has the first row twice and the second not at all is accepted. */
  lemma DoubledRowAccepted(d: KeyDef, x: Record, y: Record)
    requires d.hash(d.part(x)) == d.hash(d.part(y)) == 0
    ensures var rows, k := [Live(x), Live(y)], TwoSlots(0, 0);
            && LinksInUse(k.slots, 2) && Accepted(d, rows, k, 2, 4, 2) && Sound([d], rows, [k], 2, 0, 4)
            && !AllIndex([d], rows, [k], 0, 1, 2, 4, multiset(LiveRows(rows)))
  {
    var rows, k := [Live(x), Live(y)], TwoSlots(0, 0);
    TwoRows(d, x, y, 0, 0);
    IndexExact(d, rows, k, 2, 0, 4, 2);
    assert Recs(k.slots, 2)[0] == Recs(k.slots, 2)[1];
    var defs, keys := [d], [k];
    assert !Indexes(defs[0], rows, keys[0], 2, 4, multiset(LiveRows(rows)));
  }

  /** Two rows with the same unique key are accepted. */
  lemma DuplicateAccepted(d: KeyDef, x: Record)
    requires d.hash(d.part(x)) == 0 && d.unique(d.part(x))
    ensures var rows, k := [Live(x), Live(x)], TwoSlots(0, 1);
            && LinksInUse(k.slots, 2) && Accepted(d, rows, k, 2, 4, 2) && Sound([d], rows, [k], 2, 0, 4)
            && !AllUnique([d], rows)
  {
    var rows := [Live(x), Live(x)];
    TwoRows(d, x, x, 0, 1);
    var defs := [d];
    assert rows[0] == rows[1] == Live(x);
    assert !NoDuplicates(defs[0], rows);
  }

  /** A row behind those that the counters add up to is not seen. */
  lemma WrongTotalAccepted(x: Record, y: Record)
    ensures var rows := [Live(x), Live(y)];
            && Sound([], rows, [], 1, 0, 2)
            && forall link, free :: !TableOk([], rows, link, free, [], 1, 0, 2)
  {
    var rows := [Live(x), Live(y)];
    assert CountFree(rows, 1) == CountFree(rows, 0) + 0;
  }

  /** A deleted row that the free list has lost is not missed. */
  lemma LostRowAccepted()
    ensures Sound([], [Free(None)], [], 0, 1, 1)
    ensures forall free :: !TableOk([], [Free(None)], None, free, [], 0, 1, 1)
  {
    var rows: seq<Row> := [Free(None)];
    assert CountFree(rows, 1) == CountFree(rows, 0) + 1;
  }

  // ---------------------------------------------------------------- when it ends

  /** Some head of the index has links that run into a circle. */
  ghost predicate KeyStuck(d: KeyDef, rows: seq<Row>, k: Key, n: nat, b: nat, m: nat) {
    n <= |k.slots| && exists x :: 0 <= x < n && Stuck(Address(Hash(d, rows), b, n), k.slots, n, m, x)
  }

  /** heap_check_heap has no verdict exactly if some key has such a head. */
  lemma CheckEndsExactly(defs: seq<KeyDef>, rows: seq<Row>, keys: seq<Key>, records: nat, deleted: nat, b: nat, m: nat,
                         fuel: nat, r: Option<int>)
    requires |keys| == |defs| && records + deleted <= |rows| && records <= m && fuel >= Steps(m, records)
    requires forall i | 0 <= i < |keys| :: LinksInUse(keys[i].slots, m)
    requires Verdict(defs, rows, keys, records, deleted, b, fuel, r)
    ensures r.None? <==> exists i :: 0 <= i < |keys| && KeyStuck(defs[i], rows, keys[i], records, b, m)
  {
    forall i | 0 <= i < |keys|
      ensures Undecided(defs[i], rows, keys[i], records, b, fuel) == KeyStuck(defs[i], rows, keys[i], records, b, m)
    {
      NoVerdictExactly(Address(Hash(defs[i], rows), b, records), keys[i], records, m, fuel);
    }
  }
}
