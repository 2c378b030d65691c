/** The table operations heap_write, heap_delete and heap_check_heap on a share. */
module HeapShare {
  import opened Wrappers
  import opened HashChains
  import opened HashIndex
  import opened CheckKey
  import opened HeapTable

  /** After a successful write. */
  lemma Stored(defs: seq<KeyDef>, rows: seq<Row>, rows': seq<Row>, link: Option<RecPtr>, free: seq<nat>, keys: seq<Key>,
               records: nat, deleted: nat, blength: nat, pos: nat, record: Record)
    requires OnePut(rows, rows', pos) && rows'[pos] == Live(record) && RowsOk(rows', link, free, records + 1, deleted)
    requires AllUnique(defs, rows) && GoodLength(records, blength)
    requires NoneClash(defs, rows', multiset(LiveRows(rows)), record, |defs|)
    requires AllIndex(defs, rows', keys, 0, |defs|, records + 1, blength, multiset(LiveRows(rows)) + multiset{pos})
    ensures TableOk(defs, rows', link, free, keys, records + 1, deleted, Recovered(records, blength))
    ensures pos !in Contents(rows) && Contents(rows') == Contents(rows)[pos := record]
  {
    RecoversLength(records, blength);
    OneMoreLive(rows, rows', pos);
    DoubledAll(defs, rows', keys, |defs|, records, blength, multiset(LiveRows(rows')));
    forall i | 0 <= i < |defs|
      ensures NoDuplicates(defs[i], rows')
    {
      assert !Clashes(defs[i], rows', multiset(LiveRows(rows)), record);
      ClashIsDuplicate(defs[i], rows, rows', pos, record);
      UniqueAfter(defs[i], rows, rows', pos, record);
    }
  }

  /** After a write that was undone. */
  lemma Undone(defs: seq<KeyDef>, rows: seq<Row>, rows': seq<Row>, link: Option<RecPtr>, free: seq<nat>, keys: seq<Key>,
               records: nat, deleted: nat, blength: nat, pos: nat)
    requires OnePut(rows, rows', pos) && rows'[pos].Live? && RowsOk(rows', link, free, records + 1, deleted)
    requires AllUnique(defs, rows) && GoodLength(records, blength)
    requires AllIndex(defs, rows', keys, 0, |defs|, records, blength, multiset(LiveRows(rows)))
    ensures var last := rows'[pos := Free(link)];
            TableOk(defs, last, Some(pos), [pos] + free, keys, records, deleted + 1, blength) &&
              Contents(last) == Contents(rows)
  {
    var last := rows'[pos := Free(link)];
    Freed(rows', link, free, records + 1, deleted, pos);
    SameUnique(defs, rows, last);
    assert LiveRows(rows) == LiveRows(last);
    FrameAll(defs, rows', last, keys, records, blength, multiset(LiveRows(rows)));
  }

  lemma SameUnique(defs: seq<KeyDef>, rows: seq<Row>, rows': seq<Row>)
    requires AllUnique(defs, rows) && forall x: nat | x < |rows'| && rows'[x].Live? :: x < |rows| && rows'[x] == rows[x]
    ensures AllUnique(defs, rows')
  {
    forall i | 0 <= i < |defs|
      ensures NoDuplicates(defs[i], rows')
    {
      assert NoDuplicates(defs[i], rows);
    }
  }

  /** The first `hi` keys have no row with the key of `record`. */
  ghost predicate NoneDuplicate(defs: seq<KeyDef>, contents: map<nat, Record>, record: Record, hi: nat) {
    hi <= |defs| && forall i | 0 <= i < hi :: !Duplicate(defs[i], contents, record)
  }

  lemma ClashesAreDuplicates(defs: seq<KeyDef>, rows: seq<Row>, rows': seq<Row>, pos: nat, record: Record, hi: nat)
    requires OnePut(rows, rows', pos)
    ensures NoneClash(defs, rows', multiset(LiveRows(rows)), record, hi) ==
            NoneDuplicate(defs, Contents(rows), record, hi)
  {
    if hi <= |defs| {
      forall i | 0 <= i < hi
        ensures Clashes(defs[i], rows', multiset(LiveRows(rows)), record) == Duplicate(defs[i], Contents(rows), record)
      {
        ClashIsDuplicate(defs[i], rows, rows', pos, record);
      }
    }
  }

  lemma Shrunken(defs: seq<KeyDef>, rows: seq<Row>, pos: nat, next: Option<RecPtr>, keys: seq<Key>, records: nat,
                 blength: nat)
    requires pos < |rows| && rows[pos].Live? && AllUnique(defs, rows)
    requires AllIndex(defs, rows, keys, 0, |defs|, records, blength, multiset(LiveRows(rows)) - multiset{pos})
    ensures var rows' := rows[pos := Free(next)];
            && AllUnique(defs, rows')
            && AllIndex(defs, rows', keys, 0, |defs|, records, blength, multiset(LiveRows(rows')))
            && Contents(rows') == Contents(rows) - {pos}
  {
    var rows' := rows[pos := Free(next)];
    assert LiveRows(rows) == LiveRows(rows') + {pos};
    assert multiset(LiveRows(rows)) - multiset{pos} == multiset(LiveRows(rows'));
    FrameAll(defs, rows, rows', keys, records, blength, multiset(LiveRows(rows')));
  }

  /** After a successful delete. */
  lemma Dropped(defs: seq<KeyDef>, rows: seq<Row>, link: Option<RecPtr>, free: seq<nat>, keys: seq<Key>, records: nat,
                deleted: nat, blength: nat, pos: nat)
    requires pos < |rows| && rows[pos].Live? && RowsOk(rows, link, free, records + 1, deleted)
    requires AllUnique(defs, rows) && GoodLength(records, blength)
    requires AllIndex(defs, rows, keys, 0, |defs|, records, blength, multiset(LiveRows(rows)) - multiset{pos})
    ensures var rows' := rows[pos := Free(link)];
            && TableOk(defs, rows', Some(pos), [pos] + free, keys, records, deleted + 1, blength)
            && Contents(rows') == Contents(rows) - {pos}
  {
    Freed(rows, link, free, records + 1, deleted, pos);
    Shrunken(defs, rows, pos, link, keys, records, blength);
  }

  // ---------------------------------------------------------------- heap_check_heap

  ghost function CountFree(rows: seq<Row>, n: nat): (r: nat)
    requires n <= |rows|
    ensures r <= n
  {
    if n == 0 then 0 else CountFree(rows, n - 1) + if rows[n - 1].Free? then 1 else 0
  }

  ghost function FreeBelow(rows: seq<Row>, n: nat): (r: set<nat>)
    requires n <= |rows|
    ensures forall x: nat :: x in r <==> x < n && rows[x].Free?
  {
    set x: nat | x < n && rows[x].Free?
  }

  lemma {:induction false} CountsFree(rows: seq<Row>, n: nat)
    requires n <= |rows|
    ensures CountFree(rows, n) == |FreeBelow(rows, n)|
  {
    if n > 0 {
      CountsFree(rows, n - 1);
      MaybeOneMore(FreeBelow(rows, n - 1), FreeBelow(rows, n), n - 1, rows[n - 1].Free?);
    }
  }

  /** The counters of deleted and other rows agree with the flags in the rows. */
  lemma CountsAgree(rows: seq<Row>, link: Option<RecPtr>, free: seq<nat>, records: nat, deleted: nat)
    requires RowsOk(rows, link, free, records, deleted)
    ensures CountFree(rows, |rows|) == deleted
  {
    CountsFree(rows, |rows|);
    DistinctSize(free);
    FreeInRange(rows, link, free);
    assert FreeBelow(rows, |rows|) == Members(free);
  }

  /** The scan over all rows, one block after the other. */
  method CountRows(rows: seq<Row>, total: nat, perBlock: nat) returns (records: nat, deleted: nat)
    requires total <= |rows| && perBlock >= 1
    ensures deleted == CountFree(rows, total) && records == total - deleted
  {
    records, deleted := 0, 0;
    var pos, nextBlock := 0, 0;
    while true
      invariant pos <= nextBlock <= total
      invariant deleted == CountFree(rows, pos) && records == pos - deleted
      decreases total - pos
    {
      if pos >= nextBlock {
        nextBlock := nextBlock + perBlock;
        if nextBlock >= total {
          nextBlock := total;
          if pos >= nextBlock {
            break;
          }
        }
      }
      if rows[pos].Free? {
        deleted := deleted + 1;
      } else {
        records := records + 1;
      }
      pos := pos + 1;
    }
  }

  ghost predicate Accepted(d: KeyDef, rows: seq<Row>, k: Key, n: nat, b: nat, fuel: nat) {
    n <= |k.slots| && Accepts(Address(Hash(d, rows), b, n), k, n, fuel)
  }

  /** check_one_key on an index accepts it exactly when it is sound, if its links stay among the slots in use. */
  lemma KeyCheckExact(d: KeyDef, rows: seq<Row>, k: Key, n: nat, b: nat, fuel: nat)
    requires b >= 1 && n <= fuel
    ensures Valid(Hash(d, rows), k, n, b) == (LinksInUse(k.slots, n) && Accepted(d, rows, k, n, b, fuel))
  {
    if n <= |k.slots| {
      CheckExact(Address(Hash(d, rows), b, n), k, n, fuel);
    }
  }

  /** check_one_key has no verdict on the index. */
  ghost predicate Undecided(d: KeyDef, rows: seq<Row>, k: Key, n: nat, b: nat, fuel: nat) {
    n <= |k.slots| && CheckFun(Address(Hash(d, rows), b, n), k, n, fuel).NoVerdict?
  }

  /** check_one_key finds an error in it. */
  ghost predicate Rejected(d: KeyDef, rows: seq<Row>, k: Key, n: nat, b: nat, fuel: nat) {
    && n <= |k.slots|
    && var st := CheckFun(Address(Hash(d, rows), b, n), k, n, fuel);
       st.Scan? && st.error
  }

  method CheckOne(d: KeyDef, rows: seq<Row>, k: Key, n: nat, b: nat, fuel: nat) returns (r: Option<int>)
    requires n <= |k.slots|
    ensures (r == Some(0)) == Accepted(d, rows, k, n, b, fuel)
    ensures r.None? == Undecided(d, rows, k, n, b, fuel) && (r == Some(1)) == Rejected(d, rows, k, n, b, fuel)
    ensures r.Some? ==> r.value == 0 || r.value == 1
  {
    r := CheckOneKey(Address(Hash(d, rows), b, n), k, n, fuel);
  }

  /** check_one_key accepts the first `hi` keys. */
  ghost predicate AllAccepted(defs: seq<KeyDef>, rows: seq<Row>, keys: seq<Key>, n: nat, b: nat, fuel: nat, hi: nat) {
    && |keys| == |defs| && hi <= |keys|
    && forall i {:trigger Accepted(defs[i], rows, keys[i], n, b, fuel)} | 0 <= i < hi ::
       Accepted(defs[i], rows, keys[i], n, b, fuel)
  }

  lemma NextAccepted(defs: seq<KeyDef>, rows: seq<Row>, keys: seq<Key>, n: nat, b: nat, fuel: nat, i: nat)
    requires i < |keys| == |defs|
    ensures AllAccepted(defs, rows, keys, n, b, fuel, i + 1) ==
            (AllAccepted(defs, rows, keys, n, b, fuel, i) && Accepted(defs[i], rows, keys[i], n, b, fuel))
    ensures AllAccepted(defs, rows, keys, n, b, fuel, |keys|) ==> Accepted(defs[i], rows, keys[i], n, b, fuel)
  {
  }

  /** There is no verdict on one of the first `hi` keys. */
  ghost predicate AnyUndecided(defs: seq<KeyDef>, rows: seq<Row>, keys: seq<Key>, n: nat, b: nat, fuel: nat, hi: nat)
    requires hi <= |keys| == |defs|
  {
    exists i :: 0 <= i < hi && Undecided(defs[i], rows, keys[i], n, b, fuel)
  }

  /** One of the first `hi` keys has an error. */
  ghost predicate AnyRejected(defs: seq<KeyDef>, rows: seq<Row>, keys: seq<Key>, n: nat, b: nat, fuel: nat, hi: nat)
    requires hi <= |keys| == |defs|
  {
    exists i :: 0 <= i < hi && Rejected(defs[i], rows, keys[i], n, b, fuel)
  }

  lemma NextRejected(defs: seq<KeyDef>, rows: seq<Row>, keys: seq<Key>, n: nat, b: nat, fuel: nat, i: nat)
    requires i < |keys| == |defs|
    ensures AnyRejected(defs, rows, keys, n, b, fuel, i + 1) ==
            (AnyRejected(defs, rows, keys, n, b, fuel, i) || Rejected(defs[i], rows, keys[i], n, b, fuel))
  {
    if x :| 0 <= x < i + 1 && Rejected(defs[x], rows, keys[x], n, b, fuel) {
      assert x == i || AnyRejected(defs, rows, keys, n, b, fuel, i);
    }
  }

  lemma NextUndecided(defs: seq<KeyDef>, rows: seq<Row>, keys: seq<Key>, n: nat, b: nat, fuel: nat, i: nat)
    requires i < |keys| == |defs|
    ensures AnyUndecided(defs, rows, keys, n, b, fuel, i + 1) ==
            (AnyUndecided(defs, rows, keys, n, b, fuel, i) || Undecided(defs[i], rows, keys[i], n, b, fuel))
    ensures Undecided(defs[i], rows, keys[i], n, b, fuel) ==> AnyUndecided(defs, rows, keys, n, b, fuel, |keys|)
  {
    if x :| 0 <= x < i + 1 && Undecided(defs[x], rows, keys[x], n, b, fuel) {
      assert x == i || AnyUndecided(defs, rows, keys, n, b, fuel, i);
    }
  }

  /** The loop of heap_check_heap over the keys. */
  method CheckKeys(defs: seq<KeyDef>, rows: seq<Row>, keys: seq<Key>, n: nat, b: nat, fuel: nat)
    returns (r: Option<int>)
    requires |keys| == |defs| && forall i | 0 <= i < |keys| :: n <= |keys[i].slots|
    ensures (r == Some(0)) == AllAccepted(defs, rows, keys, n, b, fuel, |keys|)
    ensures r.None? == AnyUndecided(defs, rows, keys, n, b, fuel, |keys|)
    ensures r.Some? ==> r.value == if AnyRejected(defs, rows, keys, n, b, fuel, |keys|) then 1 else 0
  {
    var error := 0;
    for i := 0 to |keys|
      invariant (error == 0) == AllAccepted(defs, rows, keys, n, b, fuel, i)
      invariant !AnyUndecided(defs, rows, keys, n, b, fuel, i)
      invariant error == if AnyRejected(defs, rows, keys, n, b, fuel, i) then 1 else 0
    {
      NextAccepted(defs, rows, keys, n, b, fuel, i);
      NextRejected(defs, rows, keys, n, b, fuel, i);
      NextUndecided(defs, rows, keys, n, b, fuel, i);
      var e := CheckOne(defs[i], rows, keys[i], n, b, fuel);
      if e.None? {
        return None;
      }
      error := if error == 0 then e.value else error;
    }
    return Some(error);
  }

  /** What heap_check_heap finds out: all indexes sound, and the row counters right for the rows they add up to. */
  ghost predicate Sound(defs: seq<KeyDef>, rows: seq<Row>, keys: seq<Key>, records: nat, deleted: nat, blength: nat) {
    && records + deleted <= |rows| && CountFree(rows, records + deleted) == deleted
    && AllValid(defs, rows, keys, records, blength)
  }

  ghost predicate AllValid(defs: seq<KeyDef>, rows: seq<Row>, keys: seq<Key>, n: nat, b: nat) {
    && |keys| == |defs|
    && forall i {:trigger Valid(Hash(defs[i], rows), keys[i], n, b)} | 0 <= i < |defs| ::
       Valid(Hash(defs[i], rows), keys[i], n, b)
  }

  ghost predicate AllLinksInUse(keys: seq<Key>, n: nat) {
    forall i | 0 <= i < |keys| :: LinksInUse(keys[i].slots, n)
  }

  lemma KeysCheckExact(defs: seq<KeyDef>, rows: seq<Row>, keys: seq<Key>, n: nat, b: nat, fuel: nat)
    requires b >= 1 && n <= fuel && |keys| == |defs|
    ensures AllValid(defs, rows, keys, n, b) ==
            (AllLinksInUse(keys, n) && AllAccepted(defs, rows, keys, n, b, fuel, |keys|))
  {
    forall i | 0 <= i < |keys|
      ensures Valid(Hash(defs[i], rows), keys[i], n, b) ==
              (LinksInUse(keys[i].slots, n) && Accepted(defs[i], rows, keys[i], n, b, fuel))
    {
      KeyCheckExact(defs[i], rows, keys[i], n, b, fuel);
    }
  }

  /** A key has an error, or the flags in the first rows are not those of the counters. */
  ghost predicate Faulty(defs: seq<KeyDef>, rows: seq<Row>, keys: seq<Key>, records: nat, deleted: nat, b: nat,
                         fuel: nat)
    requires |keys| == |defs| && records + deleted <= |rows|
  {
    AnyRejected(defs, rows, keys, records, b, fuel, |keys|) || CountFree(rows, records + deleted) != deleted
  }

  /** The verdict `r` is the right one. */
  ghost predicate Verdict(defs: seq<KeyDef>, rows: seq<Row>, keys: seq<Key>, records: nat, deleted: nat, b: nat,
                          fuel: nat, r: Option<int>)
    requires |keys| == |defs| && records + deleted <= |rows|
  {
    && (r.None? <==> AnyUndecided(defs, rows, keys, records, b, fuel, |keys|))
    && (r.Some? ==> r.value == if Faulty(defs, rows, keys, records, deleted, b, fuel) then 1 else 0)
  }

  lemma AcceptedExactly(defs: seq<KeyDef>, rows: seq<Row>, keys: seq<Key>, n: nat, b: nat, fuel: nat)
    requires |keys| == |defs| && forall i | 0 <= i < |keys| :: n <= |keys[i].slots|
    ensures AllAccepted(defs, rows, keys, n, b, fuel, |keys|) <==>
            !AnyUndecided(defs, rows, keys, n, b, fuel, |keys|) && !AnyRejected(defs, rows, keys, n, b, fuel, |keys|)
  {
    forall i | 0 <= i < |keys|
      ensures Accepted(defs[i], rows, keys[i], n, b, fuel) ==
              (!Undecided(defs[i], rows, keys[i], n, b, fuel) && !Rejected(defs[i], rows, keys[i], n, b, fuel))
    {
    }
  }

  /** The verdict is 0 exactly for sound tables, if links stay among the slots in use. */
  lemma SoundExactly(defs: seq<KeyDef>, rows: seq<Row>, keys: seq<Key>, records: nat, deleted: nat, b: nat, fuel: nat,
                     r: Option<int>)
    requires b >= 1 && records <= fuel && |keys| == |defs| && records + deleted <= |rows|
    requires forall i | 0 <= i < |keys| :: records <= |keys[i].slots|
    ensures Verdict(defs, rows, keys, records, deleted, b, fuel, r) ==>
              Sound(defs, rows, keys, records, deleted, b) == (AllLinksInUse(keys, records) && r == Some(0))
  {
    KeysCheckExact(defs, rows, keys, records, b, fuel);
    AcceptedExactly(defs, rows, keys, records, b, fuel);
  }

  /** heap_check_heap on the parts of a share. */
  method CheckTable(defs: seq<KeyDef>, rows: seq<Row>, keys: seq<Key>, records: nat, deleted: nat, blength: nat,
                    perBlock: nat, fuel: nat)
    returns (r: Option<int>)
    requires perBlock >= 1 && records + deleted <= |rows| && |keys| == |defs|
    requires forall i | 0 <= i < |keys| :: records <= |keys[i].slots|
    ensures Verdict(defs, rows, keys, records, deleted, blength, fuel, r)
  {
    r := CheckKeys(defs, rows, keys, records, blength, fuel);
    if r.Some? {
      var recordsFound, deletedFound := CountRows(rows, records + deleted, perBlock);
      if recordsFound != records || deletedFound != deleted {
        r := Some(1);
      }
    }
  }

  lemma IndexesAreValid(defs: seq<KeyDef>, rows: seq<Row>, keys: seq<Key>, n: nat, b: nat, bag: multiset<RecPtr>)
    ensures AllIndex(defs, rows, keys, 0, |defs|, n, b, bag) ==> AllValid(defs, rows, keys, n, b)
  {
    if AllIndex(defs, rows, keys, 0, |defs|, n, b, bag) {
      forall i | 0 <= i < |defs|
        ensures Valid(Hash(defs[i], rows), keys[i], n, b)
      {
        assert Indexes(defs[i], rows, keys[i], n, b, bag);
      }
    }
  }

  lemma TableIsSound(defs: seq<KeyDef>, rows: seq<Row>, link: Option<RecPtr>, free: seq<nat>, keys: seq<Key>,
                     records: nat, deleted: nat, blength: nat)
    requires TableOk(defs, rows, link, free, keys, records, deleted, blength)
    ensures Sound(defs, rows, keys, records, deleted, blength)
  {
    CountsAgree(rows, link, free, records, deleted);
    assert |rows| == records + deleted;
    IndexesAreValid(defs, rows, keys, records, blength, multiset(LiveRows(rows)));
  }

  /** What heap_write returns. */
  datatype WriteResult = Written(pos: RecPtr) | DuplicateKey(errkey: nat) | FileFull | OutOfMemory

  class HpShare {
    const defs: seq<KeyDef>
    const recordsInBlock: nat
    const maxRecords: nat
    var records: nat
    var deleted: nat
    var blength: nat
    var delLink: Option<RecPtr>
    var rows: seq<Row>
    var keys: seq<Key>
    ghost var free: seq<nat>

    ghost predicate Valid()
      reads this
    {
      recordsInBlock >= 1 && TableOk(defs, rows, delLink, free, keys, records, deleted, blength)
    }

    /** The next row needs a new block. */
    predicate NeedsBlock()
      reads this
      requires recordsInBlock >= 1
    {
      delLink.None? && records % recordsInBlock == 0
    }

    constructor (defs: seq<KeyDef>, recordsInBlock: nat, maxRecords: nat)
      requires recordsInBlock >= 1
      ensures Valid() && this.defs == defs && Contents(rows) == map[] && records == deleted == 0
      ensures this.recordsInBlock == recordsInBlock && this.maxRecords == maxRecords
    {
      this.defs, this.recordsInBlock, this.maxRecords := defs, recordsInBlock, maxRecords;
      records, deleted, blength, delLink, rows, free := 0, 0, 1, None, [], [];
      keys := seq(|defs|, _ => Key([], 0));
    }

    /** Position `pos` has been taken for a row with `record`; `rows1` is what the rows would be then. */
    ghost predicate Claimed(rows1: seq<Row>, pos: RecPtr, record: Record)
      reads this
    {
      && recordsInBlock >= 1 && OnePut(rows, rows1, pos) && rows1[pos] == Live(record) &&
         RowsOk(rows1, delLink, free, records + 1, deleted)
      && AllUnique(defs, rows) && GoodLength(records, blength)
    }

    /**
     next_free_record_pos: a deleted row, or else the position behind the last one.  Only when that starts a new
     block are the limits looked at; `tooLong` is the limit on the lengths, `noMemory` a failing hp_get_new_block.
     */
    method NextFreePos(ghost record: Record, tooLong: bool, noMemory: bool) returns (r: WriteResult)
      requires Valid()
      modifies this`deleted, this`delLink, this`free
      ensures !r.DuplicateKey?
      ensures r == FileFull <==> old(NeedsBlock()) && ((records > maxRecords && maxRecords != 0) || tooLong)
      ensures r == OutOfMemory <==> old(NeedsBlock()) && r != FileFull && noMemory
      ensures !r.Written? ==> unchanged(this)
      ensures r.Written? ==> r.pos <= |rows| && Claimed(Put(rows, r.pos, Live(record)), r.pos, record)
      ensures r.Written? && old(delLink).Some? ==>
                && r.pos == old(delLink).value == old(free)[0] < |rows| && rows[r.pos].Free?
                && delLink == rows[r.pos].next && free == old(free)[1..] && deleted + 1 == old(deleted)
      ensures r.Written? && old(delLink).None? ==>
                r.pos == |rows| && delLink == None && free == old(free) == [] && deleted == old(deleted) == 0
    {
      Taken(rows, delLink, free, records, deleted, record);
      if delLink.Some? {
        r := Written(delLink.value);
        delLink := rows[r.pos].next;
        deleted := deleted - 1;
        free := free[1..];
        return;
      }
      if records % recordsInBlock == 0 {
        if (records > maxRecords && maxRecords != 0) || tooLong {
          return FileFull;
        }
        if noMemory {
          return OutOfMemory;
        }
      }
      r := Written(records);
    }

    /** The end of a successful heap_write. */
    method StoreRow(rows1: seq<Row>, pos: RecPtr, record: Record)
      requires Claimed(rows1, pos, record) && NoneClash(defs, rows1, multiset(LiveRows(rows)), record, |defs|)
      requires AllIndex(defs, rows1, keys, 0, |defs|, records + 1, blength, multiset(LiveRows(rows)) + multiset{pos})
      modifies this`rows, this`records, this`blength
      ensures Valid() && records == old(records) + 1
      ensures pos !in old(Contents(rows)) && Contents(rows) == old(Contents(rows))[pos := record]
      ensures rows == rows1
    {
      Stored(defs, rows, rows1, delLink, free, keys, records, deleted, blength, pos, record);
      rows := rows1;
      records := records + 1;
      if records == blength {
        blength := blength + blength;
      }
    }

    /** The row at `pos` has been put in front of the free list. */
    ghost predicate HeadFreed(was: nat, free0: seq<nat>, pos: RecPtr)
      reads this
    {
      delLink == Some(pos) && free == [pos] + free0 && deleted == was + 1
    }

    /** The end of a failed heap_write: the position goes to the free list. */
    method FreeRow(rows1: seq<Row>, pos: RecPtr, record: Record)
      requires Claimed(rows1, pos, record)
      requires AllIndex(defs, rows1, keys, 0, |defs|, records, blength, multiset(LiveRows(rows)))
      modifies this`rows, this`deleted, this`delLink, this`free
      ensures Valid() && Contents(rows) == old(Contents(rows))
      ensures rows == rows1[pos := Free(old(delLink))] && HeadFreed(old(deleted), old(free), pos)
    {
      Undone(defs, rows, rows1, delLink, free, keys, records, deleted, blength, pos);
      deleted := deleted + 1;
      rows := rows1[pos := Free(delLink)];
      delLink := Some(pos);
      free := [pos] + free;
    }

    /** The key part of heap_write, with the new row at `pos` in `rows1`; a duplicate is taken out again. */
    method WriteAll(rows1: seq<Row>, pos: RecPtr, record: Record) returns (errkey: Option<nat>)
      requires Claimed(rows1, pos, record)
      requires AllIndex(defs, rows, keys, 0, |defs|, records, blength, multiset(LiveRows(rows)))
      modifies this`keys
      ensures NoneClash(defs, rows1, multiset(LiveRows(rows)), record, if errkey.Some? then errkey.value else |defs|)
      ensures errkey.Some? ==>
                errkey.value < |defs| && Clashes(defs[errkey.value], rows1, multiset(LiveRows(rows)), record)
      ensures errkey.None? ==> AllIndex(defs, rows1, keys, 0, |defs|, records + 1, blength,
                                        multiset(LiveRows(rows)) + multiset{pos})
      ensures errkey.Some? ==> AllIndex(defs, rows1, keys, 0, |defs|, records, blength, multiset(LiveRows(rows)))
    {
      ghost var bag := multiset(LiveRows(rows));
      FrameAll(defs, rows, rows1, keys, records, blength, bag);
      keys, errkey := WriteKeys(defs, rows1, keys, records, blength, pos, record, bag);
      if errkey.Some? {
        DoubledAll(defs, rows1, keys, errkey.value + 1, records, blength, bag + multiset{pos});
        keys := UndoKeys(defs, rows1, keys, records, blength, pos, errkey.value + 1, bag);
      }
    }

    /** The rest of heap_write for the row at `pos`. */
    method WriteAt(pos: RecPtr, record: Record) returns (errkey: Option<nat>)
      requires pos <= |rows| && Claimed(Put(rows, pos, Live(record)), pos, record)
      requires AllIndex(defs, rows, keys, 0, |defs|, records, blength, multiset(LiveRows(rows)))
      modifies this
      ensures Valid()
      ensures NoneDuplicate(defs, old(Contents(rows)), record, if errkey.Some? then errkey.value else |defs|)
      ensures errkey.Some? ==>
                && errkey.value < |defs| && Duplicate(defs[errkey.value], old(Contents(rows)), record)
                && Contents(rows) == old(Contents(rows)) && records == old(records)
                && rows == Put(old(rows), pos, Free(old(delLink))) && HeadFreed(old(deleted), old(free), pos)
      ensures errkey.None? ==>
                && pos !in old(Contents(rows)) && Contents(rows) == old(Contents(rows))[pos := record]
                && records == old(records) + 1 && rows == Put(old(rows), pos, Live(record))
                && delLink == old(delLink) && free == old(free) && deleted == old(deleted)
    {
      var rows1 := Put(rows, pos, Live(record));
      errkey := WriteAll(rows1, pos, record);
      ClashesAreDuplicates(defs, rows, rows1, pos, record, if errkey.Some? then errkey.value else |defs|);
      if errkey.None? {
        StoreRow(rows1, pos, record);
      } else {
        ClashIsDuplicate(defs[errkey.value], rows, rows1, pos, record);
        FreeRow(rows1, pos, record);
      }
    }

    /**
     heap_write: the record is in the table exactly if no key has it as a duplicate and there was room for the
     row; the first key with a duplicate is reported, and an error leaves the contents as they were.
     */
    method Write(record: Record, tooLong: bool, noMemory: bool) returns (r: WriteResult)
      requires Valid()
      modifies this
      ensures Valid()
      ensures r == FileFull <==> old(NeedsBlock()) && ((old(records) > maxRecords && maxRecords != 0) || tooLong)
      ensures r == OutOfMemory <==> old(NeedsBlock()) && r != FileFull && noMemory
      ensures r.DuplicateKey? ==>
                && r.errkey < |defs| && Duplicate(defs[r.errkey], old(Contents(rows)), record)
                && NoneDuplicate(defs, old(Contents(rows)), record, r.errkey)
      ensures r.Written? ==>
                && NoneDuplicate(defs, old(Contents(rows)), record, |defs|) && r.pos !in old(Contents(rows))
                && Contents(rows) == old(Contents(rows))[r.pos := record] && records == old(records) + 1
      ensures !r.Written? ==> Contents(rows) == old(Contents(rows)) && records == old(records)
      ensures r.Written? && old(delLink).Some? ==>
                && r.pos == old(delLink).value == old(free)[0] < |rows| && rows == old(rows)[r.pos := Live(record)]
                && free == old(free)[1..] && deleted + 1 == old(deleted)
      ensures r.Written? && old(delLink).None? ==>
                r.pos == old(|rows|) && rows == old(rows) + [Live(record)] && free == [] && deleted == 0
      ensures r.DuplicateKey? ==>
                free == if old(free) == [] then [old(|rows|)] else old(free)
      ensures r.FileFull? || r.OutOfMemory? ==> unchanged(this)
    {
      r := NextFreePos(record, tooLong, noMemory);
      if r.Written? {
        var errkey := WriteAt(r.pos, record);
        if errkey.Some? {
          r := DuplicateKey(errkey.value);
        }
      }
    }

    /**
     heap_delete of the row at `pos`; false is HA_ERR_CRASHED, when a key does not have that row.
     Then `records` and `blength` are set back and nothing has changed.
     */
    method Delete(pos: RecPtr) returns (ok: bool)
      requires Valid() && records >= 1 && (defs == [] ==> pos in Contents(rows))
      modifies this
      ensures Valid() && (ok <==> pos in old(Contents(rows)))
      ensures ok ==> Contents(rows) == old(Contents(rows)) - {pos} && records + 1 == old(records)
      ensures ok ==> rows == old(rows)[pos := Free(old(delLink))] && HeadFreed(old(deleted), old(free), pos)
      ensures !ok ==> unchanged(this)
    {
      ghost var bag := multiset(LiveRows(rows));
      LengthRoundTrip(records, blength);
      records := records - 1;
      if records < blength / 2 {
        blength := blength / 2;
      }
      keys, ok := DeleteKeys(defs, rows, keys, records, blength, pos, bag);
      if !ok {
        records := records + 1;
        if records == blength {
          blength := blength + blength;
        }
        return;
      }
      assert pos in LiveRows(rows);
      Dropped(defs, rows, delLink, free, keys, records, deleted, blength, pos);
      rows := rows[pos := Free(delLink)];
      delLink := Some(pos);
      deleted := deleted + 1;
      free := [pos] + free;
    }

    /**
     heap_check_heap: 0 if all keys and row counters are in order, 1 if not, nothing if the check of
     a key has no verdict.
     */
    method Check(fuel: nat) returns (r: Option<int>)
      requires recordsInBlock >= 1 && records + deleted <= |rows| && |keys| == |defs| && blength >= 1 && records <= fuel
      requires forall i | 0 <= i < |keys| :: records <= |keys[i].slots|
      ensures Sound(defs, rows, keys, records, deleted, blength) == (AllLinksInUse(keys, records) && r == Some(0))
      ensures Verdict(defs, rows, keys, records, deleted, blength, fuel, r)
    {
      r := CheckTable(defs, rows, keys, records, deleted, blength, recordsInBlock, fuel);
      SoundExactly(defs, rows, keys, records, deleted, blength, fuel, r);
    }
  }
}
