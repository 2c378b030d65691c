/**
 A HEAP table: rows in a growing array, a free list threaded through the deleted rows, and hash
 indexes.  heap_write and heap_delete keep the table invariant, also when a write is
 undone because of a duplicate key.
 */
module HeapTable {
  import opened Wrappers
  import opened HashChains
  import opened HashIndex
  import opened HashWrite
  import opened CheckKey

  type Record = seq<bv8>

  /**
   Key definition: the key part of a record, its hash number, and the key values that may occur only
   once (all but NULL for a unique key, none for another key).
   */
  datatype KeyDef = KeyDef(part: Record -> seq<bv8>, hash: seq<bv8> -> nat, unique: seq<bv8> -> bool)

  /** A row; in a deleted one the link of the free list overwrites the data. */
  datatype Row = Live(data: Record) | Free(next: Option<RecPtr>)

  /** hp_rec_hashnr on the row at an address. */
  function Hash(d: KeyDef, rows: seq<Row>): RecPtr -> nat {
    (x: RecPtr) => RowHash(d, rows, x)
  }

  function RowHash(d: KeyDef, rows: seq<Row>, x: RecPtr): nat {
    if x < |rows| && rows[x].Live? then d.hash(d.part(rows[x].data)) else 0
  }

  /** hp_rec_key_cmp of the row at an address with `record`. */
  function SameKey(d: KeyDef, rows: seq<Row>, record: Record): RecPtr -> bool {
    (x: RecPtr) => x < |rows| && rows[x].Live? && d.part(rows[x].data) == d.part(record)
  }

  ghost function LiveRows(rows: seq<Row>): (r: set<nat>)
    ensures forall x: nat :: x in r <==> x < |rows| && rows[x].Live?
  {
    set x: nat | x < |rows| && rows[x].Live?
  }

  // ---------------------------------------------------------------- invariant

  /** The links from `link` on run through the deleted rows `free`. */
  ghost predicate FreeList(rows: seq<Row>, link: Option<RecPtr>, free: seq<nat>)
    decreases |free|
  {
    if free == [] then link.None?
    else
      && link == Some(free[0]) && free[0] < |rows| && rows[free[0]].Free?
      && FreeList(rows, rows[free[0]].next, free[1..])
  }

  ghost predicate RowsOk(rows: seq<Row>, link: Option<RecPtr>, free: seq<nat>, records: nat, deleted: nat) {
    && |rows| == records + deleted && |free| == deleted
    && Distinct(free) && FreeList(rows, link, free)
    && forall x: nat | x < |rows| :: rows[x].Free? <==> x in free
  }

  ghost predicate NoDuplicates(d: KeyDef, rows: seq<Row>) {
    forall x, y | 0 <= x < y < |rows| && rows[x].Live? && rows[y].Live? && d.unique(d.part(rows[x].data)) ::
      d.part(rows[x].data) != d.part(rows[y].data)
  }

  // ---------------------------------------------------------------- rows

  lemma {:induction false} FreeFrame(rows: seq<Row>, rows': seq<Row>, link: Option<RecPtr>, free: seq<nat>)
    requires FreeList(rows, link, free) && |rows| <= |rows'|
    requires forall x | x in free && x < |rows| :: rows'[x] == rows[x]
    ensures FreeList(rows', link, free)
    decreases |free|
  {
    if free != [] {
      FreeFrame(rows, rows', rows[free[0]].next, free[1..]);
    }
  }

  lemma {:induction false} FreeInRange(rows: seq<Row>, link: Option<RecPtr>, free: seq<nat>)
    requires FreeList(rows, link, free)
    ensures forall x | x in free :: x < |rows| && rows[x].Free?
    decreases |free|
  {
    if free != [] {
      FreeInRange(rows, rows[free[0]].next, free[1..]);
    }
  }

  /** The row at `pos` becomes `row`; `pos` may be the first unused position. */
  function Put(rows: seq<Row>, pos: nat, row: Row): seq<Row>
    requires pos <= |rows|
  {
    if pos < |rows| then rows[pos := row] else rows + [row]
  }

  /** A position is taken for use: from the free list, or else at the end. */
  lemma Taken(rows: seq<Row>, link: Option<RecPtr>, free: seq<nat>, records: nat, deleted: nat, record: Record)
    requires RowsOk(rows, link, free, records, deleted)
    ensures link.Some? ==> link.value < |rows| && rows[link.value].Free? && deleted > 0
    ensures link.Some? ==>
              RowsOk(rows[link.value := Live(record)], rows[link.value].next, free[1..], records + 1, deleted - 1)
    ensures link.None? ==> deleted == 0 && RowsOk(rows + [Live(record)], None, [], records + 1, 0)
  {
    FreeInRange(rows, link, free);
    if link.Some? {
      var rest := free[1..];
      assert free == [free[0]] + rest;
      FreeFrame(rows, rows[free[0] := Live(record)], rows[free[0]].next, rest);
    }
  }

  /** A row goes to the free list. */
  lemma Freed(rows: seq<Row>, link: Option<RecPtr>, free: seq<nat>, records: nat, deleted: nat, pos: nat)
    requires RowsOk(rows, link, free, records, deleted) && pos < |rows| && rows[pos].Live?
    ensures records > 0 && RowsOk(rows[pos := Free(link)], Some(pos), [pos] + free, records - 1, deleted + 1)
  {
    FreeInRange(rows, link, free);
    assert ([pos] + free)[1..] == free;
    FreeFrame(rows, rows[pos := Free(link)], link, free);
    FewerFree([pos] + free, |rows|);
  }

  lemma FewerFree(free: seq<nat>, n: nat)
    requires Distinct(free) && forall x | x in free :: x < n
    ensures |free| <= n
  {
    DistinctSize(free);
    UptoSize(n);
    SubsetSize(Members(free), Upto(n));
  }

  // ---------------------------------------------------------------- indexes when rows change

  /** The same addresses for the records in the first `n` slots. */
  ghost predicate Agree(a: RecPtr -> nat, a': RecPtr -> nat, s: seq<HashInfo>, n: nat) {
    n <= |s| && forall i | 0 <= i < n :: a(s[i].rec) == a'(s[i].rec)
  }

  /** Only the records in the slots in use matter for an index. */
  lemma SameAddresses(a: RecPtr -> nat, a': RecPtr -> nat, k: Key, n: nat)
    ensures Agree(a, a', k.slots, n) ==> ValidFor(a, k, n) == ValidFor(a', k, n)
  {
    if Agree(a, a', k.slots, n) {
      if ValidFor(a, k, n) {
        MoveAddresses(a, a', k, n);
      }
      if ValidFor(a', k, n) {
        MoveAddresses(a', a, k, n);
      }
    }
  }

  lemma MoveAddresses(a: RecPtr -> nat, a': RecPtr -> nat, k: Key, n: nat)
    requires ValidFor(a, k, n) && Agree(a, a', k.slots, n)
    ensures ValidFor(a', k, n)
  {
    var s := k.slots;
    var hm, hm' := Homes(a, s), Homes(a', s);
    var rank, prev :| ValidBy(a, k, n, rank, prev);
    forall i | i in Upto(n)
      ensures SlotOk(s, hm', Upto(n), rank, prev, i)
    {
      assert SlotOk(s, hm, Upto(n), rank, prev, i);
    }
    assert Heads(hm, Upto(n)) == Heads(hm', Upto(n));
    assert ValidBy(a', k, n, rank, prev);
  }

  lemma SameHash(h: RecPtr -> nat, h': RecPtr -> nat, b: nat, n: nat, x: RecPtr)
    requires h(x) == h'(x)
    ensures Address(h, b, n)(x) == Address(h', b, n)(x)
  {
  }

  lemma SameHashes(h: RecPtr -> nat, h': RecPtr -> nat, b: nat, n: nat, s: seq<HashInfo>)
    requires n <= |s| && forall i | 0 <= i < n :: h(s[i].rec) == h'(s[i].rec)
    ensures Agree(Address(h, b, n), Address(h', b, n), s, n)
  {
    forall i | 0 <= i < n
      ensures Address(h, b, n)(s[i].rec) == Address(h', b, n)(s[i].rec)
    {
      SameHash(h, h', b, n, s[i].rec);
    }
  }

  lemma SameDouble(h: RecPtr -> nat, b: nat, x: RecPtr)
    requires Pow2(b)
    ensures Address(h, b, b)(x) == Address(h, b + b, b)(x)
  {
    MaskDouble(h(x), b);
    assert b + b == 2 * b;
  }

  lemma SameDoubled(h: RecPtr -> nat, b: nat, s: seq<HashInfo>)
    requires Pow2(b) && b <= |s|
    ensures Agree(Address(h, b, b), Address(h, b + b, b), s, b)
  {
    forall i | 0 <= i < b
      ensures Address(h, b, b)(s[i].rec) == Address(h, b + b, b)(s[i].rec)
    {
      SameDouble(h, b, s[i].rec);
    }
  }

  lemma ValidFrame(h: RecPtr -> nat, h': RecPtr -> nat, k: Key, n: nat, b: nat)
    requires n <= |k.slots| && forall i | 0 <= i < n :: h(k.slots[i].rec) == h'(k.slots[i].rec)
    ensures Valid(h, k, n, b) == Valid(h', k, n, b)
  {
    SameHashes(h, h', b, n, k.slots);
    SameAddresses(Address(h, b, n), Address(h', b, n), k, n);
  }

  /** An index survives changes to rows it does not refer to. */
  lemma IndexFrame(d: KeyDef, rows: seq<Row>, rows': seq<Row>, k: Key, n: nat, b: nat)
    requires n <= |k.slots|
    requires forall i | 0 <= i < n :: var x := k.slots[i].rec; x < |rows| && x < |rows'| && rows'[x] == rows[x]
    ensures Valid(Hash(d, rows), k, n, b) == Valid(Hash(d, rows'), k, n, b)
  {
    ValidFrame(Hash(d, rows), Hash(d, rows'), k, n, b);
  }

  /** heap_write's doubling of `blength` does not disturb an index. */
  lemma Doubled(h: RecPtr -> nat, k: Key, n: nat, b: nat)
    requires Pow2(b)
    ensures Valid(h, k, n + 1, b) == Valid(h, k, n + 1, Recovered(n, b))
  {
    if n + 1 == b <= |k.slots| {
      SameDoubled(h, b, k.slots);
      SameAddresses(Address(h, b, b), Address(h, b + b, b), k, b);
    }
  }

  lemma OneMoreLive(rows: seq<Row>, rows': seq<Row>, pos: nat)
    requires OnePut(rows, rows', pos) && rows'[pos].Live?
    ensures multiset(LiveRows(rows')) == multiset(LiveRows(rows)) + multiset{pos}
  {
    assert LiveRows(rows') == LiveRows(rows) + {pos};
  }

  // ---------------------------------------------------------------- all indexes at once

  /** A sound index of the records in `bag`. */
  ghost predicate Indexes(d: KeyDef, rows: seq<Row>, k: Key, n: nat, b: nat, bag: multiset<RecPtr>) {
    Valid(Hash(d, rows), k, n, b) && multiset(Recs(k.slots, n)) == bag
  }

  /** The keys from `lo` to `hi` index the records in `bag`. */
  ghost predicate AllIndex(defs: seq<KeyDef>, rows: seq<Row>, keys: seq<Key>, lo: nat, hi: nat, n: nat, b: nat,
                           bag: multiset<RecPtr>)
  {
    && |keys| == |defs| && lo <= hi <= |keys|
    && forall j {:trigger Indexes(defs[j], rows, keys[j], n, b, bag)} | lo <= j < hi ::
       Indexes(defs[j], rows, keys[j], n, b, bag)
  }

  /** One of the records in `bag` has the key of `record`, and that key is unique. */
  ghost predicate Clashes(d: KeyDef, rows: seq<Row>, bag: multiset<RecPtr>, record: Record) {
    d.unique(d.part(record)) && exists x :: EqualIn(d, rows, bag, record, x)
  }

  ghost predicate EqualIn(d: KeyDef, rows: seq<Row>, bag: multiset<RecPtr>, record: Record, x: RecPtr) {
    x in bag && SameKey(d, rows, record)(x)
  }

  ghost predicate NoneClash(defs: seq<KeyDef>, rows: seq<Row>, bag: multiset<RecPtr>, record: Record, hi: nat) {
    hi <= |defs| && forall j {:trigger Clashes(defs[j], rows, bag, record)} | 0 <= j < hi ::
      !Clashes(defs[j], rows, bag, record)
  }

  lemma NextClash(defs: seq<KeyDef>, rows: seq<Row>, bag: multiset<RecPtr>, record: Record, i: nat)
    requires i < |defs|
    ensures NoneClash(defs, rows, bag, record, i + 1) ==
            (NoneClash(defs, rows, bag, record, i) && !Clashes(defs[i], rows, bag, record))
  {
  }

  lemma SetKey(defs: seq<KeyDef>, rows: seq<Row>, keys: seq<Key>, i: nat, k: Key, lo: nat, hi: nat, n: nat, b: nat,
               bag: multiset<RecPtr>)
    requires i < |keys| && i < |defs|
    ensures AllIndex(defs, rows, keys, lo, hi, n, b, bag) && (i < lo || hi <= i) ==>
            AllIndex(defs, rows, keys[i := k], lo, hi, n, b, bag)
    ensures AllIndex(defs, rows, keys, lo, i, n, b, bag) && Indexes(defs[i], rows, k, n, b, bag) ==>
              AllIndex(defs, rows, keys[i := k], lo, i + 1, n, b, bag)
    ensures AllIndex(defs, rows, keys, i + 1, hi, n, b, bag) && Indexes(defs[i], rows, k, n, b, bag) ==>
              AllIndex(defs, rows, keys[i := k], i, hi, n, b, bag)
  {
  }

  lemma AtKey(defs: seq<KeyDef>, rows: seq<Row>, keys: seq<Key>, i: nat, lo: nat, hi: nat, n: nat, b: nat,
              bag: multiset<RecPtr>)
    requires AllIndex(defs, rows, keys, lo, hi, n, b, bag) && lo <= i < hi
    ensures Indexes(defs[i], rows, keys[i], n, b, bag)
    ensures AllIndex(defs, rows, keys, lo, i, n, b, bag) && AllIndex(defs, rows, keys, i + 1, hi, n, b, bag)
  {
  }

  method WriteOne(d: KeyDef, rows: seq<Row>, k: Key, records: nat, blength: nat, pos: RecPtr, record: Record,
                  ghost bag: multiset<RecPtr>)
    returns (k': Key, dup: bool)
    requires GoodLength(records, blength) && pos < |rows| && rows[pos] == Live(record)
    requires Indexes(d, rows, k, records, blength, bag)
    ensures Indexes(d, rows, k', records + 1, blength, bag + multiset{pos}) && dup == Clashes(d, rows, bag, record)
  {
    k', dup := WriteKey(Hash(d, rows), k, records, blength, pos, d.unique(d.part(record)), SameKey(d, rows, record));
    ghost var recs := Recs(k.slots, records);
    forall x: RecPtr
      ensures EqualIn(d, rows, bag, record, x) == (x in recs && SameKey(d, rows, record)(x))
    {
      assert x in recs <==> x in multiset(recs);
    }
  }

  /** The first `i` keys have the record at `pos`, the others do not. */
  ghost predicate Midway(defs: seq<KeyDef>, rows: seq<Row>, keys: seq<Key>, i: nat, records: nat, blength: nat,
                         pos: RecPtr, bag: multiset<RecPtr>)
  {
    && AllIndex(defs, rows, keys, 0, i, records + 1, blength, bag + multiset{pos})
    && AllIndex(defs, rows, keys, i, |defs|, records, blength, bag)
  }

  lemma Forward(defs: seq<KeyDef>, rows: seq<Row>, keys: seq<Key>, i: nat, k: Key, records: nat, blength: nat,
                pos: RecPtr, bag: multiset<RecPtr>)
    requires i < |defs| && Midway(defs, rows, keys, i, records, blength, pos, bag)
    requires Indexes(defs[i], rows, k, records + 1, blength, bag + multiset{pos})
    ensures Midway(defs, rows, keys[i := k], i + 1, records, blength, pos, bag)
  {
    AtKey(defs, rows, keys, i, i, |defs|, records, blength, bag);
    SetKey(defs, rows, keys, i, k, 0, i, records + 1, blength, bag + multiset{pos});
    SetKey(defs, rows, keys, i, k, i + 1, |defs|, records, blength, bag);
  }

  /** One round of the loop: key `i` gets the record. */
  method WriteRound(defs: seq<KeyDef>, rows: seq<Row>, keys: seq<Key>, i: nat, records: nat, blength: nat, pos: RecPtr,
                    record: Record, ghost bag: multiset<RecPtr>)
    returns (keys': seq<Key>, dup: bool)
    requires GoodLength(records, blength) && pos < |rows| && rows[pos] == Live(record)
    requires i < |defs| && Midway(defs, rows, keys, i, records, blength, pos, bag)
    ensures Midway(defs, rows, keys', i + 1, records, blength, pos, bag)
    ensures dup == Clashes(defs[i], rows, bag, record)
  {
    AtKey(defs, rows, keys, i, i, |defs|, records, blength, bag);
    var k;
    k, dup := WriteOne(defs[i], rows, keys[i], records, blength, pos, record, bag);
    Forward(defs, rows, keys, i, k, records, blength, pos, bag);
    keys' := keys[i := k];
  }

  /**
   The loop of heap_write over the keys.  `rows` already has the new record at `pos`: hp_write_key
   hashes and compares that record itself, never the memory of the row.
   */
  method WriteKeys(defs: seq<KeyDef>, rows: seq<Row>, keys0: seq<Key>, records: nat, blength: nat, pos: RecPtr,
                   record: Record, ghost bag: multiset<RecPtr>)
    returns (keys: seq<Key>, errkey: Option<nat>)
    requires GoodLength(records, blength) && pos < |rows| && rows[pos] == Live(record)
    requires AllIndex(defs, rows, keys0, 0, |defs|, records, blength, bag)
    ensures errkey.Some? ==> errkey.value < |defs| && Clashes(defs[errkey.value], rows, bag, record)
    ensures NoneClash(defs, rows, bag, record, if errkey.Some? then errkey.value else |defs|)
    ensures Midway(defs, rows, keys, if errkey.Some? then errkey.value + 1 else |defs|, records, blength, pos, bag)
  {
    keys := keys0;
    var dup;
    for i := 0 to |defs|
      invariant NoneClash(defs, rows, bag, record, i)
      invariant Midway(defs, rows, keys, i, records, blength, pos, bag)
    {
      keys, dup := WriteRound(defs, rows, keys, i, records, blength, pos, record, bag);
      NextClash(defs, rows, bag, record, i);
      if dup {
        return keys, Some(i);
      }
    }
    errkey := None;
  }

  method DeleteOne(d: KeyDef, rows: seq<Row>, k: Key, records: nat, blength: nat, pos: RecPtr,
                   ghost bag: multiset<RecPtr>)
    returns (found: bool, k': Key)
    requires GoodLength(records, blength) && Indexes(d, rows, k, records + 1, Recovered(records, blength), bag)
    ensures found == (pos in bag)
    ensures found ==> Indexes(d, rows, k', records, blength, bag - multiset{pos})
  {
    var r;
    r, k' := DeleteKey(Hash(d, rows), k, records, blength, pos);
    found := r.Deleted?;
    ghost var recs := Recs(k.slots, records + 1);
    assert pos in recs <==> pos in multiset(recs);
  }

  /** The loop of heap_delete over the keys; stops at the first key that does not have the record. */
  method DeleteKeys(defs: seq<KeyDef>, rows: seq<Row>, keys0: seq<Key>, records: nat, blength: nat, pos: RecPtr,
                    ghost bag: multiset<RecPtr>)
    returns (keys: seq<Key>, ok: bool)
    requires GoodLength(records, blength)
    requires AllIndex(defs, rows, keys0, 0, |defs|, records + 1, Recovered(records, blength), bag)
    ensures ok <==> pos in bag || keys0 == []
    ensures if ok then AllIndex(defs, rows, keys, 0, |defs|, records, blength, bag - multiset{pos}) else keys == keys0
  {
    keys := keys0;
    ghost var less, b := bag - multiset{pos}, Recovered(records, blength);
    for i := 0 to |defs|
      invariant if i > 0 then pos in bag else keys == keys0
      invariant AllIndex(defs, rows, keys, 0, i, records, blength, less)
      invariant AllIndex(defs, rows, keys, i, |defs|, records + 1, b, bag)
    {
      AtKey(defs, rows, keys, i, i, |defs|, records + 1, b, bag);
      var found, k := DeleteOne(defs[i], rows, keys[i], records, blength, pos, bag);
      if !found {
        return keys, false;
      }
      SetKey(defs, rows, keys, i, k, 0, i, records, blength, less);
      SetKey(defs, rows, keys, i, k, i + 1, |defs|, records + 1, b, bag);
      keys := keys[i := k];
    }
    ok := true;
  }

  /** The error path of heap_write: takes `pos` out of the first `done` keys again, last one first. */
  method UndoKeys(defs: seq<KeyDef>, rows: seq<Row>, keys0: seq<Key>, records: nat, blength: nat, pos: RecPtr,
                  done: nat, ghost bag: multiset<RecPtr>)
    returns (keys: seq<Key>)
    requires GoodLength(records, blength)
    requires AllIndex(defs, rows, keys0, 0, done, records + 1, Recovered(records, blength), bag + multiset{pos})
    requires AllIndex(defs, rows, keys0, done, |defs|, records, blength, bag)
    ensures AllIndex(defs, rows, keys, 0, |defs|, records, blength, bag)
  {
    keys := keys0;
    ghost var more, b := bag + multiset{pos}, Recovered(records, blength);
    assert more - multiset{pos} == bag;
    for i := done downto 0
      invariant AllIndex(defs, rows, keys, i, |defs|, records, blength, bag)
      invariant AllIndex(defs, rows, keys, 0, i, records + 1, b, more)
    {
      AtKey(defs, rows, keys, i, 0, i + 1, records + 1, b, more);
      var found, k := DeleteOne(defs[i], rows, keys[i], records, blength, pos, more);
      if !found {
        break;
      }
      SetKey(defs, rows, keys, i, k, 0, i, records + 1, b, more);
      SetKey(defs, rows, keys, i, k, 0, |defs|, records, blength, bag);
      keys := keys[i := k];
    }
  }

  // ---------------------------------------------------------------- the table

  ghost predicate TableOk(defs: seq<KeyDef>, rows: seq<Row>, link: Option<RecPtr>, free: seq<nat>, keys: seq<Key>,
                          records: nat, deleted: nat, blength: nat)
  {
    && GoodLength(records, blength) && RowsOk(rows, link, free, records, deleted)
    && AllIndex(defs, rows, keys, 0, |defs|, records, blength, multiset(LiveRows(rows)))
    && AllUnique(defs, rows)
  }

  ghost predicate AllUnique(defs: seq<KeyDef>, rows: seq<Row>) {
    forall i | 0 <= i < |defs| :: NoDuplicates(defs[i], rows)
  }

  /** The rows of the table by position. */
  ghost function Contents(rows: seq<Row>): (m: map<nat, Record>)
    ensures forall x: nat :: x in m <==> x < |rows| && rows[x].Live?
    ensures forall x | x in m :: m[x] == rows[x].data
  {
    map x | x in LiveRows(rows) :: rows[x].data
  }

  /** A row has the key of `record`, and that key is unique. */
  ghost predicate Duplicate(d: KeyDef, contents: map<nat, Record>, record: Record) {
    d.unique(d.part(record)) && exists x :: EqualAt(d, contents, record, x)
  }

  ghost predicate EqualAt(d: KeyDef, contents: map<nat, Record>, record: Record, x: nat) {
    x in contents && d.part(contents[x]) == d.part(record)
  }

  lemma ClashIsDuplicate(d: KeyDef, rows: seq<Row>, rows': seq<Row>, pos: nat, record: Record)
    requires OnePut(rows, rows', pos)
    ensures Clashes(d, rows', multiset(LiveRows(rows)), record) == Duplicate(d, Contents(rows), record)
  {
    forall x: RecPtr
      ensures EqualIn(d, rows', multiset(LiveRows(rows)), record, x) == EqualAt(d, Contents(rows), record, x)
    {
    }
  }

  /** Only the row `pos` differs; before it was free or did not exist. */
  ghost predicate OnePut(rows: seq<Row>, rows': seq<Row>, pos: nat) {
    && |rows| <= |rows'| && pos < |rows'| && (pos < |rows| ==> rows[pos].Free?)
    && forall x: nat | x < |rows'| && x != pos :: x < |rows| && rows'[x] == rows[x]
  }

  /** The rows in `bag` are the same. */
  ghost predicate SameRows(rows: seq<Row>, rows': seq<Row>, bag: multiset<RecPtr>) {
    forall x | x in bag :: x < |rows| && x < |rows'| && rows'[x] == rows[x]
  }

  lemma FrameOne(d: KeyDef, rows: seq<Row>, rows': seq<Row>, k: Key, n: nat, b: nat, bag: multiset<RecPtr>)
    requires SameRows(rows, rows', bag)
    ensures Indexes(d, rows, k, n, b, bag) ==> Indexes(d, rows', k, n, b, bag)
  {
    if Indexes(d, rows, k, n, b, bag) {
      forall i | 0 <= i < n
        ensures k.slots[i].rec in bag
      {
        assert Recs(k.slots, n)[i] in multiset(Recs(k.slots, n));
      }
      IndexFrame(d, rows, rows', k, n, b);
    }
  }

  lemma FrameAll(defs: seq<KeyDef>, rows: seq<Row>, rows': seq<Row>, keys: seq<Key>, n: nat, b: nat,
                 bag: multiset<RecPtr>)
    requires AllIndex(defs, rows, keys, 0, |defs|, n, b, bag) && SameRows(rows, rows', bag)
    ensures AllIndex(defs, rows', keys, 0, |defs|, n, b, bag)
  {
    forall j | 0 <= j < |defs|
      ensures Indexes(defs[j], rows', keys[j], n, b, bag)
    {
      assert Indexes(defs[j], rows, keys[j], n, b, bag);
      FrameOne(defs[j], rows, rows', keys[j], n, b, bag);
    }
  }

  lemma DoubledAll(defs: seq<KeyDef>, rows: seq<Row>, keys: seq<Key>, hi: nat, n: nat, b: nat, bag: multiset<RecPtr>)
    requires AllIndex(defs, rows, keys, 0, hi, n + 1, b, bag) && Pow2(b)
    ensures AllIndex(defs, rows, keys, 0, hi, n + 1, Recovered(n, b), bag)
  {
    forall j | 0 <= j < hi
      ensures Indexes(defs[j], rows, keys[j], n + 1, Recovered(n, b), bag)
    {
      assert Indexes(defs[j], rows, keys[j], n + 1, b, bag);
      Doubled(Hash(defs[j], rows), keys[j], n, b);
    }
  }

  lemma UniqueAfter(d: KeyDef, rows: seq<Row>, rows': seq<Row>, pos: nat, record: Record)
    requires NoDuplicates(d, rows) && OnePut(rows, rows', pos) && rows'[pos] == Live(record)
    requires !Duplicate(d, Contents(rows), record)
    ensures NoDuplicates(d, rows')
  {
    forall x, y | 0 <= x < y < |rows'| && rows'[x].Live? && rows'[y].Live? && d.unique(d.part(rows'[x].data))
      ensures d.part(rows'[x].data) != d.part(rows'[y].data)
    {
      if x == pos {
        assert !EqualAt(d, Contents(rows), record, y);
      } else if y == pos {
        assert !EqualAt(d, Contents(rows), record, x);
      }
    }
  }
}
