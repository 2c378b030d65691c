/** Search and hp_delete_key on one hash key of a HEAP table. */
module HashIndex {
  import opened Wrappers
  import opened HashChains

  /** The hash part of HP_KEYDEF: the slot array and the number of used buckets. */
  datatype Key = Key(slots: seq<HashInfo>, hashBuckets: int)

  ghost function Upto(n: nat): (r: set<nat>)
    ensures forall i: nat :: i in r <==> i < n
  {
    if n == 0 then {} else Upto(n - 1) + {n - 1}
  }

  /** The first `n` slots form a correct index for `blength` b. */
  ghost predicate Valid(h: RecPtr -> nat, k: Key, n: nat, b: nat) {
    && n <= |k.slots|
    && (n == 0 ==> k.hashBuckets == 0)
    && (n > 0 ==> b >= 1 && ValidFor(Address(h, b, n), k, n))
  }

  /** The first `n` slots form a correct index for the address function `a`. */
  ghost predicate ValidFor(a: RecPtr -> nat, k: Key, n: nat) {
    n <= |k.slots| && exists rank, prev :: ValidBy(a, k, n, rank, prev)
  }

  ghost predicate ValidBy(a: RecPtr -> nat, k: Key, n: nat, rank: seq<nat>, prev: seq<nat>) {
    var hm := Homes(a, k.slots);
    Chained(k.slots, hm, Upto(n), rank, prev) && k.hashBuckets == |Heads(hm, Upto(n))|
  }

  /** The records in the first `n` slots. */
  ghost function Recs(s: seq<HashInfo>, n: nat): (r: seq<RecPtr>)
    requires n <= |s|
    ensures |r| == n && forall i | 0 <= i < n :: r[i] == s[i].rec
  {
    seq<nat>(n, i requires 0 <= i < n => s[i].rec)
  }

  // ---------------------------------------------------------------- blength

  /** hp_delete_key works out the `blength` from before the delete. */
  function Recovered(records: nat, blength: nat): nat {
    if records + 1 == blength then blength + blength else blength
  }

  lemma RecoversLength(records: nat, blength: nat)
    requires GoodLength(records, blength)
    ensures GoodLength(records + 1, Recovered(records, blength))
    ensures Shrunk(records + 1, Recovered(records, blength)) == blength
  {
    assert Pow2(blength + blength);
  }

  /** heap_delete's adjustment and the one in hp_delete_key undo each other. */
  lemma LengthRoundTrip(n: nat, b: nat)
    requires n >= 1 && GoodLength(n, b)
    ensures GoodLength(n - 1, Shrunk(n, b)) && Recovered(n - 1, Shrunk(n, b)) == b
  {
  }

  // ---------------------------------------------------------------- walking a chain

  /** `path` follows links from its first slot to its last. */
  ghost predicate IsPath(s: seq<HashInfo>, path: seq<nat>) {
    && path != []
    && (forall k | 0 <= k < |path| :: path[k] < |s|)
    && forall k | 0 <= k < |path| - 1 :: s[path[k]].next == Some(path[k + 1])
  }

  /** Every live slot is reached from the slot at its own address. */
  lemma {:induction false} PathFromHead(s: seq<HashInfo>, hm: seq<nat>, live: set<nat>, rank: seq<nat>, prev: seq<nat>,
                                        i: nat)
    returns (path: seq<nat>)
    requires Chained(s, hm, live, rank, prev) && i in live
    ensures IsPath(s, path) && path[0] == hm[i] && path[|path| - 1] == i
    ensures forall k | 0 <= k < |path| :: path[k] in live && hm[path[k]] == hm[i] && rank[path[k]] <= rank[i]
    ensures forall k | 0 <= k < |path| - 1 :: rank[path[k]] < rank[i]
    decreases rank[i]
  {
    assert SlotOk(s, hm, live, rank, prev, i);
    if i == hm[i] {
      path := [i];
    } else {
      assert SlotOk(s, hm, live, rank, prev, prev[i]);
      var p := PathFromHead(s, hm, live, rank, prev, prev[i]);
      path := p + [i];
    }
  }

  /** hp_movelink: follow links from `start` to the entry that links to `pos`; let it link to `newLink`. */
  method MoveLink(s: seq<HashInfo>, pos: Option<nat>, start: nat, newLink: Option<nat>, ghost path: seq<nat>)
    returns (s': seq<HashInfo>)
    requires IsPath(s, path) && path[0] == start && s[path[|path| - 1]].next == pos
    requires forall k | 0 < k < |path| :: Some(path[k]) != pos
    ensures s' == s[path[|path| - 1] := s[path[|path| - 1]].(next := newLink)]
  {
    var oldLink, nextLink := start, s[start].next;
    ghost var k := 0;
    while nextLink != pos
      invariant 0 <= k < |path| && oldLink == path[k] && nextLink == s[oldLink].next
      invariant k < |path| - 1 ==> nextLink == Some(path[k + 1])
      decreases |path| - k
    {
      k := k + 1;
      oldLink := nextLink.value;
      nextLink := s[oldLink].next;
    }
    s' := s[oldLink := s[oldLink].(next := newLink)];
  }

  datatype Found = NotFound | At(pos: nat, before: Option<nat>)

  /** If the record is indexed, the links from `start` lead to it. */
  lemma PathToRecord(s: seq<HashInfo>, n: nat, start: nat, recpos: RecPtr, hm: seq<nat>, rank: seq<nat>, prev: seq<nat>)
    returns (path: seq<nat>)
    requires start < n <= |s| && Chained(s, hm, Upto(n), rank, prev)
    requires forall x | 0 <= x < n && s[x].rec == recpos :: hm[x] == start
    ensures IsPath(s, path) && path[0] == start
    ensures (exists x :: 0 <= x < n && s[x].rec == recpos) ==> s[path[|path| - 1]].rec == recpos
  {
    if x :| 0 <= x < n && s[x].rec == recpos {
      path := PathFromHead(s, hm, Upto(n), rank, prev, x);
    } else {
      path := [start];
    }
  }

  /** The search loop of hp_delete_key: from `start` along the links. */
  method Find(s: seq<HashInfo>, n: nat, start: nat, recpos: RecPtr,
              ghost hm: seq<nat>, ghost rank: seq<nat>, ghost prev: seq<nat>) returns (r: Found)
    requires start < n <= |s| && Chained(s, hm, Upto(n), rank, prev)
    requires forall x | 0 <= x < n && s[x].rec == recpos :: hm[x] == start
    ensures r.NotFound? <==> forall x | 0 <= x < n :: s[x].rec != recpos
    ensures r.At? ==>
              && r.pos < n && s[r.pos].rec == recpos && hm[r.pos] == start
              && r.before == (if r.pos == start then None else Some(prev[r.pos]))
  {
    ghost var live := Upto(n);
    var pos, before := start, None;
    ghost var indexed := exists x :: 0 <= x < n && s[x].rec == recpos;
    ghost var path := PathToRecord(s, n, start, recpos, hm, rank, prev);
    ghost var top := HasAbove(rank);
    ghost var t := 0;
    while s[pos].rec != recpos
      invariant 0 <= pos < n && 0 <= t
      invariant before == None ==> pos == start
      invariant before.Some? ==> pos != hm[pos] && before == Some(prev[pos])
      invariant indexed ==> IsPath(s, path) && s[path[|path| - 1]].rec == recpos && t < |path| && pos == path[t]
      invariant indexed && t < |path| - 1 ==> s[pos].next == Some(path[t + 1])
      decreases top - rank[pos]
    {
      assert SlotOk(s, hm, live, rank, prev, pos);
      before := Some(pos);
      if s[pos].next.None? {
        return NotFound;
      }
      pos := s[pos].next.value;
      t := t + 1;
    }
    assert SlotOk(s, hm, live, rank, prev, pos);
    return At(pos, before);
  }

  // ---------------------------------------------------------------- moving the last slot away

  lemma {:induction false} Tail(s: seq<HashInfo>, hm: seq<nat>, live: set<nat>, rank: seq<nat>, prev: seq<nat>,
                                i: nat, top: nat) returns (z: nat)
    requires Chained(s, hm, live, rank, prev) && i in live && Above(rank, top)
    ensures z in live && hm[z] == hm[i] && s[z].next == None
    decreases top - rank[i]
  {
    assert SlotOk(s, hm, live, rank, prev, i);
    if s[i].next.None? {
      z := i;
    } else {
      z := Tail(s, hm, live, rank, prev, s[i].next.value, top);
    }
  }

  /** The entry at `x`, linked from inside its chain, moves to the free slot `e`. */
  method MoveEntry(s0: seq<HashInfo>, x: nat, head: nat, e: nat,
                   ghost hm: seq<nat>, ghost live: set<nat>, ghost rank: seq<nat>, ghost prev: seq<nat>)
    returns (s: seq<HashInfo>, ghost rank': seq<nat>, ghost prev': seq<nat>)
    requires Chained(s0, hm, live, rank, prev) && x in live && head == hm[x] && x != head
    requires e !in live && e < |s0|
    ensures Chained(s, hm[e := hm[x]], live - {x} + {e}, rank', prev')
    ensures |s| == |s0| && s[e].rec == s0[x].rec && s[x] == s0[x]
    ensures forall i | 0 <= i < |s0| && i != e :: s[i].rec == s0[i].rec
    ensures forall i | i in live && hm[i] != head :: s[i] == s0[i]
  {
    assert SlotOk(s0, hm, live, rank, prev, x);
    ghost var g := prev[x];
    assert SlotOk(s0, hm, live, rank, prev, g);
    ghost var path := PathFromHead(s0, hm, live, rank, prev, g);
    s := s0[e := s0[x]];
    assert forall k | 0 <= k < |path| :: path[k] != e && path[k] != x;
    s := MoveLink(s, Some(x), head, Some(e), path);
    MoveInner(s0, hm, live, rank, prev, x, e);
    rank', prev' := rank[e := rank[x]], Relinked(s0, prev, x, e)[e := prev[x]];
  }

  /** How the addresses change when the last address goes. */
  lemma HomesFold(a: RecPtr -> nat, a': RecPtr -> nat, s: seq<HashInfo>, l: nat, m: nat)
    requires Folds(a, a', l, m)
    ensures Homes(a', s) == Fold(Homes(a, s), l, m)
  {
  }

  /** What the relocation code computes, in terms of the old addresses: `l` is the last slot, `m` what it folds onto. */
  ghost predicate Fits(s: seq<HashInfo>, hm: seq<nat>, live: set<nat>, rank: seq<nat>, prev: seq<nat>, l: nat, m: nat,
                       e: nat)
  {
    && Chained(s, hm, live, rank, prev)
    && m < l < |s| && e < l && (forall i: nat :: i in live <==> i <= l && i != e)
  }

  /** The last entry is where it belongs: at its folded address, which is free. */
  method RelocateToFree(s0: seq<HashInfo>, l: nat, e: nat,
                        ghost hm: seq<nat>, ghost live: set<nat>, ghost rank: seq<nat>, ghost prev: seq<nat>)
    returns (s: seq<HashInfo>, ghost rank': seq<nat>, ghost prev': seq<nat>)
    requires Fits(s0, hm, live, rank, prev, l, e, e) && hm[l] == l
    ensures s == s0[e := s0[l]]
    ensures Chained(s, Fold(hm[e := hm[l]], l, e), Upto(l), rank', prev')
    ensures Heads(Fold(hm[e := hm[l]], l, e), Upto(l)) == Heads(hm, live) - {l} + {e}
  {
    MoveHead(s0, hm, live, rank, prev, l, e);
    s, rank', prev' := s0[e := s0[l]], rank[e := rank[l]], Relinked(s0, prev, l, e);
    LiveAfter(live, l, e, e);
  }

  /** The folded address is taken by an entry of another chain, which makes room. */
  method RelocateForeign(s0: seq<HashInfo>, l: nat, m: nat, head: nat, e: nat,
                         ghost hm: seq<nat>, ghost live: set<nat>, ghost rank: seq<nat>, ghost prev: seq<nat>)
    returns (s: seq<HashInfo>, ghost rank': seq<nat>, ghost prev': seq<nat>)
    requires Fits(s0, hm, live, rank, prev, l, m, e) && m != e && hm[l] == l && hm[m] == head && head != m && head != l
    ensures |s| == |s0| && s[e].rec == s0[m].rec && s[m].rec == s0[l].rec
    ensures forall i | 0 <= i < |s0| && i != e && i != m :: s[i].rec == s0[i].rec
    ensures Chained(s, Fold(hm[e := hm[m]][m := hm[l]], l, m), Upto(l), rank', prev')
    ensures Heads(Fold(hm[e := hm[m]][m := hm[l]], l, m), Upto(l)) == Heads(hm, live) - {l} + {m}
  {
    assert SlotOk(s0, hm, live, rank, prev, m);
    ghost var g := prev[m];
    assert SlotOk(s0, hm, live, rank, prev, g);
    ghost var path := PathFromHead(s0, hm, live, rank, prev, g);
    s := s0[e := s0[m]];
    s := s[m := s0[l]];
    assert forall k | 0 <= k < |path| :: path[k] != e && path[k] != m;
    s := MoveLink(s, Some(m), head, Some(e), path);
    rank', prev' := ForeignMoved(s0, l, m, e, hm, live, rank, prev, s);
  }

  lemma ForeignMoved(s0: seq<HashInfo>, l: nat, m: nat, e: nat, hm: seq<nat>, live: set<nat>, rank: seq<nat>,
                     prev: seq<nat>, s: seq<HashInfo>) returns (rank': seq<nat>, prev': seq<nat>)
    requires Fits(s0, hm, live, rank, prev, l, m, e) && m != e && hm[l] == l && hm[m] != m && hm[m] != l
    requires prev[m] < |s0| && s == s0[e := s0[m]][m := s0[l]][prev[m] := s0[prev[m]].(next := Some(e))]
    ensures Chained(s, Fold(hm[e := hm[m]][m := hm[l]], l, m), Upto(l), rank', prev')
    ensures Heads(Fold(hm[e := hm[m]][m := hm[l]], l, m), Upto(l)) == Heads(hm, live) - {l} + {m}
  {
    assert SlotOk(s0, hm, live, rank, prev, m);
    var g := prev[m];
    assert SlotOk(s0, hm, live, rank, prev, g);
    MoveInner(s0, hm, live, rank, prev, m, e);
    HeadsKept(hm, live, m, e);
    var s1, hm1, live1 := s0[e := s0[m]][g := s0[g].(next := Some(e))], hm[e := hm[m]], live - {m} + {e};
    var rank1, prev1 := rank[e := rank[m]], Relinked(s0, prev, m, e)[e := g];
    MoveHead(s1, hm1, live1, rank1, prev1, l, m);
    rank', prev' := rank1[m := rank1[l]], Relinked(s1, prev1, l, m);
    assert s1[l] == s0[l];
    assert s == s1[m := s1[l]];
    LiveAfter(live, l, e, m);
  }

  lemma LiveAfter(live: set<nat>, l: nat, e: nat, m: nat)
    requires e < l && m < l && forall i: nat :: i in live <==> i <= l && i != e
    ensures m != e ==> live - {m} + {e} - {l} + {m} == Upto(l)
    ensures live - {l} + {e} == Upto(l)
  {
  }

  /** Moving an entry that is not a head keeps the heads. */
  lemma HeadsKept(hm: seq<nat>, live: set<nat>, x: nat, e: nat)
    requires x in live && x < |hm| && hm[x] != x && e !in live && e < |hm| && hm[x] != e
    ensures Heads(hm[e := hm[x]], live - {x} + {e}) == Heads(hm, live)
  {
  }

  /** The last entry sits inside the chain of `pos`; it moves to the free slot. */
  method RelocateInner(s0: seq<HashInfo>, l: nat, pos: nat, e: nat, ghost hm: seq<nat>, ghost live: set<nat>,
                       ghost rank: seq<nat>, ghost prev: seq<nat>, ghost m: nat)
    returns (s: seq<HashInfo>, ghost rank': seq<nat>, ghost prev': seq<nat>)
    requires Fits(s0, hm, live, rank, prev, l, m, e) && hm[l] == pos && pos != l
    ensures |s| == |s0| && s[e].rec == s0[l].rec
    ensures forall i | 0 <= i < |s0| && i != e :: s[i].rec == s0[i].rec
    ensures Chained(s, Fold(hm[e := hm[l]], l, m), Upto(l), rank', prev')
    ensures Heads(Fold(hm[e := hm[l]], l, m), Upto(l)) == Heads(hm, live)
  {
    s, rank', prev' := MoveEntry(s0, l, pos, e, hm, live, rank, prev);
    InnerMoved(s0, s, l, m, e, hm, live, rank, prev, rank', prev');
  }

  lemma InnerMoved(s0: seq<HashInfo>, s: seq<HashInfo>, l: nat, m: nat, e: nat, hm: seq<nat>, live: set<nat>,
                   rank: seq<nat>, prev: seq<nat>, rank': seq<nat>, prev': seq<nat>)
    requires Fits(s0, hm, live, rank, prev, l, m, e) && hm[l] != l
    requires Chained(s, hm[e := hm[l]], live - {l} + {e}, rank', prev')
    ensures Chained(s, Fold(hm[e := hm[l]], l, m), Upto(l), rank', prev')
    ensures Heads(Fold(hm[e := hm[l]], l, m), Upto(l)) == Heads(hm, live)
  {
    LiveAfter(live, l, e, m);
    assert SlotOk(s0, hm, live, rank, prev, l);
    HeadsKept(hm, live, l, e);
    NoAddress(s, hm[e := hm[l]], Upto(l), rank', prev', l, m);
  }

  /** When slot `l` is not in use, no entry has address `l`. */
  lemma NoAddress(s: seq<HashInfo>, hm: seq<nat>, live: set<nat>, rank: seq<nat>, prev: seq<nat>, l: nat, m: nat)
    requires l !in live
    ensures Chained(s, hm, live, rank, prev) ==>
              Chained(s, Fold(hm, l, m), live, rank, prev) && Heads(Fold(hm, l, m), live) == Heads(hm, live)
  {
    if Chained(s, hm, live, rank, prev) {
      forall i | i in live
        ensures Fold(hm, l, m)[i] == hm[i]
      {
        assert SlotOk(s, hm, live, rank, prev, i);
      }
      Refit(s, hm, live, rank, prev, s, Fold(hm, l, m));
    }
  }

  /** A path whose head `l` has been copied to `e`. */
  lemma CopiedHead(s: seq<HashInfo>, l: nat, e: nat, path: seq<nat>)
    requires IsPath(s, path) && path[0] == l && e < |s|
    requires forall k | 0 <= k < |path| :: path[k] != e
    requires forall k | 0 < k < |path| :: path[k] != l
    ensures IsPath(s[e := s[l]], [e] + path[1..])
    ensures |path| == 1 ==> ([e] + path[1..])[|path| - 1] == e
    ensures |path| > 1 ==> ([e] + path[1..])[|path| - 1] == path[|path| - 1]
  {
    var s1, p1 := s[e := s[l]], [e] + path[1..];
    forall k | 0 <= k < |p1| - 1
      ensures s1[p1[k]].next == Some(p1[k + 1])
    {
      assert p1[k + 1] == path[k + 1];
      assert k > 0 ==> p1[k] == path[k];
    }
  }

  /** Nothing but the head itself links back to a head. */
  lemma HeadOnlyFirst(s: seq<HashInfo>, hm: seq<nat>, live: set<nat>, rank: seq<nat>, prev: seq<nat>, path: seq<nat>)
    requires Chained(s, hm, live, rank, prev) && IsPath(s, path) && hm[path[0]] == path[0]
    requires forall k | 0 <= k < |path| :: path[k] in live
    ensures forall k | 0 < k < |path| :: path[k] != path[0]
  {
    forall k | 0 < k < |path|
      ensures path[k] != path[0]
    {
      assert SlotOk(s, hm, live, rank, prev, path[k - 1]);
      assert s[path[k - 1]].next == Some(path[k]);
    }
  }

  /** The way from the copied head `e` to slot `z` of the chain of address `l`. */
  lemma CopiedPath(s: seq<HashInfo>, l: nat, e: nat, hm: seq<nat>, live: set<nat>, rank: seq<nat>, prev: seq<nat>,
                   z: nat)
    returns (path: seq<nat>)
    requires Chained(s, hm, live, rank, prev) && l in live && e !in live && e < |s| && z in live && hm[z] == l
    ensures IsPath(s[e := s[l]], path) && path[0] == e && path[|path| - 1] == (if z == l then e else z)
    ensures forall k | 0 < k < |path| :: path[k] in live && rank[path[k]] <= rank[z]
  {
    assert SlotOk(s, hm, live, rank, prev, z);
    var p := PathFromHead(s, hm, live, rank, prev, z);
    HeadOnlyFirst(s, hm, live, rank, prev, p);
    CopiedHead(s, l, e, p);
    path := [e] + p[1..];
    assert forall k | 0 < k < |path| :: path[k] == p[k];
  }

  /** The predecessor of `m` comes before it. */
  lemma NotOnPath(s: seq<HashInfo>, hm: seq<nat>, live: set<nat>, rank: seq<nat>, prev: seq<nat>, m: nat)
    requires Chained(s, hm, live, rank, prev) && m in live && hm[m] != m
    ensures prev[m] in live && prev[m] < |s| && rank[prev[m]] < rank[m] && s[prev[m]].next == Some(m) &&
            hm[prev[m]] == hm[m]
  {
    assert SlotOk(s, hm, live, rank, prev, m);
    assert SlotOk(s, hm, live, rank, prev, prev[m]);
  }

  /** The folded address holds an entry of the last chain: it becomes the head in front of the old one. */
  method RelocateFront(s0: seq<HashInfo>, l: nat, m: nat, e: nat,
                       ghost hm: seq<nat>, ghost live: set<nat>, ghost rank: seq<nat>, ghost prev: seq<nat>)
    returns (s: seq<HashInfo>, ghost rank': seq<nat>, ghost prev': seq<nat>)
    requires Fits(s0, hm, live, rank, prev, l, m, e) && m != e && hm[l] == l && hm[m] == l
    ensures |s| == |s0| && s[e].rec == s0[l].rec
    ensures forall i | 0 <= i < |s0| && i != e :: s[i].rec == s0[i].rec
    ensures Chained(s, Fold(hm[e := hm[l]], l, m), Upto(l), rank', prev')
    ensures Heads(Fold(hm[e := hm[l]], l, m), Upto(l)) == Heads(hm, live) - {l} + {m}
  {
    NotOnPath(s0, hm, live, rank, prev, m);
    ghost var path := CopiedPath(s0, l, e, hm, live, rank, prev, prev[m]);
    s := s0[e := s0[l]];
    s := MoveLink(s, Some(m), e, s[m].next, path);
    s := s[m := s[m].(next := Some(e))];
    rank', prev' := MoveToFront(s0, hm, live, rank, prev, l, m, e, s);
    LiveAfter(live, l, e, m);
  }

  /** The folded address has a chain of its own: the last chain is merged into it. */
  method RelocateMerge(s0: seq<HashInfo>, l: nat, m: nat, e: nat,
                       ghost hm: seq<nat>, ghost live: set<nat>, ghost rank: seq<nat>, ghost prev: seq<nat>)
    returns (s: seq<HashInfo>, ghost rank': seq<nat>, ghost prev': seq<nat>)
    requires Fits(s0, hm, live, rank, prev, l, m, e) && m != e && hm[l] == l && hm[m] == m
    ensures |s| == |s0| && s[e].rec == s0[l].rec
    ensures forall i | 0 <= i < |s0| && i != e :: s[i].rec == s0[i].rec
    ensures Chained(s, Fold(hm[e := hm[l]], l, m), Upto(l), rank', prev')
    ensures Heads(Fold(hm[e := hm[l]], l, m), Upto(l)) == Heads(hm, live) - {l}
  {
    assert SlotOk(s0, hm, live, rank, prev, l);
    assert SlotOk(s0, hm, live, rank, prev, m);
    ghost var top := HasAbove(rank);
    ghost var z := Tail(s0, hm, live, rank, prev, l, top);
    ghost var path := CopiedPath(s0, l, e, hm, live, rank, prev, z);
    s := s0[e := s0[l]];
    s := MoveLink(s, None, e, s[m].next, path);
    s := s[m := s[m].(next := Some(e))];
    assert MergeSlots(s0, l, m, e, z, s);
    rank', prev' := Merge(s0, hm, live, rank, prev, l, m, e, z, s);
    LiveAfter(live, l, e, m);
  }

  // ---------------------------------------------------------------- counting

  lemma BagOne(r: seq<RecPtr>, r': seq<RecPtr>, e: nat)
    requires e < |r| - 1 && r' == r[e := r[|r| - 1]][..|r| - 1]
    ensures multiset(r') == multiset(r) - multiset{r[e]}
  {
    var l := |r| - 1;
    UpdateBag(r, e, r[l]);
    assert r[e := r[l]] == r' + [r[l]];
    Cancel(r', r, r[e], r[l]);
  }

  lemma Cancel(r': seq<RecPtr>, r: seq<RecPtr>, x: RecPtr, y: RecPtr)
    requires multiset(r' + [y]) == multiset(r) - multiset{x} + multiset{y}
    ensures multiset(r') == multiset(r) - multiset{x}
  {
    var a, b := multiset(r'), multiset(r) - multiset{x};
    assert multiset(r' + [y]) == a + multiset{y};
    forall z: RecPtr
      ensures a[z] == b[z]
    {
      assert (a + multiset{y})[z] == (b + multiset{y})[z];
    }
  }

  lemma UpdateBag(r: seq<RecPtr>, i: nat, x: RecPtr)
    requires i < |r|
    ensures multiset(r[i := x]) == multiset(r) - multiset{r[i]} + multiset{x}
  {
    assert r == r[..i] + [r[i]] + r[i + 1..];
    assert r[i := x] == r[..i] + [x] + r[i + 1..];
  }

  lemma BagTwo(r: seq<RecPtr>, r': seq<RecPtr>, e: nat, m: nat)
    requires e < |r| - 1 && m < |r| - 1 && m != e && r' == r[e := r[m]][m := r[|r| - 1]][..|r| - 1]
    ensures multiset(r') == multiset(r) - multiset{r[e]}
  {
    var l := |r| - 1;
    UpdateBag(r, e, r[m]);
    UpdateBag(r[e := r[m]], m, r[l]);
    assert r[e := r[m]][m := r[l]] == r' + [r[l]];
    assert multiset(r) - multiset{r[e]} + multiset{r[m]} - multiset{r[m]} == multiset(r) - multiset{r[e]};
    Cancel(r', r, r[e], r[l]);
  }

  lemma SwapCount(a: set<nat>, l: nat, m: nat)
    requires l in a && m !in a
    ensures |a - {l} + {m}| == |a|
  {
    assert |a - {l}| == |a| - 1;
  }

  /** One entry moved: slot `e` got the record of slot `l`. */
  ghost predicate OneMoved(s0: seq<HashInfo>, s: seq<HashInfo>, e: nat, l: nat)
    requires e < |s0| && l < |s0|
  {
    |s| == |s0| && s[e].rec == s0[l].rec && forall i | 0 <= i < |s0| && i != e :: s[i].rec == s0[i].rec
  }

  /** Two entries moved: slot `e` got the record of `p`, and `p` that of `l`. */
  ghost predicate TwoMoved(s0: seq<HashInfo>, s: seq<HashInfo>, e: nat, p: nat, l: nat)
    requires e < |s0| && l < |s0| && p < |s0|
  {
    && |s| == |s0| && s[e].rec == s0[p].rec && s[p].rec == s0[l].rec
    && forall i | 0 <= i < |s0| && i != e && i != p :: s[i].rec == s0[i].rec
  }

  ghost predicate Moved(s0: seq<HashInfo>, s: seq<HashInfo>, e: nat, pos: nat, l: nat, m: nat, hm: seq<nat>,
                        hm': seq<nat>)
    requires e < |s0| == |hm| && l < |s0| && pos < |s0|
  {
    || (OneMoved(s0, s, e, l) && hm' == Fold(hm[e := hm[l]], l, m))
    || (pos != e && TwoMoved(s0, s, e, pos, l) && hm' == Fold(hm[e := hm[pos]][pos := hm[l]], l, m))
  }

  /**
   Relocation of the last slot `l`.  `pos` is where its entry belongs now and `pos2` where it
   belonged; `pos3` and `posOld` are the same for the entry that occupies `pos`.
   */
  method RelocateSlots(s0: seq<HashInfo>, l: nat, e: nat, pos: nat, pos3: nat, pos2: nat, posOld: nat, buckets0: int,
                       ghost m: nat, ghost hm: seq<nat>, ghost live: set<nat>, ghost rank: seq<nat>,
                       ghost prev: seq<nat>)
    returns (s: seq<HashInfo>, buckets: int, ghost hm': seq<nat>, ghost rank': seq<nat>, ghost prev': seq<nat>)
    requires Fits(s0, hm, live, rank, prev, l, m, e) && buckets0 == |Heads(hm, live)|
    requires pos == Folded(hm[l], l, m) && pos2 == hm[l] && pos < l
    requires pos != e ==> pos3 == Folded(hm[pos], l, m) && posOld == hm[pos]
    ensures Chained(s, hm', Upto(l), rank', prev') && buckets == |Heads(hm', Upto(l))|
    ensures Moved(s0, s, e, pos, l, m, hm, hm')
  {
    buckets := buckets0;
    assert SlotOk(s0, hm, live, rank, prev, l);
    hm' := Fold(hm[e := hm[l]], l, m);
    if pos == e {
      s, rank', prev' := RelocateToFree(s0, l, e, hm, live, rank, prev);
      SwapCount(Heads(hm, live), l, e);
      return;
    }
    assert SlotOk(s0, hm, live, rank, prev, pos);
    if pos != pos3 {
      s, rank', prev' := RelocateForeign(s0, l, pos, pos3, e, hm, live, rank, prev);
      hm' := Fold(hm[e := hm[pos]][pos := hm[l]], l, m);
      SwapCount(Heads(hm, live), l, pos);
      return;
    }
    if pos2 == posOld {
      if pos2 != l {
        s, rank', prev' := RelocateInner(s0, l, pos, e, hm, live, rank, prev, m);
      } else {
        s, rank', prev' := RelocateFront(s0, l, pos, e, hm, live, rank, prev);
        SwapCount(Heads(hm, live), l, pos);
      }
    } else {
      buckets := buckets - 1;
      s, rank', prev' := RelocateMerge(s0, l, pos, e, hm, live, rank, prev);
      assert |Heads(hm, live) - {l}| == |Heads(hm, live)| - 1;
    }
  }

  lemma MovedAddresses(a: RecPtr -> nat, a': RecPtr -> nat, s0: seq<HashInfo>, s: seq<HashInfo>, e: nat, pos: nat,
                       l: nat, m: nat, hm': seq<nat>)
    requires Folds(a, a', l, m) && l < |s0| && e < l && pos < l
    requires Moved(s0, s, e, pos, l, m, Homes(a, s0), hm')
    ensures |s| == |s0| && hm' == Homes(a', s)
    ensures multiset(Recs(s, l)) == multiset(Recs(s0, l + 1)) - multiset{s0[e].rec}
  {
    HomesFold(a, a', s, l, m);
    var hm := Homes(a, s0);
    if OneMoved(s0, s, e, l) && hm' == Fold(hm[e := hm[l]], l, m) {
      assert Homes(a, s) == hm[e := hm[l]];
      BagOne(Recs(s0, l + 1), Recs(s, l), e);
    } else {
      assert Homes(a, s) == hm[e := hm[pos]][pos := hm[l]];
      BagTwo(Recs(s0, l + 1), Recs(s, l), e, pos);
    }
  }

  /** The second half of hp_delete_key: the last slot `l` goes into the free slot `e`. */
  method Relocate(oldAddress: RecPtr -> nat, newAddress: RecPtr -> nat, s0: seq<HashInfo>, l: nat, e: nat,
                  buckets0: int, ghost m: nat, ghost rank: seq<nat>, ghost prev: seq<nat>)
    returns (s: seq<HashInfo>, buckets: int, ghost rank': seq<nat>, ghost prev': seq<nat>)
    requires Folds(oldAddress, newAddress, l, m) && m < l < |s0| && e < l
    requires Chained(s0, Homes(oldAddress, s0), Upto(l + 1) - {e}, rank, prev)
    requires buckets0 == |Heads(Homes(oldAddress, s0), Upto(l + 1) - {e})|
    ensures |s| == |s0| && Chained(s, Homes(newAddress, s), Upto(l), rank', prev')
    ensures buckets == |Heads(Homes(newAddress, s), Upto(l))|
    ensures multiset(Recs(s, l)) == multiset(Recs(s0, l + 1)) - multiset{s0[e].rec}
  {
    ghost var hm, live := Homes(oldAddress, s0), Upto(l + 1) - {e};
    var pos := newAddress(s0[l].rec);
    var pos3, posOld := 0, 0;
    if pos != e {
      pos3, posOld := newAddress(s0[pos].rec), oldAddress(s0[pos].rec);
    }
    ghost var hm';
    s, buckets, hm', rank', prev' :=
      RelocateSlots(s0, l, e, pos, pos3, oldAddress(s0[l].rec), posOld, buckets0, m, hm, live, rank, prev);
    MovedAddresses(oldAddress, newAddress, s0, s, e, pos, l, m, hm');
  }

  // ---------------------------------------------------------------- hp_delete_key

  /** Takes the entry at `pos` out of its chain; `e` is the slot that becomes free. */
  method Unlink(s0: seq<HashInfo>, n: nat, pos: nat, before: Option<nat>, buckets0: int,
                ghost hm: seq<nat>, ghost rank: seq<nat>, ghost prev: seq<nat>)
    returns (s: seq<HashInfo>, e: nat, buckets: int, ghost prev': seq<nat>)
    requires pos < n <= |s0| && Chained(s0, hm, Upto(n), rank, prev) && buckets0 == |Heads(hm, Upto(n))|
    requires before == if pos == hm[pos] then None else Some(prev[pos])
    ensures e < n && |s| == |s0| && Chained(s, hm, Upto(n) - {e}, rank, prev')
    ensures buckets == |Heads(hm, Upto(n) - {e})|
    ensures hm[e] == hm[pos] && s[e].rec == s0[e].rec && s[pos].rec == s0[if e == pos then pos else e].rec
    ensures forall i | 0 <= i < |s0| && i != pos :: s[i].rec == s0[i].rec
  {
    assert SlotOk(s0, hm, Upto(n), rank, prev, pos);
    s, e, buckets := s0, pos, buckets0;
    if before.Some? {
      UnlinkInner(s0, hm, Upto(n), rank, prev, pos);
      s := s[before.value := s[before.value].(next := s[pos].next)];
      prev' := Relinked(s0, prev, pos, prev[pos]);
      assert Heads(hm, Upto(n) - {e}) == Heads(hm, Upto(n));
    } else if s[pos].next.Some? {
      e := s[pos].next.value;
      UnlinkHead(s0, hm, Upto(n), rank, prev, pos, e);
      s := s[pos := s[e]];
      prev' := Relinked(s0, prev, e, pos);
      assert Heads(hm, Upto(n) - {e}) == Heads(hm, Upto(n));
    } else {
      UnlinkOnly(s0, hm, Upto(n), rank, prev, pos);
      buckets := buckets - 1;
      prev' := prev;
      assert Heads(hm, Upto(n) - {e}) == Heads(hm, Upto(n)) - {e};
    }
  }

  /** Unlinking removes one occurrence of the record and leaves the addresses alone. */
  lemma Unlinked(a: RecPtr -> nat, s0: seq<HashInfo>, s: seq<HashInfo>, n: nat, pos: nat, e: nat)
    requires pos < n <= |s0| == |s| && e < n && Homes(a, s0)[e] == Homes(a, s0)[pos]
    requires s[e].rec == s0[e].rec && s[pos].rec == s0[if e == pos then pos else e].rec
    requires forall i | 0 <= i < |s0| && i != pos :: s[i].rec == s0[i].rec
    ensures Homes(a, s) == Homes(a, s0)
    ensures multiset(Recs(s, n)) - multiset{s[e].rec} == multiset(Recs(s0, n)) - multiset{s0[pos].rec}
  {
    UpdateBag(Recs(s0, n), pos, s0[e].rec);
    assert Recs(s, n) == Recs(s0, n)[pos := s0[e].rec];
  }

  /** The freed slot is the last one: nothing has to move. */
  lemma LastFreed(a: RecPtr -> nat, a': RecPtr -> nat, s: seq<HashInfo>, l: nat, m: nat, rank: seq<nat>, prev: seq<nat>)
    requires Folds(a, a', l, m) && l < |s| && Chained(s, Homes(a, s), Upto(l + 1) - {l}, rank, prev)
    ensures Chained(s, Homes(a', s), Upto(l), rank, prev)
    ensures Heads(Homes(a', s), Upto(l)) == Heads(Homes(a, s), Upto(l + 1) - {l})
  {
    assert Upto(l + 1) - {l} == Upto(l);
    HomesFold(a, a', s, l, m);
    NoAddress(s, Homes(a, s), Upto(l), rank, prev, l, m);
  }

  lemma LastRecord(s: seq<HashInfo>, n: nat)
    requires n < |s|
    ensures multiset(Recs(s, n)) == multiset(Recs(s, n + 1)) - multiset{s[n].rec}
  {
    assert Recs(s, n + 1) == Recs(s, n) + [s[n].rec];
  }

  /** The first half of hp_delete_key: find the entry and unlink it, which leaves slot `e` free. */
  method Remove(address: RecPtr -> nat, k: Key, n: nat, recpos: RecPtr, ghost rank: seq<nat>, ghost prev: seq<nat>)
    returns (found: bool, s: seq<HashInfo>, e: nat, buckets: int, ghost prev': seq<nat>)
    requires n <= |k.slots| && address(recpos) < n && Chained(k.slots, Homes(address, k.slots), Upto(n), rank, prev)
    requires k.hashBuckets == |Heads(Homes(address, k.slots), Upto(n))|
    ensures found <==> recpos in Recs(k.slots, n)
    ensures found ==>
              && e < n && |s| == |k.slots|
              && Chained(s, Homes(address, s), Upto(n) - {e}, rank, prev')
              && buckets == |Heads(Homes(address, s), Upto(n) - {e})|
              && multiset(Recs(s, n)) - multiset{s[e].rec} == multiset(Recs(k.slots, n)) - multiset{recpos}
  {
    var at := Find(k.slots, n, address(recpos), recpos, Homes(address, k.slots), rank, prev);
    s, e, buckets, prev' := k.slots, 0, k.hashBuckets, prev;
    if at.NotFound? {
      return false, s, e, buckets, prev';
    }
    assert Recs(k.slots, n)[at.pos] == recpos;
    s, e, buckets, prev' := Unlink(k.slots, n, at.pos, at.before, k.hashBuckets, Homes(address, k.slots), rank, prev);
    Unlinked(address, k.slots, s, n, at.pos, e);
    found := true;
  }

  datatype DeleteResult = Deleted | Crashed

  /** hp_delete_key for a table that keeps at least one record: address `l` is folded onto `m`. */
  method DeleteWith(address: RecPtr -> nat, newAddress: RecPtr -> nat, k: Key, l: nat, recpos: RecPtr, ghost m: nat)
    returns (r: DeleteResult, k': Key)
    requires Folds(address, newAddress, l, m) && m < l && ValidFor(address, k, l + 1)
    ensures r.Deleted? <==> recpos in Recs(k.slots, l + 1)
    ensures r.Crashed? ==> k' == k
    ensures r.Deleted? ==>
              && ValidFor(newAddress, k', l) && |k'.slots| == |k.slots|
              && multiset(Recs(k'.slots, l)) == multiset(Recs(k.slots, l + 1)) - multiset{recpos}
  {
    ghost var rank, prev :| ValidBy(address, k, l + 1, rank, prev);
    var found, s, e, buckets;
    found, s, e, buckets, prev := Remove(address, k, l + 1, recpos, rank, prev);
    if !found {
      return Crashed, k;
    }
    if e == l {
      LastFreed(address, newAddress, s, l, m, rank, prev);
      LastRecord(s, l);
    } else {
      s, buckets, rank, prev := Relocate(address, newAddress, s, l, e, buckets, m, rank, prev);
    }
    r, k' := Deleted, Key(s, buckets);
    assert ValidBy(newAddress, k', l, rank, prev);
  }

  /** hp_delete_key for the only record. */
  method DeleteOnly(address: RecPtr -> nat, k: Key, recpos: RecPtr) returns (r: DeleteResult, k': Key)
    requires ValidFor(address, k, 1) && address(recpos) == 0
    ensures r.Deleted? <==> recpos in Recs(k.slots, 1)
    ensures r.Crashed? ==> k' == k
    ensures r.Deleted? ==>
              && k'.hashBuckets == 0 && |k'.slots| == |k.slots|
              && multiset(Recs(k'.slots, 0)) == multiset(Recs(k.slots, 1)) - multiset{recpos}
  {
    ghost var rank, prev :| ValidBy(address, k, 1, rank, prev);
    var found, s, e, buckets;
    found, s, e, buckets, prev := Remove(address, k, 1, recpos, rank, prev);
    if !found {
      return Crashed, k;
    }
    assert Heads(Homes(address, s), Upto(1) - {e}) == {};
    LastRecord(s, 0);
    r, k' := Deleted, Key(s, buckets);
  }

  /** hp_delete_key, called when the share already has the smaller `records` and `blength`. */
  method DeleteKey(h: RecPtr -> nat, k: Key, records: nat, blength: nat, recpos: RecPtr)
    returns (r: DeleteResult, k': Key)
    requires GoodLength(records, blength) && Valid(h, k, records + 1, Recovered(records, blength))
    ensures r.Deleted? <==> recpos in Recs(k.slots, records + 1)
    ensures r.Crashed? ==> k' == k
    ensures r.Deleted? ==>
              && Valid(h, k', records, blength) && |k'.slots| == |k.slots|
              && multiset(Recs(k'.slots, records)) == multiset(Recs(k.slots, records + 1)) - multiset{recpos}
  {
    var b := Recovered(records, blength);
    var address := Address(h, b, records + 1);
    if records == 0 {
      OnlyAddress(h, recpos);
      r, k' := DeleteOnly(address, k, recpos);
    } else {
      DeleteFolds(h, records, blength);
      r, k' := DeleteWith(address, Address(h, blength, records), k, records, recpos, FoldTarget(records + 1, b));
    }
  }

  lemma OnlyAddress(h: RecPtr -> nat, x: RecPtr)
    ensures Recovered(0, 1) == 2 && Address(h, 2, 1)(x) == 0
  {
    OneMoreBit(h(x), 1);
  }

  lemma DeleteFolds(h: RecPtr -> nat, records: nat, blength: nat)
    requires records >= 1 && GoodLength(records, blength)
    ensures var b := Recovered(records, blength);
            var m := FoldTarget(records + 1, b);
            m < records && Folds(Address(h, b, records + 1), Address(h, blength, records), records, m)
  {
    RecoversLength(records, blength);
    AddressFolds(h, records + 1, Recovered(records, blength));
  }
}
