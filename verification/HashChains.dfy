/**
 Hash index of the HEAP engine, as a growing array of slots.  Slot `p` starts the chain of
 all entries whose hash address is `p`, unless it holds an entry of another chain.
 This module has the address function, the invariant, and the effect of each relinking
 step on the invariant; the operations themselves are in HashIndex.
 */
module HashChains {
  import opened Wrappers

  /** Address of a record. */
  type RecPtr = nat

  /** HASH_INFO: link to the next entry of the chain, and the record. */
  datatype HashInfo = HashInfo(next: Option<nat>, rec: RecPtr)

  // ---------------------------------------------------------------- addresses

  ghost predicate Pow2(b: nat) {
    b == 1 || (b > 1 && b % 2 == 0 && Pow2(b / 2))
  }

  /** `blength` for a table of `records` rows. */
  ghost predicate GoodLength(records: nat, blength: nat) {
    Pow2(blength) && blength / 2 <= records < blength
  }

  /** `hashnr & (b - 1)`, for a power of two. */
  function LowBits(hashnr: nat, b: nat): (r: nat)
    ensures r < b || b == 0 == r
  {
    if b <= 1 then 0 else hashnr % 2 + 2 * LowBits(hashnr / 2, b / 2)
  }

  /** hp_mask: the low bits of the hash, with one bit less when that is past the end. */
  function Mask(hashnr: nat, buffmax: nat, maxlength: nat): nat {
    if LowBits(hashnr, buffmax) < maxlength then LowBits(hashnr, buffmax) else LowBits(hashnr, buffmax / 2)
  }

  /** `hashnr & half`, for a power of two: the bit of the hash worth `half`. */
  predicate HighBit(hashnr: nat, half: nat) {
    if half <= 1 then hashnr % 2 == 1 else HighBit(hashnr / 2, half / 2)
  }

  /** Looking at one bit more. */
  lemma {:induction false} OneMoreBit(x: nat, c: nat)
    requires Pow2(c)
    ensures LowBits(x, 2 * c) == LowBits(x, c) + (if HighBit(x, c) then c else 0)
  {
    if c > 1 {
      OneMoreBit(x / 2, c / 2);
    }
  }

  lemma HalfOf(x: nat, h: nat)
    requires h >= 1
    ensures x % (2 * h) == x % 2 + 2 * (x / 2 % h) && x / (2 * h) == x / 2 / h
  {
    var q, r := x / 2 / h, x / 2 % h;
    assert x / 2 == h * q + r;
    assert x == 2 * h * q + (x % 2 + 2 * r);
    Divided(x, 2 * h, q, x % 2 + 2 * r);
  }

  lemma Divided(x: nat, m: nat, q: nat, r: nat)
    requires x == m * q + r && r < m
    ensures x / m == q && x % m == r
  {
    assert x == m * (x / m) + x % m;
    if q < x / m {
      AtLeast(m, q + 1, x / m);
    } else if x / m < q {
      AtLeast(m, x / m + 1, q);
    }
  }

  lemma AtLeast(m: nat, a: nat, b: nat)
    requires a <= b
    ensures m * a <= m * b
  {
  }

  /** The low bits are the remainder, and the high bit the parity of the quotient. */
  lemma {:induction false} BitsAre(x: nat, b: nat)
    requires Pow2(b)
    ensures LowBits(x, b) == x % b && (HighBit(x, b) <==> x / b % 2 == 1)
  {
    if b > 1 {
      BitsAre(x / 2, b / 2);
      HalfOf(x, b / 2);
    }
  }

  /** hp_mask as arithmetic. */
  lemma MaskIs(x: nat, b: nat, n: nat)
    requires Pow2(b) && b > 1
    ensures Mask(x, b, n) == if x % b < n then x % b else x % (b / 2)
  {
    BitsAre(x, b);
    BitsAre(x, b / 2);
  }

  /** Which half of `blength` survives when the last of `n` records goes. */
  function Shrunk(n: nat, b: nat): nat
    requires n >= 1
  {
    if n - 1 < b / 2 then b / 2 else b
  }

  /** The address that the last one is folded onto: without its highest bit. */
  function FoldTarget(n: nat, b: nat): (m: nat)
    requires n >= 2
    ensures GoodLength(n, b) ==> m < n - 1
  {
    if n - 1 >= Shrunk(n, b) / 2 then n - 1 - Shrunk(n, b) / 2 else 0
  }

  /** Removing the last address folds it onto one address and keeps the others. */
  lemma MaskShrink(x: nat, n: nat, b: nat)
    requires n >= 2 && GoodLength(n, b)
    ensures GoodLength(n - 1, Shrunk(n, b))
    ensures Shrunk(n, b) >= 2
    ensures Mask(x, b, n) < n && Mask(x, Shrunk(n, b), n - 1) < n - 1
    ensures Mask(x, Shrunk(n, b), n - 1) ==
            if Mask(x, b, n) == n - 1 then FoldTarget(n, b) else Mask(x, b, n)
  {
    if n - 1 < b / 2 {
      MaskHalve(x, n, b);
    } else {
      MaskLess(x, n, b);
    }
  }

  /** ... when `blength` is halved ... */
  lemma MaskHalve(x: nat, n: nat, b: nat)
    requires n >= 2 && GoodLength(n, b) && n - 1 < b / 2
    ensures b / 2 >= 2 && GoodLength(n - 1, b / 2)
    ensures Mask(x, b, n) < n && Mask(x, b / 2, n - 1) < n - 1
    ensures Mask(x, b / 2, n - 1) == if Mask(x, b, n) == n - 1 then n - 1 - b / 2 / 2 else Mask(x, b, n)
  {
    var h := b / 2;
    assert n == h && b == h + h;
    assert Pow2(h);
    assert h / 2 + h / 2 == h && Pow2(h / 2);
    OneMoreBit(x, h);
    OneMoreBit(x, h / 2);
  }

  /** ... and when it stays. */
  lemma MaskLess(x: nat, n: nat, b: nat)
    requires n >= 2 && GoodLength(n, b) && n - 1 >= b / 2
    ensures b >= 2 && GoodLength(n - 1, b)
    ensures Mask(x, b, n) < n && Mask(x, b, n - 1) < n - 1
    ensures Mask(x, b, n - 1) == if Mask(x, b, n) == n - 1 then n - 1 - b / 2 else Mask(x, b, n)
  {
    var h := b / 2;
    assert b == h + h && Pow2(h);
    OneMoreBit(x, h);
  }

  /** Adding an address splits it off one address and keeps the others. */
  lemma MaskGrow(x: nat, n: nat, b: nat)
    requires n >= 1 && GoodLength(n, b)
    ensures b >= 2
    ensures Mask(x, b, n) < n && Mask(x, b, n + 1) < n + 1
    ensures Mask(x, b, n) != n - b / 2 ==> Mask(x, b, n + 1) == Mask(x, b, n)
    ensures Mask(x, b, n) == n - b / 2 ==> Mask(x, b, n + 1) == if HighBit(x, b / 2) then n else n - b / 2
  {
    OneMoreBit(x, b / 2);
  }

  /** Doubling `blength` of a full table moves nothing. */
  lemma MaskDouble(x: nat, b: nat)
    requires Pow2(b)
    ensures Mask(x, 2 * b, b) == Mask(x, b, b)
  {
    OneMoreBit(x, b);
  }

  /** The address function of a table with `n` records. */
  function Address(h: RecPtr -> nat, b: nat, n: nat): RecPtr -> nat {
    (x: RecPtr) => Mask(h(x), b, n)
  }

  /** The address `p` after `l` has been folded onto `m`. */
  function Folded(p: nat, l: nat, m: nat): nat {
    if p == l then m else p
  }

  /** `a'` is `a` with the last address `l` folded onto `m`. */
  ghost predicate Folds(a: RecPtr -> nat, a': RecPtr -> nat, l: nat, m: nat) {
    forall x: RecPtr :: a(x) <= l && a'(x) == Folded(a(x), l, m) < l
  }

  lemma AddressFolds(h: RecPtr -> nat, n: nat, b: nat)
    requires n >= 2 && GoodLength(n, b)
    ensures Shrunk(n, b) >= 1 && Folds(Address(h, b, n), Address(h, Shrunk(n, b), n - 1), n - 1, FoldTarget(n, b))
  {
    MaskShrink(0, n, b);
    forall x: RecPtr
      ensures var p := Mask(h(x), b, n);
              p <= n - 1 && Mask(h(x), Shrunk(n, b), n - 1) == Folded(p, n - 1, FoldTarget(n, b)) < n - 1
    {
      MaskShrink(h(x), n, b);
    }
  }

  // ---------------------------------------------------------------- chains

  /** The address of every slot's entry, for an address function `a` on records. */
  ghost function Homes(a: RecPtr -> nat, s: seq<HashInfo>): (hm: seq<nat>)
    ensures |hm| == |s| && forall i | 0 <= i < |s| :: hm[i] == a(s[i].rec)
  {
    seq<nat>(|s|, i requires 0 <= i < |s| => a(s[i].rec))
  }

  /** The address of slot `i` holds the head of its chain. */
  ghost predicate HeadOk(hm: seq<nat>, live: set<nat>, i: nat)
    requires i < |hm|
  {
    hm[i] in live && hm[i] < |hm| && hm[hm[i]] == hm[i]
  }

  /** Unless it is a head, slot `i` is linked to by `prev[i]`. */
  ghost predicate PrevOk(s: seq<HashInfo>, hm: seq<nat>, live: set<nat>, prev: seq<nat>, i: nat)
    requires i < |s| == |hm| == |prev|
  {
    i != hm[i] ==> prev[i] in live && prev[i] < |s| && s[prev[i]].next == Some(i)
  }

  /** The link of slot `i` stays in the chain, and `rank` grows along it. */
  ghost predicate NextOk(s: seq<HashInfo>, hm: seq<nat>, live: set<nat>, rank: seq<nat>, prev: seq<nat>, i: nat)
    requires i < |s| == |hm| == |rank| == |prev|
  {
    s[i].next.Some? ==>
      var j := s[i].next.value;
      j in live && j < |s| && j != hm[j] && hm[j] == hm[i] && rank[j] > rank[i] && prev[j] == i
  }

  ghost predicate SlotOk(s: seq<HashInfo>, hm: seq<nat>, live: set<nat>, rank: seq<nat>, prev: seq<nat>, i: nat)
    requires i < |s| == |hm| == |rank| == |prev|
  {
    HeadOk(hm, live, i) && PrevOk(s, hm, live, prev, i) && NextOk(s, hm, live, rank, prev, i)
  }

  /** The slots in `live` are covered by acyclic chains, each starting at its own address. */
  ghost predicate Chained(s: seq<HashInfo>, hm: seq<nat>, live: set<nat>, rank: seq<nat>, prev: seq<nat>) {
    && |s| == |hm| == |rank| == |prev|
    && (forall i | i in live :: i < |s|)
    && forall i {:trigger SlotOk(s, hm, live, rank, prev, i)} | i in live :: SlotOk(s, hm, live, rank, prev, i)
  }

  /** `prev` after `from` has been made to link to what `e` links to. */
  ghost function Relinked(s: seq<HashInfo>, prev: seq<nat>, e: nat, from: nat): seq<nat>
    requires e < |s| && (s[e].next.Some? ==> s[e].next.value < |prev|)
  {
    if s[e].next.Some? then prev[s[e].next.value := from] else prev
  }

  // ---------------------------------------------------------------- unlinking an entry

  /** Unlink an entry behind the head: its predecessor takes over its link. */
  lemma UnlinkInner(s: seq<HashInfo>, hm: seq<nat>, live: set<nat>, rank: seq<nat>, prev: seq<nat>, e: nat)
    requires Chained(s, hm, live, rank, prev) && e in live && e != hm[e]
    ensures s[e].next.Some? ==> s[e].next.value < |s|
    ensures prev[e] in live && prev[e] < |s| && s[prev[e]].next == Some(e)
    ensures Chained(s[prev[e] := s[prev[e]].(next := s[e].next)], hm, live - {e}, rank, Relinked(s, prev, e, prev[e]))
  {
    assert SlotOk(s, hm, live, rank, prev, e);
    var s', live', prev' := s[prev[e] := s[prev[e]].(next := s[e].next)], live - {e}, Relinked(s, prev, e, prev[e]);
    forall i | i in live'
      ensures i < |s| && SlotOk(s', hm, live', rank, prev', i)
    {
      assert SlotOk(s, hm, live, rank, prev, i);
      if i == prev[e] {
      } else if s[e].next == Some(i) {
      }
    }
  }

  /** Unlink a head that has a successor: the successor moves into the head slot. */
  lemma UnlinkHead(s: seq<HashInfo>, hm: seq<nat>, live: set<nat>, rank: seq<nat>, prev: seq<nat>, p: nat, e: nat)
    requires Chained(s, hm, live, rank, prev) && p in live && p == hm[p] && s[p].next == Some(e)
    ensures e in live && e < |s| && (s[e].next.Some? ==> s[e].next.value < |s|)
    ensures hm[p := hm[e]] == hm
    ensures Chained(s[p := s[e]], hm, live - {e}, rank, Relinked(s, prev, e, p))
  {
    assert SlotOk(s, hm, live, rank, prev, p);
    assert SlotOk(s, hm, live, rank, prev, e);
    var s', live', prev' := s[p := s[e]], live - {e}, Relinked(s, prev, e, p);
    forall i | i in live'
      ensures i < |s| && SlotOk(s', hm, live', rank, prev', i)
    {
      assert SlotOk(s, hm, live, rank, prev, i);
      if i == p {
      } else if s[e].next == Some(i) {
      }
    }
  }

  /** Unlink the only entry of a chain. */
  lemma UnlinkOnly(s: seq<HashInfo>, hm: seq<nat>, live: set<nat>, rank: seq<nat>, prev: seq<nat>, p: nat)
    requires Chained(s, hm, live, rank, prev) && p in live && p == hm[p] && s[p].next == None
    ensures Chained(s, hm, live - {p}, rank, prev)
  {
    forall i | i in live - {p}
      ensures hm[i] != p
    {
      if hm[i] != i {
        OnlyEntry(s, hm, live, rank, prev, i);
      }
    }
    forall i | i in live - {p}
      ensures SlotOk(s, hm, live - {p}, rank, prev, i)
    {
      assert SlotOk(s, hm, live, rank, prev, i);
    }
  }

  /** A head without successor is alone in its chain. */
  lemma {:induction false} OnlyEntry(s: seq<HashInfo>, hm: seq<nat>, live: set<nat>, rank: seq<nat>, prev: seq<nat>,
                                     i: nat)
    requires Chained(s, hm, live, rank, prev) && i in live && i != hm[i]
    ensures hm[i] < |s| && s[hm[i]].next.Some?
    decreases rank[i]
  {
    assert SlotOk(s, hm, live, rank, prev, i);
    var p := prev[i];
    assert SlotOk(s, hm, live, rank, prev, p);
    if p != hm[p] {
      OnlyEntry(s, hm, live, rank, prev, p);
    }
  }

  // ---------------------------------------------------------------- moving an entry into a free slot

  /** An entry behind the head moves from `x` to the free slot `e`; its predecessor is relinked. */
  lemma MoveInner(s: seq<HashInfo>, hm: seq<nat>, live: set<nat>, rank: seq<nat>, prev: seq<nat>, x: nat, e: nat)
    requires Chained(s, hm, live, rank, prev) && x in live && x != hm[x] && e !in live && e < |s|
    ensures prev[x] in live && prev[x] < |s| && s[prev[x]].next == Some(x)
    ensures s[x].next.Some? ==> s[x].next.value < |s|
    ensures Chained(s[e := s[x]][prev[x] := s[prev[x]].(next := Some(e))], hm[e := hm[x]], live - {x} + {e},
                    rank[e := rank[x]], Relinked(s, prev, x, e)[e := prev[x]])
  {
    assert SlotOk(s, hm, live, rank, prev, x);
    assert SlotOk(s, hm, live, rank, prev, prev[x]);
    var s', live' := s[e := s[x]][prev[x] := s[prev[x]].(next := Some(e))], live - {x} + {e};
    var hm', rank', prev' := hm[e := hm[x]], rank[e := rank[x]], Relinked(s, prev, x, e)[e := prev[x]];
    forall i | i in live'
      ensures i < |s| && SlotOk(s', hm', live', rank', prev', i)
    {
      if i == e {
      } else {
        assert SlotOk(s, hm, live, rank, prev, i);
        if i == prev[x] {
        } else if s[x].next == Some(i) {
        }
      }
    }
  }

  /** The heads of the chains; their number is the number of used hash buckets. */
  ghost function Heads(hm: seq<nat>, live: set<nat>): set<nat> {
    set i | i in live && i < |hm| && hm[i] == i
  }

  /** Address `from` is folded onto `to`. */
  ghost function Fold(hm: seq<nat>, from: nat, to: nat): (r: seq<nat>)
    ensures |r| == |hm| && forall i | 0 <= i < |hm| :: r[i] == if hm[i] == from then to else hm[i]
  {
    seq<nat>(|hm|, i requires 0 <= i < |hm| => if hm[i] == from then to else hm[i])
  }

  // ---------------------------------------------------------------- giving up an address

  /** The chain of address `l` moves to the free address `m`. */
  lemma MoveHead(s: seq<HashInfo>, hm: seq<nat>, live: set<nat>, rank: seq<nat>, prev: seq<nat>, l: nat, m: nat)
    requires Chained(s, hm, live, rank, prev) && l in live && hm[l] == l && m !in live && m < |s|
    ensures s[l].next.Some? ==> s[l].next.value < |s|
    ensures Chained(s[m := s[l]], Fold(hm[m := l], l, m), live - {l} + {m}, rank[m := rank[l]], Relinked(s, prev, l, m))
    ensures Heads(Fold(hm[m := l], l, m), live - {l} + {m}) == Heads(hm, live) - {l} + {m}
  {
    assert SlotOk(s, hm, live, rank, prev, l);
    var s', live' := s[m := s[l]], live - {l} + {m};
    var hm', rank', prev' := Fold(hm[m := l], l, m), rank[m := rank[l]], Relinked(s, prev, l, m);
    forall i | i in live'
      ensures i < |s| && SlotOk(s', hm', live', rank', prev', i)
      ensures i != m ==> hm[i] != m
    {
      if i != m {
        assert SlotOk(s, hm, live, rank, prev, i);
        if s[l].next == Some(i) {
        }
      }
    }
  }

  /** `k` plus any rank is beyond every rank. */
  ghost predicate Above(rank: seq<nat>, k: nat) {
    forall i | 0 <= i < |rank| :: rank[i] < k
  }

  lemma {:induction false} HasAbove(rank: seq<nat>) returns (k: nat)
    ensures Above(rank, k)
  {
    if rank == [] {
      k := 0;
    } else {
      k := HasAbove(rank[1..]);
      k := if rank[0] < k then k else rank[0] + 1;
      forall i | 0 <= i < |rank|
        ensures rank[i] < k
      {
        assert i > 0 ==> rank[i] == rank[1..][i - 1];
      }
    }
  }

  /** A new entry `x` becomes the head of chain `p`; the old head moves to the free slot `e`. */
  lemma PushHead(s: seq<HashInfo>, hm: seq<nat>, live: set<nat>, rank: seq<nat>, prev: seq<nat>, p: nat, e: nat,
                 x: HashInfo)
    returns (rank': seq<nat>)
    requires Chained(s, hm, live, rank, prev) && p in live && hm[p] == p && e !in live && e < |s| && x.next == Some(e)
    ensures s[p].next.Some? ==> s[p].next.value < |s|
    ensures Chained(s[e := s[p]][p := x], hm[e := p], live + {e}, rank', Relinked(s, prev, p, e)[e := p])
    ensures Heads(hm[e := p], live + {e}) == Heads(hm, live)
  {
    rank' := seq<nat>(|rank|, i requires 0 <= i < |rank| => if i == p then 0 else if i == e then rank[p] + 1
                      else rank[i] + 1);
    assert SlotOk(s, hm, live, rank, prev, p);
    var s', live', hm', prev' := s[e := s[p]][p := x], live + {e}, hm[e := p], Relinked(s, prev, p, e)[e := p];
    forall i | i in live'
      ensures i < |s| && SlotOk(s', hm', live', rank', prev', i)
    {
      if i != e {
        assert SlotOk(s, hm, live, rank, prev, i);
        if i == p {
        } else if s[p].next == Some(i) {
        }
      }
    }
  }

  /**
   Slot `m`, inside the chain of address `l`, is taken out and becomes the head at its own
   address; the old head moves to the free slot `e` behind it.
   */
  lemma MoveToFront(s: seq<HashInfo>, hm: seq<nat>, live: set<nat>, rank: seq<nat>, prev: seq<nat>,
                    l: nat, m: nat, e: nat, s': seq<HashInfo>) returns (rank': seq<nat>, prev': seq<nat>)
    requires Chained(s, hm, live, rank, prev) && l in live && hm[l] == l && m in live && m != l && hm[m] == l
    requires e !in live && e < |s|
    requires prev[m] < |s| && s' == FrontSlots(s, l, m, e, prev[m])
    ensures Chained(s', Fold(hm[e := l], l, m), live - {l} + {e}, rank', prev')
    ensures Heads(Fold(hm[e := l], l, m), live - {l} + {e}) == Heads(hm, live) - {l} + {m}
  {
    var g := prev[m];
    UnlinkInner(s, hm, live, rank, prev, m);
    var s1, p1 := s[g := s[g].(next := s[m].next)], Relinked(s, prev, m, g);
    MoveHead(s1, hm, live - {m}, rank, p1, l, m);
    var s2, hm2, rank2, p2 := s1[m := s1[l]], Fold(hm[m := l], l, m), rank[m := rank[l]], Relinked(s1, p1, l, m);
    var live2 := live - {m} - {l} + {m};
    rank' := PushHead(s2, hm2, live2, rank2, p2, m, e, HashInfo(Some(e), s[m].rec));
    prev' := Relinked(s2, p2, m, e)[e := m];
    var s3, live3 := s2[e := s2[m]][m := HashInfo(Some(e), s[m].rec)], live2 + {e};
    assert live3 == live - {l} + {e};
    Refit(s3, hm2[e := m], live3, rank', prev', s', Fold(hm[e := l], l, m));
    assert Heads(hm, live - {m}) == Heads(hm, live);
  }

  /** Only the contents and addresses of live slots matter. */
  lemma Refit(s: seq<HashInfo>, hm: seq<nat>, live: set<nat>, rank: seq<nat>, prev: seq<nat>,
              s': seq<HashInfo>, hm': seq<nat>)
    requires Chained(s, hm, live, rank, prev) && |s'| == |hm'| == |s|
    requires forall i | i in live :: s'[i] == s[i] && hm'[i] == hm[i]
    ensures Chained(s', hm', live, rank, prev)
    ensures Heads(hm', live) == Heads(hm, live)
  {
    forall i | i in live
      ensures SlotOk(s', hm', live, rank, prev, i)
    {
      assert SlotOk(s, hm, live, rank, prev, i);
    }
  }

  /** The slots after MoveToFront: m -> e -> (l's chain without m). */
  ghost function FrontSlots(s: seq<HashInfo>, l: nat, m: nat, e: nat, g: nat): seq<HashInfo>
    requires l < |s| && m < |s| && e < |s| && g < |s|
  {
    var s1 := s[e := s[l]];
    var g' := if g == l then e else g;
    var s2 := s1[g' := s1[g'].(next := s1[m].next)];
    s2[m := s2[m].(next := Some(e))]
  }

  /** The slots after Merge: m -> e -> (l's chain up to z) -> (m's old chain). */
  ghost predicate MergeSlots(s: seq<HashInfo>, l: nat, m: nat, e: nat, z: nat, s': seq<HashInfo>)
    requires l < |s| && m < |s| && e < |s| && z < |s|
  {
    && |s'| == |s|
    && s'[m] == s[m].(next := Some(e))
    && s'[e] == (if z == l then s[l].(next := s[m].next) else s[l])
    && (z != l ==> s'[z] == s[z].(next := s[m].next))
    && forall i | 0 <= i < |s| && i != m && i != e && i != z :: s'[i] == s[i]
  }

  ghost function MergeRank(hm: seq<nat>, rank: seq<nat>, l: nat, m: nat, e: nat, k: nat): (r: seq<nat>)
    requires |hm| == |rank| && l < |rank|
    ensures |r| == |rank|
    ensures forall i | 0 <= i < |rank| ::
              r[i] == if i == m then 0 else if i == e then rank[l] + 1
                      else if hm[i] == m then rank[i] + k + 2 else rank[i] + 1
  {
    seq<nat>(|rank|, i requires 0 <= i < |rank| =>
      if i == m then 0 else if i == e then rank[l] + 1 else if hm[i] == m then rank[i] + k + 2 else rank[i] + 1)
  }

  ghost function MergePrev(s: seq<HashInfo>, prev: seq<nat>, l: nat, m: nat, e: nat, z: nat): seq<nat>
    requires l < |s| == |prev| && m < |s| && e < |s|
    requires s[l].next.Some? ==> s[l].next.value < |s|
    requires s[m].next.Some? ==> s[m].next.value < |s|
  {
    Relinked(s, Relinked(s, prev, l, e), m, if z == l then e else z)[e := m]
  }

  /** What Merge starts from. */
  ghost predicate Mergeable(s: seq<HashInfo>, hm: seq<nat>, live: set<nat>, rank: seq<nat>, prev: seq<nat>,
                            l: nat, m: nat, e: nat, z: nat)
  {
    && Chained(s, hm, live, rank, prev)
    && l in live && hm[l] == l && m in live && m != l && hm[m] == m
    && e !in live && e < |s| && z in live && hm[z] == l && s[z].next == None
    && (s[l].next.Some? ==> s[l].next.value < |s|)
    && (s[m].next.Some? ==> s[m].next.value < |s|)
  }

  lemma MergeEnds(s: seq<HashInfo>, hm: seq<nat>, live: set<nat>, rank: seq<nat>, prev: seq<nat>,
                  l: nat, m: nat, e: nat, z: nat, s': seq<HashInfo>, k: nat)
    requires Mergeable(s, hm, live, rank, prev, l, m, e, z) && Above(rank, k) && MergeSlots(s, l, m, e, z, s')
    ensures SlotOk(s', Fold(hm[e := l], l, m), live - {l} + {e}, MergeRank(hm, rank, l, m, e, k),
                   MergePrev(s, prev, l, m, e, z), m)
    ensures SlotOk(s', Fold(hm[e := l], l, m), live - {l} + {e}, MergeRank(hm, rank, l, m, e, k),
                   MergePrev(s, prev, l, m, e, z), e)
  {
    assert SlotOk(s, hm, live, rank, prev, l);
    assert SlotOk(s, hm, live, rank, prev, m);
  }

  lemma MergePrevOk(s: seq<HashInfo>, hm: seq<nat>, live: set<nat>, rank: seq<nat>, prev: seq<nat>,
                    l: nat, m: nat, e: nat, z: nat, s': seq<HashInfo>, i: nat)
    requires Mergeable(s, hm, live, rank, prev, l, m, e, z) && MergeSlots(s, l, m, e, z, s')
    requires i in live && i != l && i != m && i != e
    ensures i < |s| && HeadOk(Fold(hm[e := l], l, m), live - {l} + {e}, i)
    ensures PrevOk(s', Fold(hm[e := l], l, m), live - {l} + {e}, MergePrev(s, prev, l, m, e, z), i)
  {
    assert SlotOk(s, hm, live, rank, prev, i);
    if i != hm[i] {
      assert SlotOk(s, hm, live, rank, prev, prev[i]);
    }
  }

  lemma MergeNextOk(s: seq<HashInfo>, hm: seq<nat>, live: set<nat>, rank: seq<nat>, prev: seq<nat>,
                    l: nat, m: nat, e: nat, z: nat, s': seq<HashInfo>, k: nat, i: nat)
    requires Mergeable(s, hm, live, rank, prev, l, m, e, z) && Above(rank, k) && MergeSlots(s, l, m, e, z, s')
    requires i in live && i != l && i != m && i != e
    ensures i < |s| && NextOk(s', Fold(hm[e := l], l, m), live - {l} + {e}, MergeRank(hm, rank, l, m, e, k),
                              MergePrev(s, prev, l, m, e, z), i)
  {
    assert SlotOk(s, hm, live, rank, prev, i);
    if i == z {
      assert SlotOk(s, hm, live, rank, prev, m);
    } else if s[i].next.Some? {
      assert SlotOk(s, hm, live, rank, prev, s[i].next.value);
      assert s[l].next != s[i].next && s[m].next != s[i].next by {
        assert SlotOk(s, hm, live, rank, prev, l);
        assert SlotOk(s, hm, live, rank, prev, m);
      }
    }
  }

  /** The chain of address `l`, ending at `z`, is put behind the head of chain `m`. */
  lemma Merge(s: seq<HashInfo>, hm: seq<nat>, live: set<nat>, rank: seq<nat>, prev: seq<nat>,
              l: nat, m: nat, e: nat, z: nat, s': seq<HashInfo>) returns (rank': seq<nat>, prev': seq<nat>)
    requires Mergeable(s, hm, live, rank, prev, l, m, e, z) && MergeSlots(s, l, m, e, z, s')
    ensures Chained(s', Fold(hm[e := l], l, m), live - {l} + {e}, rank', prev')
    ensures Heads(Fold(hm[e := l], l, m), live - {l} + {e}) == Heads(hm, live) - {l}
  {
    var k := HasAbove(rank);
    rank' := MergeRank(hm, rank, l, m, e, k);
    prev' := MergePrev(s, prev, l, m, e, z);
    MergeEnds(s, hm, live, rank, prev, l, m, e, z, s', k);
    forall i | i in live - {l} + {e}
      ensures i < |s| && SlotOk(s', Fold(hm[e := l], l, m), live - {l} + {e}, rank', prev', i)
    {
      if i != e && i != m {
        MergePrevOk(s, hm, live, rank, prev, l, m, e, z, s', i);
        MergeNextOk(s, hm, live, rank, prev, l, m, e, z, s', k, i);
      }
    }
  }
}
