/**
 The growing array of the HEAP engine: a tree of pointer nodes over leaf blocks of records, where new
 nodes are put into the memory chunk of the new leaf.
 */
module BlockTree {

  /** A place in an allocated chunk of memory. */
  datatype Addr = Addr(chunk: nat, off: nat)

  /** The place one node further. */
  function Next(a: Addr, nodeSize: nat): Addr {
    Addr(a.chunk, a.off + nodeSize)
  }

  /** Contents of the nodes: what is in slot `j` of the node at an address. */
  type Memory = map<(Addr, nat), Addr>

  /** The nodes of every level in order; those of level 0 are the leaves. */
  type Tree = seq<seq<Addr>>

  // ---------------------------------------------------------------- products

  /** `a * b`, for proofs without nonlinear arithmetic. */
  function Mul(a: nat, b: nat): nat {
    if a == 0 then 0 else b + Mul(a - 1, b)
  }

  lemma {:induction false} MulIs(a: nat, b: nat)
    ensures Mul(a, b) == a * b
  {
    if a > 0 {
      MulIs(a - 1, b);
      assert a * b == (a - 1) * b + b;
    }
  }

  lemma {:induction false} MulAdd(a: nat, a': nat, b: nat)
    ensures Mul(a + a', b) == Mul(a, b) + Mul(a', b)
  {
    if a > 0 {
      MulAdd(a - 1, a', b);
    }
  }

  lemma MulMono(a: nat, a': nat, b: nat)
    requires a <= a'
    ensures Mul(a, b) <= Mul(a', b)
  {
    MulAdd(a, a' - a, b);
  }

  lemma {:induction false} MulAssoc(a: nat, b: nat, c: nat)
    ensures Mul(Mul(a, b), c) == Mul(a, Mul(b, c))
  {
    if a > 0 {
      MulAssoc(a - 1, b, c);
      MulAdd(b, Mul(a - 1, b), c);
    }
  }

  lemma MulLess(a: nat, a': nat, b: nat)
    ensures Mul(a, b) < Mul(a', b) ==> a < a'
  {
    if a' <= a {
      MulMono(a', a, b);
    }
  }

  /** Row and column are unique. */
  lemma MulUnique(q: nat, j: nat, q': nat, j': nat, b: nat)
    requires Mul(q, b) + j == Mul(q', b) + j' && j < b && j' < b
    ensures q == q' && j == j'
  {
    MulApart(q, j, q', b);
    MulApart(q', j', q, b);
  }

  lemma MulApart(q: nat, j: nat, q': nat, b: nat)
    ensures q < q' && j < b ==> Mul(q, b) + j < Mul(q', b)
  {
    if q < q' {
      MulMono(q + 1, q', b);
    }
  }

  /** Division by `b`. */
  lemma DivMod(x: nat, b: nat)
    requires b >= 1
    ensures x == Mul(x / b, b) + x % b && x % b < b
  {
    MulIs(x / b, b);
  }

  // ---------------------------------------------------------------- invariant

  /** The number of nodes fits on every level, and there is one at the top. */
  ghost predicate Shape(ptrs: nat, t: Tree) {
    && ptrs >= 2 && |t| >= 1 && |t[|t| - 1]| == 1
    && forall l: nat | 1 <= l < |t| :: Filled(ptrs, t, l)
  }

  /** Level `l` has as many nodes as are needed for the level below. */
  ghost predicate Filled(ptrs: nat, t: Tree, l: nat)
    requires 1 <= l < |t|
  {
    |t[l]| >= 1 && 2 <= |t[l - 1]| && Mul(|t[l]| - 1, ptrs) < |t[l - 1]| <= Mul(|t[l]|, ptrs)
  }

  /** The child that is in the same chunk, right behind its parent: the first one, but the second in a leftmost node. */
  function Embedded(q: nat): nat {
    if q == 0 then 1 else 0
  }

  /** Slot `j` of node `q` on level `l` leads to node `q * ptrs + j` on the level below. */
  ghost predicate Child(ptrs: nat, nodeSize: nat, t: Tree, mem: Memory, l: nat, q: nat, j: nat)
    requires 1 <= l < |t| && q < |t[l]| && Mul(q, ptrs) + j < |t[l - 1]|
  {
    var c := t[l - 1][Mul(q, ptrs) + j];
    && (t[l][q], j) in mem && mem[(t[l][q], j)] == c
    && if j == Embedded(q) then c == Next(t[l][q], nodeSize) else c.off == 0
  }

  ghost predicate Linked(ptrs: nat, nodeSize: nat, t: Tree, mem: Memory) {
    forall l: nat, q: nat, j: nat {:trigger Child(ptrs, nodeSize, t, mem, l, q, j)}
      | 1 <= l < |t| && q < |t[l]| && j < ptrs &&
        Mul(q, ptrs) + j < |t[l - 1]| :: Child(ptrs, nodeSize, t, mem, l, q, j)
  }

  /** All nodes are at different places, in the chunks from `first` to `next`. */
  ghost predicate Apart(t: Tree, place: map<Addr, (nat, nat)>, first: nat, next: nat) {
    forall l: nat, q: nat | l < |t| && q < |t[l]| :: At(t, place, first, next, l, q)
  }

  ghost predicate At(t: Tree, place: map<Addr, (nat, nat)>, first: nat, next: nat, l: nat, q: nat)
    requires l < |t| && q < |t[l]|
  {
    var a := t[l][q];
    a in place && place[a] == (l, q) && first <= a.chunk < next
  }

  /** level_info: the last node of every level, and how many slots it has left. */
  ghost predicate Info(ptrs: nat, t: Tree, free: seq<nat>, last: seq<Addr>) {
    && 1 <= |t| <= |free| == |last| && free[0] == 0
    && (forall l: nat | 1 <= l < |t| :: SlotsLeft(ptrs, t, free, l))
    && (forall l | 0 <= l < |t| :: |t[l]| >= 1 && last[l] == t[l][|t[l]| - 1])
  }

  ghost predicate SlotsLeft(ptrs: nat, t: Tree, free: seq<nat>, l: nat)
    requires 1 <= l < |t| <= |free|
  {
    free[l] == Mul(|t[l]|, ptrs) - |t[l - 1]|
  }

  /** How often `x` is among the first `n` addresses, if it is the start of a chunk. */
  ghost function Starts(s: seq<Addr>, n: nat, x: Addr): nat
    requires n <= |s|
  {
    if n == 0 then 0 else Starts(s, n - 1, x) + One(s[n - 1], x)
  }

  ghost function One(y: Addr, x: Addr): nat {
    if y == x && x.off == 0 then 1 else 0
  }

  /** How often `x` is on the levels below `m`. */
  ghost function AllStarts(t: Tree, m: nat, x: Addr): nat
    requires m <= |t|
  {
    if m == 0 then 0 else AllStarts(t, m - 1, x) + Starts(t[m - 1], |t[m - 1]|, x)
  }

  /** `x` is the start of one of the chunks from `first` to `next`. */
  ghost predicate IsChunk(first: nat, next: nat, x: Addr) {
    x.off == 0 && first <= x.chunk < next
  }

  /** Every chunk starts with exactly one node. */
  ghost predicate OneEach(t: Tree, first: nat, next: nat) {
    forall x :: AllStarts(t, |t|, x) == if IsChunk(first, next, x) then 1 else 0
  }

  // ---------------------------------------------------------------- positions

  /** How many records there are under a node of level `l`. */
  ghost function Capacity(ptrs: nat, perBlock: nat, l: nat): (r: nat)
    ensures ptrs >= 1 && perBlock >= 1 ==> r >= 1
  {
    if l == 0 then perBlock else Mul(ptrs, Capacity(ptrs, perBlock, l - 1))
  }

  /** records_under_level. */
  ghost predicate Under(ptrs: nat, perBlock: nat, under: seq<nat>) {
    forall i: nat | 1 <= i < |under| :: under[i] == Capacity(ptrs, perBlock, i - 1)
  }

  /** init_block: fills the table records_under_level. */
  method InitBlock(ptrs: nat, perBlock: nat, maxLevels: nat) returns (under: seq<nat>)
    ensures |under| == maxLevels + 1 && under[0] == 1 && Under(ptrs, perBlock, under)
  {
    under := [];
    for i := 0 to maxLevels + 1
      invariant |under| == i && (i >= 1 ==> under[0] == 1) && Under(ptrs, perBlock, under)
    {
      if i >= 2 {
        MulIs(ptrs, under[i - 1]);
      }
      under := under + [if i == 0 then 1 else if i == 1 then perBlock else ptrs * under[i - 1]];
    }
  }

  /** The nodes of level `l` have room for all leaves. */
  lemma {:induction false} Room(ptrs: nat, perBlock: nat, t: Tree, l: nat)
    requires Shape(ptrs, t) && l < |t|
    ensures Mul(|t[0]|, perBlock) <= Mul(|t[l]|, Capacity(ptrs, perBlock, l))
  {
    if l > 0 {
      var u := Capacity(ptrs, perBlock, l - 1);
      Room(ptrs, perBlock, t, l - 1);
      assert Filled(ptrs, t, l);
      MulMono(|t[l - 1]|, Mul(|t[l]|, ptrs), u);
      MulAssoc(|t[l]|, ptrs, u);
    }
  }

  /** One step of the descent: node `q` is left for the child in slot `j`. */
  lemma StepDown(ptrs: nat, perBlock: nat, t: Tree, i: nat, q: nat, pos: nat, p: nat, j: nat, r: nat)
    requires Shape(ptrs, t) && 1 <= i < |t| && perBlock >= 1
    requires var u := Capacity(ptrs, perBlock, i - 1);
             Mul(q, Mul(ptrs, u)) + p == pos < Mul(|t[0]|, perBlock) && p == Mul(j, u) + r < Mul(ptrs, u) && r < u
    ensures var u := Capacity(ptrs, perBlock, i - 1);
            j < ptrs && Mul(Mul(q, ptrs) + j, u) + r == pos && Mul(q, ptrs) + j < |t[i - 1]|
  {
    var u := Capacity(ptrs, perBlock, i - 1);
    MulLess(j, ptrs, u);
    MulAdd(Mul(q, ptrs), j, u);
    MulAssoc(q, ptrs, u);
    Room(ptrs, perBlock, t, i - 1);
    MulLess(Mul(q, ptrs) + j, |t[i - 1]|, u);
  }

  method Divide(x: nat, b: nat) returns (q: nat, r: nat)
    requires b >= 1
    ensures q == x / b && r == x % b && x == Mul(q, b) + r && r < b
  {
    DivMod(x, b);
    q, r := x / b, x % b;
  }

  /** The loop of hp_find_block. */
  method FindLeaf(ptrs: nat, perBlock: nat, under: seq<nat>, mem: Memory, root: Addr, levels: nat, pos: nat,
                  ghost nodeSize: nat, ghost t: Tree) returns (ptr: Addr, p: nat, ghost q: nat)
    requires perBlock >= 1 && Under(ptrs, perBlock, under) && levels == |t| <= |under|
    requires Shape(ptrs, t) && Linked(ptrs, nodeSize, t, mem) && root == t[levels - 1][0]
    requires pos < Mul(|t[0]|, perBlock)
    ensures q < |t[0]| && ptr == t[0][q] && p < perBlock && Mul(q, perBlock) + p == pos
  {
    ptr, p, q := root, pos, 0;
    var i := levels - 1;
    Room(ptrs, perBlock, t, levels - 1);
    while i > 0
      invariant 0 <= i < levels && q < |t[i]| && ptr == t[i][q]
      invariant p < Capacity(ptrs, perBlock, i) && Mul(q, Capacity(ptrs, perBlock, i)) + p == pos
    {
      var j, r := Divide(p, under[i]);
      StepDown(ptrs, perBlock, t, i, q, pos, p, j, r);
      assert Child(ptrs, nodeSize, t, mem, i, q, j);
      ptr, p, q, i := mem[(ptr, j)], r, Mul(q, ptrs) + j, i - 1;
    }
  }

  /** hp_find_block: the place of record `pos` in the leaf `pos / perBlock`. */
  method FindBlock(ptrs: nat, perBlock: nat, recbuffer: nat, under: seq<nat>, mem: Memory, root: Addr, levels: nat,
                   pos: nat, ghost nodeSize: nat, ghost t: Tree) returns (a: Addr)
    requires perBlock >= 1 && Under(ptrs, perBlock, under) && levels == |t| <= |under|
    requires Shape(ptrs, t) && Linked(ptrs, nodeSize, t, mem) && root == t[levels - 1][0]
    requires pos < Mul(|t[0]|, perBlock)
    ensures pos / perBlock < |t[0]|
    ensures var leaf := t[0][pos / perBlock]; a == Addr(leaf.chunk, leaf.off + (pos % perBlock) * recbuffer)
  {
    ghost var q;
    var ptr, p;
    ptr, p, q := FindLeaf(ptrs, perBlock, under, mem, root, levels, pos, nodeSize, t);
    DivMod(pos, perBlock);
    MulUnique(q, p, pos / perBlock, pos % perBlock, perBlock);
    a := Addr(ptr.chunk, ptr.off + p * recbuffer);
  }

  // ---------------------------------------------------------------- a new block

  /** Each node of the chain is right behind the one of the level above. */
  ghost predicate Chain(a: seq<Addr>, nodeSize: nat) {
    forall l: nat | 1 <= l < |a| :: InChain(a, nodeSize, l)
  }

  ghost predicate InChain(a: seq<Addr>, nodeSize: nat, l: nat)
    requires 1 <= l < |a|
  {
    a[l - 1] == Next(a[l], nodeSize)
  }

  /** The new block needs a free slot on level `i`: the levels below are full. */
  ghost predicate FreeAt(ptrs: nat, t: Tree, i: nat) {
    && 1 <= i <= |t|
    && (forall l: nat | 1 <= l < i :: Full(ptrs, t, l))
    && (i < |t| ==> !Full(ptrs, t, i))
  }

  ghost predicate Full(ptrs: nat, t: Tree, l: nat)
    requires 1 <= l < |t|
  {
    |t[l - 1]| == Mul(|t[l]|, ptrs)
  }

  /** The chain `a` of new nodes is added below level `i`, with a new top if there is no level `i` yet. */
  ghost predicate Grows(nodeSize: nat, t: Tree, t': Tree, i: nat, a: seq<Addr>, base: Addr) {
    && 1 <= i <= |t| && |a| == i && |t'| == (if i == |t| then |t| + 1 else |t|)
    && (forall l | 0 <= l < i :: t'[l] == t[l] + [a[l]])
    && (forall l | i <= l < |t| :: t'[l] == t[l])
    && (i == |t| ==> t'[i] == [base])
    && Chain(a, nodeSize) && a[i - 1] == (if i == |t| then Next(base, nodeSize) else base) && base.off == 0
  }

  lemma ShapeGrows(ptrs: nat, nodeSize: nat, t: Tree, t': Tree, i: nat, a: seq<Addr>, base: Addr)
    requires Shape(ptrs, t) && FreeAt(ptrs, t, i) && Grows(nodeSize, t, t', i, a, base)
    ensures Shape(ptrs, t')
  {
    forall l: nat | 1 <= l < |t'|
      ensures Filled(ptrs, t', l)
    {
      if l < |t| {
        assert Filled(ptrs, t, l);
        assert l < i ==> Full(ptrs, t, l);
      }
    }
  }

  /** The slot for the new node on level `i - 1`. */
  ghost function SlotOf(ptrs: nat, t: Tree, i: nat): nat
    requires 1 <= i < |t| && Shape(ptrs, t)
  {
    assert Filled(ptrs, t, i);
    |t[i - 1]| - Mul(|t[i]| - 1, ptrs)
  }

  /** What the allocation writes. */
  ghost predicate Writes(ptrs: nat, t: Tree, mem: Memory, mem': Memory, i: nat, a: seq<Addr>, base: Addr)
    requires Shape(ptrs, t) && 1 <= i <= |t| && |a| == i
  {
    && (i < |t| ==> Filled(ptrs, t, i))
    && (forall l: nat | 1 <= l < i :: (a[l], 0) in mem' && mem'[(a[l], 0)] == a[l - 1])
    && (if i == |t|
        then
          && (base, 0) in mem' && mem'[(base, 0)] == t[i - 1][0] && (base, 1) in mem' && mem'[(base, 1)] == a[i - 1]
          && Kept(mem, mem', base.chunk)
        else
          var slot := (t[i][|t[i]| - 1], SlotOf(ptrs, t, i));
          slot in mem' && mem'[slot] == a[i - 1] && KeptBut(mem, mem', base.chunk, slot))
  }

  ghost predicate Kept(mem: Memory, mem': Memory, next: nat) {
    forall c | c in mem && c.0.chunk < next :: c in mem' && mem'[c] == mem[c]
  }

  ghost predicate KeptBut(mem: Memory, mem': Memory, next: nat, slot: (Addr, nat)) {
    forall c | c in mem && c.0.chunk < next && c != slot :: c in mem' && mem'[c] == mem[c]
  }

  /** Links that were there before. */
  lemma OldChild(ptrs: nat, nodeSize: nat, t: Tree, t': Tree, mem: Memory, mem': Memory, i: nat, a: seq<Addr>,
                 base: Addr, place: map<Addr, (nat, nat)>, first: nat, l: nat, q: nat, j: nat)
    requires Shape(ptrs, t) && Linked(ptrs, nodeSize, t, mem) && Apart(t, place, first, base.chunk)
    requires Grows(nodeSize, t, t', i, a, base) && Writes(ptrs, t, mem, mem', i, a, base)
    requires 1 <= l < |t| && q < |t[l]| && j < ptrs && Mul(q, ptrs) + j < |t[l - 1]|
    ensures Child(ptrs, nodeSize, t', mem', l, q, j)
  {
    assert Child(ptrs, nodeSize, t, mem, l, q, j);
    assert At(t, place, first, base.chunk, l, q);
    var cell := (t[l][q], j);
    if i < |t| {
      var last := |t[i]| - 1;
      assert Filled(ptrs, t, i);
      assert At(t, place, first, base.chunk, i, last);
      assert cell != (t[i][last], SlotOf(ptrs, t, i));
    }
    assert mem'[cell] == mem[cell];
  }

  /** The new nodes below level `i`: each leads to the next one. */
  lemma ChainChild(ptrs: nat, nodeSize: nat, t: Tree, t': Tree, mem: Memory, mem': Memory, i: nat, a: seq<Addr>,
                   base: Addr, l: nat, j: nat)
    requires Shape(ptrs, t) && FreeAt(ptrs, t, i) && Grows(nodeSize, t, t', i, a, base) &&
             Writes(ptrs, t, mem, mem', i, a, base)
    requires 1 <= l < i && j < ptrs && Mul(|t[l]|, ptrs) + j < |t'[l - 1]|
    ensures Child(ptrs, nodeSize, t', mem', l, |t[l]|, j)
  {
    assert Filled(ptrs, t, l) && Full(ptrs, t, l) && InChain(a, nodeSize, l);
  }

  /** The slot on level `i` that leads to the first new node. */
  lemma SlotChild(ptrs: nat, nodeSize: nat, t: Tree, t': Tree, mem: Memory, mem': Memory, i: nat, a: seq<Addr>,
                  base: Addr, q: nat, j: nat)
    requires Shape(ptrs, t) && FreeAt(ptrs, t, i) && Grows(nodeSize, t, t', i, a, base) &&
             Writes(ptrs, t, mem, mem', i, a, base)
    requires i < |t| && q < |t[i]| && j < ptrs && Mul(q, ptrs) + j == |t[i - 1]|
    ensures Child(ptrs, nodeSize, t', mem', i, q, j)
  {
    assert Filled(ptrs, t, i) && !Full(ptrs, t, i);
    MulUnique(q, j, |t[i]| - 1, SlotOf(ptrs, t, i), ptrs);
  }

  /** A new top leads to the old one and to the first new node. */
  lemma TopChild(ptrs: nat, nodeSize: nat, t: Tree, t': Tree, mem: Memory, mem': Memory, i: nat, a: seq<Addr>,
                 base: Addr, j: nat)
    requires Shape(ptrs, t) && Grows(nodeSize, t, t', i, a, base) && Writes(ptrs, t, mem, mem', i, a, base)
    requires i == |t| && j < 2 && t[i - 1][0].off == 0
    ensures Child(ptrs, nodeSize, t', mem', i, 0, j)
  {
  }

  lemma LinkedGrows(ptrs: nat, nodeSize: nat, t: Tree, t': Tree, mem: Memory, mem': Memory, i: nat, a: seq<Addr>,
                    base: Addr, place: map<Addr, (nat, nat)>, first: nat)
    requires Shape(ptrs, t) && Linked(ptrs, nodeSize, t, mem) && Apart(t, place, first, base.chunk) &&
             t[|t| - 1][0].off == 0
    requires FreeAt(ptrs, t, i) && Grows(nodeSize, t, t', i, a, base) && Writes(ptrs, t, mem, mem', i, a, base)
    ensures Linked(ptrs, nodeSize, t', mem')
  {
    forall l: nat, q: nat, j: nat | 1 <= l < |t'| && q < |t'[l]| && j < ptrs && Mul(q, ptrs) + j < |t'[l - 1]|
      ensures Child(ptrs, nodeSize, t', mem', l, q, j)
    {
      if l == |t| {
        TopChild(ptrs, nodeSize, t, t', mem, mem', i, a, base, j);
      } else if q == |t[l]| {
        ChainChild(ptrs, nodeSize, t, t', mem, mem', i, a, base, l, j);
      } else if Mul(q, ptrs) + j < |t[l - 1]| {
        OldChild(ptrs, nodeSize, t, t', mem, mem', i, a, base, place, first, l, q, j);
      } else {
        NotBelow(ptrs, t, i, l, q, j);
        SlotChild(ptrs, nodeSize, t, t', mem, mem', i, a, base, q, j);
      }
    }
  }

  /** Old nodes on full levels have no new children. */
  lemma NotBelow(ptrs: nat, t: Tree, i: nat, l: nat, q: nat, j: nat)
    requires FreeAt(ptrs, t, i) && 1 <= l < |t| && q < |t[l]| && j < ptrs && Mul(q, ptrs) + j >= |t[l - 1]|
    ensures l >= i
  {
    MulApart(q, j, |t[l]|, ptrs);
    assert l < i ==> Full(ptrs, t, l);
  }

  // ---------------------------------------------------------------- places

  lemma {:induction false} ChainOffsets(a: seq<Addr>, nodeSize: nat, l: nat, m: nat)
    requires Chain(a, nodeSize) && nodeSize >= 1 && l < m < |a|
    ensures a[l].chunk == a[m].chunk && a[l].off > a[m].off
    decreases m
  {
    assert InChain(a, nodeSize, m);
    if l < m - 1 {
      ChainOffsets(a, nodeSize, l, m - 1);
    }
  }

  /** Where the new nodes are. */
  ghost function NewPlaces(t: Tree, i: nat, a: seq<Addr>, base: Addr): map<Addr, (nat, nat)>
    requires 1 <= i <= |t| && |a| == i
  {
    map x | x in (set y | y in a) + (if i == |t| then {base} else {}) :: if i == |t| && x == base then (i, 0) else
      var l := IndexIn(a, x); (l, |t[l]|)
  }

  ghost function IndexIn(a: seq<Addr>, x: Addr): (l: nat)
    requires a != []
    ensures l < |a| && (x in a ==> a[l] == x)
  {
    if x in a then var l :| 0 <= l < |a| && a[l] == x; l else 0
  }

  lemma ApartGrows(nodeSize: nat, t: Tree, t': Tree, i: nat, a: seq<Addr>, base: Addr, place: map<Addr, (nat, nat)>,
                   first: nat)
    requires Apart(t, place, first, base.chunk) && Grows(nodeSize, t, t', i, a, base) && nodeSize >= 1 &&
             first <= base.chunk
    ensures Apart(t', place + NewPlaces(t, i, a, base), first, base.chunk + 1)
  {
    var added := NewPlaces(t, i, a, base);
    var place', next' := place + added, base.chunk + 1;
    forall l: nat | l < i
      ensures a[l] in added && added[a[l]] == (l, |t[l]|) && a[l].chunk == base.chunk
    {
      NewPlace(nodeSize, t, t', i, a, base, l);
    }
    forall l: nat, q: nat | l < |t'| && q < |t'[l]|
      ensures At(t', place', first, next', l, q)
    {
      if l < |t| && q < |t[l]| {
        assert At(t, place, first, base.chunk, l, q);
        OldPlace(nodeSize, t, t', i, a, base, t[l][q]);
      }
    }
  }

  lemma NewPlace(nodeSize: nat, t: Tree, t': Tree, i: nat, a: seq<Addr>, base: Addr, l: nat)
    requires Grows(nodeSize, t, t', i, a, base) && nodeSize >= 1 && l < i
    ensures var p := NewPlaces(t, i, a, base); a[l] in p && p[a[l]] == (l, |t[l]|) && a[l].chunk == base.chunk
  {
    if l < i - 1 {
      ChainOffsets(a, nodeSize, l, i - 1);
    }
    var m := IndexIn(a, a[l]);
    if m < l {
      ChainOffsets(a, nodeSize, m, l);
    } else if l < m {
      ChainOffsets(a, nodeSize, l, m);
    }
  }

  lemma OldPlace(nodeSize: nat, t: Tree, t': Tree, i: nat, a: seq<Addr>, base: Addr, x: Addr)
    requires Grows(nodeSize, t, t', i, a, base) && nodeSize >= 1 && x.chunk < base.chunk
    ensures x !in NewPlaces(t, i, a, base)
  {
    if x in a {
      var l := IndexIn(a, x);
      NewPlace(nodeSize, t, t', i, a, base, l);
    }
  }

  // ---------------------------------------------------------------- chunks

  lemma {:induction false} StartsSame(s: seq<Addr>, s': seq<Addr>, n: nat, x: Addr)
    requires n <= |s| && n <= |s'| && forall k | 0 <= k < n :: s[k] == s'[k]
    ensures Starts(s, n, x) == Starts(s', n, x)
  {
    if n > 0 {
      StartsSame(s, s', n - 1, x);
    }
  }

  lemma StartsAppend(s: seq<Addr>, y: Addr, x: Addr)
    ensures Starts(s + [y], |s| + 1, x) == Starts(s, |s|, x) + One(y, x)
  {
    StartsSame(s, s + [y], |s|, x);
  }

  lemma {:induction false} StartsGrow(nodeSize: nat, t: Tree, t': Tree, i: nat, a: seq<Addr>, base: Addr, m: nat,
                                      x: Addr)
    requires Grows(nodeSize, t, t', i, a, base) && nodeSize >= 1 && m <= |t|
    ensures AllStarts(t', m, x) == AllStarts(t, m, x) + if i <= m && i < |t| then One(base, x) else 0
  {
    if m > 0 {
      var l := m - 1;
      StartsGrow(nodeSize, t, t', i, a, base, l, x);
      if l < i {
        StartsAppend(t[l], a[l], x);
        if l < i - 1 {
          ChainOffsets(a, nodeSize, l, i - 1);
        }
      }
    }
  }

  /** The new block adds exactly the start of the new chunk. */
  lemma OneEachGrows(nodeSize: nat, t: Tree, t': Tree, i: nat, a: seq<Addr>, base: Addr, first: nat)
    requires Grows(nodeSize, t, t', i, a, base) && nodeSize >= 1 && first <= base.chunk && OneEach(t, first, base.chunk)
    ensures OneEach(t', first, base.chunk + 1)
  {
    forall x
      ensures AllStarts(t', |t'|, x) == if IsChunk(first, base.chunk + 1, x) then 1 else 0
    {
      StartsGrow(nodeSize, t, t', i, a, base, |t|, x);
      if i == |t| {
        assert Starts([base], 1, x) == Starts([base], 0, x) + One(base, x);
      }
    }
  }

  /** How often `x` is at or under node `q` of level `l`. */
  ghost function StartsUnder(ptrs: nat, t: Tree, l: nat, q: nat, x: Addr): nat
    requires l < |t| && q < |t[l]|
    decreases l, 0
  {
    (if l == 0 then 0 else StartsRange(ptrs, t, l - 1, Mul(q, ptrs), Below(ptrs, t, l, q + 1), x)) + One(t[l][q], x)
  }

  /** Where the children of node `q` begin, on the level below. */
  ghost function Below(ptrs: nat, t: Tree, l: nat, q: nat): (k: nat)
    requires 1 <= l < |t|
    ensures k <= |t[l - 1]|
  {
    if Mul(q, ptrs) <= |t[l - 1]| then Mul(q, ptrs) else |t[l - 1]|
  }

  ghost function StartsRange(ptrs: nat, t: Tree, l: nat, lo: nat, hi: nat, x: Addr): nat
    requires l < |t| && hi <= |t[l]|
    decreases l, 1, hi
  {
    if hi <= lo then 0 else StartsRange(ptrs, t, l, lo, hi - 1, x) + StartsUnder(ptrs, t, l, hi - 1, x)
  }

  lemma {:induction false} JoinRanges(ptrs: nat, t: Tree, l: nat, lo: nat, mid: nat, hi: nat, x: Addr)
    requires l < |t| && lo <= mid <= hi <= |t[l]|
    ensures StartsRange(ptrs, t, l, lo, hi, x) ==
            StartsRange(ptrs, t, l, lo, mid, x) + StartsRange(ptrs, t, l, mid, hi, x)
    decreases hi
  {
    if mid < hi {
      JoinRanges(ptrs, t, l, lo, mid, hi - 1, x);
    }
  }

  lemma {:induction false} RangeStarts(ptrs: nat, t: Tree, l: nat, hi: nat, x: Addr)
    requires Shape(ptrs, t) && l < |t| && hi <= |t[l]|
    ensures StartsRange(ptrs, t, l, 0, hi, x) ==
            Starts(t[l], hi, x) + if l == 0 then 0 else StartsRange(ptrs, t, l - 1, 0, Below(ptrs, t, l, hi), x)
    decreases hi
  {
    if hi > 0 {
      var q := hi - 1;
      RangeStarts(ptrs, t, l, q, x);
      if l > 0 {
        assert Filled(ptrs, t, l);
        MulMono(q, |t[l]| - 1, ptrs);
        MulMono(q, hi, ptrs);
        JoinRanges(ptrs, t, l - 1, 0, Mul(q, ptrs), Below(ptrs, t, l, hi), x);
      }
    }
  }

  /** The nodes under the top are all nodes. */
  lemma {:induction false} RangeAll(ptrs: nat, t: Tree, l: nat, x: Addr)
    requires Shape(ptrs, t) && l < |t|
    ensures StartsRange(ptrs, t, l, 0, |t[l]|, x) == AllStarts(t, l + 1, x)
  {
    RangeStarts(ptrs, t, l, |t[l]|, x);
    if l > 0 {
      assert Filled(ptrs, t, l);
      RangeAll(ptrs, t, l - 1, x);
    }
  }

  lemma TopStarts(ptrs: nat, t: Tree, x: Addr)
    requires Shape(ptrs, t)
    ensures StartsUnder(ptrs, t, |t| - 1, 0, x) == AllStarts(t, |t|, x)
  {
    RangeAll(ptrs, t, |t| - 1, x);
    assert StartsRange(ptrs, t, |t| - 1, 0, 0, x) == 0;
  }
}
