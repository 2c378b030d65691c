/** hp_get_new_block, hp_find_block and hp_free_level on a block, over its whole life. */
module HeapBlock {
  import opened Wrappers
  import opened BlockTree

  ghost predicate TreeOk(ptrs: nat, nodeSize: nat, t: Tree, mem: Memory, free: seq<nat>, last: seq<Addr>, root: Addr,
                         place: map<Addr, (nat, nat)>, first: nat, next: nat)
  {
    && Shape(ptrs, t) && Linked(ptrs, nodeSize, t, mem) && Apart(t, place, first, next) && Info(ptrs, t, free, last)
    && OneEach(t, first, next) && first <= next && root == t[|t| - 1][0] && root.off == 0
  }

  // ---------------------------------------------------------------- the level for a new block

  /** Full levels multiply up. */
  lemma {:induction false} FullCount(ptrs: nat, t: Tree, l: nat)
    requires l < |t| && forall m: nat | 1 <= m <= l :: Full(ptrs, t, m)
    ensures |t[0]| == Mul(|t[l]|, Capacity(ptrs, 1, l))
  {
    if l == 0 {
      MulIs(|t[0]|, 1);
    } else {
      FullCount(ptrs, t, l - 1);
      assert Full(ptrs, t, l);
      MulAssoc(|t[l]|, ptrs, Capacity(ptrs, 1, l - 1));
    }
  }

  /** The search for the first level with a free slot. */
  method FindLevel(ptrs: nat, levels: nat, free: seq<nat>, ghost last: seq<Addr>, ghost t: Tree, ghost maxLevels: nat)
    returns (i: nat)
    requires levels == |t| && Shape(ptrs, t) && Info(ptrs, t, free, last) && |t[0]| < Capacity(ptrs, 1, maxLevels) &&
             |t| <= maxLevels + 1
    ensures FreeAt(ptrs, t, i) && i <= maxLevels
  {
    i := 0;
    while i < levels && free[i] == 0
      invariant i <= levels
      invariant forall l: nat | 1 <= l < i :: Full(ptrs, t, l)
    {
      assert i >= 1 ==> Filled(ptrs, t, i) && SlotsLeft(ptrs, t, free, i);
      i := i + 1;
    }
    assert 1 <= i < levels ==> SlotsLeft(ptrs, t, free, i);
    if i == levels {
      FullCount(ptrs, t, levels - 1);
      MulIs(1, Capacity(ptrs, 1, levels - 1));
    }
  }

  // ---------------------------------------------------------------- the chain of new nodes

  lemma ChainCons(a: seq<Addr>, nodeSize: nat)
    requires a != [] && Chain(a, nodeSize)
    ensures Chain([Next(a[0], nodeSize)] + a, nodeSize)
  {
    var a' := [Next(a[0], nodeSize)] + a;
    forall l: nat | 1 <= l < |a'|
      ensures InChain(a', nodeSize, l)
    {
      if l > 1 {
        assert InChain(a, nodeSize, l - 1);
      }
    }
  }

  /** Cells outside the new memory are kept. */
  ghost predicate Untouched(mem: Memory, mem': Memory, at: Addr) {
    forall c | c in mem && (c.0.chunk != at.chunk || c.0.off < at.off) :: c in mem' && mem'[c] == mem[c]
  }

  /** The chain `a` has been added below level `i`, from `at` on. */
  ghost predicate ChainAdded(i: nat, at: Addr, ptrs: nat, nodeSize: nat, mem: Memory, free: seq<nat>, last: seq<Addr>,
                             mem': Memory, free': seq<nat>, last': seq<Addr>, a: seq<Addr>)
  {
    && |a| == i >= 1 && a[i - 1] == at && Chain(a, nodeSize) && |free'| == |last'| == |last| == |free|
    && (forall l | 0 <= l < |last| :: last'[l] == if l < i then a[l] else last[l])
    && (forall l | 0 <= l < |free| :: free'[l] == if 1 <= l < i then ptrs - 1 else free[l])
    && (forall l | 1 <= l < i :: (a[l], 0) in mem' && mem'[(a[l], 0)] == a[l - 1])
    && Untouched(mem, mem', at)
  }

  /** The loop that adds a subtree with one leftmost child per node, from level `i - 1` down to a leaf. */
  method AddChain(i: nat, at0: Addr, ptrs: nat, nodeSize: nat, mem0: Memory, free0: seq<nat>, last0: seq<Addr>)
    returns (mem: Memory, free: seq<nat>, last: seq<Addr>, ghost a: seq<Addr>)
    requires 1 <= i <= |free0| == |last0| && ptrs >= 1 && nodeSize >= 1
    ensures ChainAdded(i, at0, ptrs, nodeSize, mem0, free0, last0, mem, free, last, a)
  {
    mem, free, last, a := mem0, free0, last0, [at0];
    var at, j := at0, i - 1;
    while j > 0
      invariant 0 <= j < i && ChainPart(i, j, at0, nodeSize, mem0, mem, a) && a[0] == at
      invariant LevelsPart(i, j, ptrs, free0, last0, free, last, a)
    {
      last := last[j := at];
      at := Next(at, nodeSize);
      ChainMore(i, j, at0, nodeSize, mem0, mem, a);
      LevelsMore(i, j, ptrs, free0, last0, free, last, a, at);
      mem := mem[(last[j], 0) := at];
      free := free[j := ptrs - 1];
      a, j := [at] + a, j - 1;
    }
    last := last[0 := at];
  }

  /** The nodes down to level `j` are chained, from `at0` on. */
  ghost predicate ChainPart(i: nat, j: nat, at0: Addr, nodeSize: nat, mem0: Memory, mem: Memory, a: seq<Addr>) {
    && j < i && |a| == i - j && a[i - 1 - j] == at0 && Chain(a, nodeSize)
    && (forall k | 0 <= k < |a| :: a[k].chunk == at0.chunk && at0.off <= a[k].off <= a[0].off)
    && (forall k | 1 <= k < |a| :: (a[k], 0) in mem && mem[(a[k], 0)] == a[k - 1] && a[k].off < a[0].off)
    && Untouched(mem0, mem, at0)
  }

  lemma ChainMore(i: nat, j: nat, at0: Addr, nodeSize: nat, mem0: Memory, mem: Memory, a: seq<Addr>)
    requires j > 0 && nodeSize >= 1 && ChainPart(i, j, at0, nodeSize, mem0, mem, a)
    ensures var at := Next(a[0], nodeSize);
            ChainPart(i, j - 1, at0, nodeSize, mem0, mem[(a[0], 0) := at], [at] + a)
  {
    ChainCons(a, nodeSize);
  }

  /** level_info is set down to level `j`. */
  ghost predicate LevelsPart(i: nat, j: nat, ptrs: nat, free0: seq<nat>, last0: seq<Addr>, free: seq<nat>,
                             last: seq<Addr>, a: seq<Addr>)
  {
    && j < i && |a| == i - j && |free| == |last| == |last0| == |free0|
    && (forall l | 0 <= l < |last| :: last[l] == if j < l < i then a[l - j] else last0[l])
    && (forall l | 0 <= l < |free| :: free[l] == if j < l < i then ptrs - 1 else free0[l])
  }

  lemma LevelsMore(i: nat, j: nat, ptrs: nat, free0: seq<nat>, last0: seq<Addr>, free: seq<nat>, last: seq<Addr>,
                   a: seq<Addr>, at: Addr)
    requires 0 < j < i <= |last0| && ptrs >= 1 && |a| == i - j && |last| == |last0| && last[j] == a[0]
    requires LevelsPart(i, j, ptrs, free0, last0, free, last[j := last0[j]], a)
    ensures LevelsPart(i, j - 1, ptrs, free0, last0, free[j := ptrs - 1], last, [at] + a)
  {
    var before := last[j := last0[j]];
    forall l | 0 <= l < |last|
      ensures last[l] == if j - 1 < l < i then ([at] + a)[l - (j - 1)] else last0[l]
    {
      assert l != j ==> last[l] == before[l];
    }
  }

  // ---------------------------------------------------------------- the new tree

  /** The tree with the chain `a` below level `i`. */
  ghost function Grown(t: Tree, i: nat, a: seq<Addr>, base: Addr): (t': Tree)
    requires 1 <= i <= |t| && |a| == i
    ensures |t'| == if i == |t| then |t| + 1 else |t|
    ensures forall l | 0 <= l < |t'| :: t'[l] == if l < i then t[l] + [a[l]] else if l < |t| then t[l] else [base]
  {
    seq(if i == |t| then |t| + 1 else |t|, l requires 0 <= l =>
      if l < i then t[l] + [a[l]] else if l < |t| then t[l] else [base])
  }

  /** level_info after the allocation. */
  ghost predicate InfoSet(ptrs: nat, t: Tree, free: seq<nat>, last: seq<Addr>, free': seq<nat>, last': seq<Addr>,
                          i: nat, a: seq<Addr>, base: Addr)
    requires 1 <= i <= |t| <= |free| == |last| && |a| == i
  {
    && i < |free| && |free'| == |last'| == |last|
    && (forall l | 0 <= l < |last| :: last'[l] == if l < i then a[l] else if l == i == |t| then base else last[l])
    && (forall l | 0 <= l < |free| && l != i :: free'[l] == if 1 <= l < i then ptrs - 1 else free[l])
    && free'[i] + 1 == if i == |t| then ptrs - 1 else free[i]
  }

  lemma InfoGrows(ptrs: nat, t: Tree, free: seq<nat>, last: seq<Addr>, free': seq<nat>, last': seq<Addr>,
                  i: nat, a: seq<Addr>, base: Addr)
    requires Shape(ptrs, t) && Info(ptrs, t, free, last) && FreeAt(ptrs, t, i) && |a| == i
    requires InfoSet(ptrs, t, free, last, free', last', i, a, base)
    ensures Info(ptrs, Grown(t, i, a, base), free', last')
  {
    var t' := Grown(t, i, a, base);
    forall l: nat | 1 <= l < |t'|
      ensures SlotsLeft(ptrs, t', free', l)
    {
      if l == |t| {
        assert Mul(1, ptrs) == ptrs + Mul(0, ptrs);
      } else {
        assert SlotsLeft(ptrs, t, free, l);
        assert l < i ==> Full(ptrs, t, l);
        SlotsAfter(ptrs, t, t', free, free', l, if l < i then 1 else 0, if l <= i then 1 else 0);
      }
    }
  }

  /** One more node on this level or the one below. */
  lemma SlotsAfter(ptrs: nat, t: Tree, t': Tree, free: seq<nat>, free': seq<nat>, l: nat, dn: nat, db: nat)
    requires 1 <= l < |t| <= |free| && l < |t'| <= |free'| && dn <= 1 && SlotsLeft(ptrs, t, free, l)
    requires |t'[l]| == |t[l]| + dn && |t'[l - 1]| == |t[l - 1]| + db &&
             free'[l] == free[l] + (if dn == 1 then ptrs else 0) - db
    ensures SlotsLeft(ptrs, t', free', l)
  {
  }

  /** The invariant after the allocation. */
  lemma TreeGrows(ptrs: nat, nodeSize: nat, t: Tree, mem: Memory, free: seq<nat>, last: seq<Addr>, root: Addr,
                  place: map<Addr, (nat, nat)>, first: nat, next: nat,
                  mem': Memory, free': seq<nat>, last': seq<Addr>, root': Addr, i: nat, a: seq<Addr>)
    requires TreeOk(ptrs, nodeSize, t, mem, free, last, root, place, first, next) && nodeSize >= 1 && FreeAt(ptrs, t, i)
    requires |a| == i && Grows(nodeSize, t, Grown(t, i, a, Addr(next, 0)), i, a, Addr(next, 0))
    requires Writes(ptrs, t, mem, mem', i, a, Addr(next, 0))
    requires InfoSet(ptrs, t, free, last, free', last', i, a, Addr(next, 0))
    requires root' == if i == |t| then Addr(next, 0) else root
    ensures TreeOk(ptrs, nodeSize, Grown(t, i, a, Addr(next, 0)), mem', free', last', root',
                   place + NewPlaces(t, i, a, Addr(next, 0)), first, next + 1)
  {
    var base := Addr(next, 0);
    var t' := Grown(t, i, a, base);
    ShapeGrows(ptrs, nodeSize, t, t', i, a, base);
    LinkedGrows(ptrs, nodeSize, t, t', mem, mem', i, a, base, place, first);
    ApartGrows(nodeSize, t, t', i, a, base, place, first);
    InfoGrows(ptrs, t, free, last, free', last', i, a, base);
    OneEachGrows(nodeSize, t, t', i, a, base, first);
  }

  /** The first block after the creation or a clear. */
  lemma FirstTree(ptrs: nat, nodeSize: nat, mem: Memory, free: seq<nat>, last: seq<Addr>, next: nat)
    requires ptrs >= 2 && 1 <= |free| == |last| && free[0] == 0
    ensures var base := Addr(next, 0);
            TreeOk(ptrs, nodeSize, [[base]], mem, free, last[0 := base], base, map[base := (0, 0)], next, next + 1)
  {
    var base := Addr(next, 0);
    var t := [[base]];
    forall x
      ensures AllStarts(t, 1, x) == if IsChunk(next, next + 1, x) then 1 else 0
    {
      assert Starts([base], 1, x) == Starts([base], 0, x) + One(base, x);
    }
  }

  /** What hp_get_new_block writes to the nodes. */
  lemma WritesAre(ptrs: nat, nodeSize: nat, t: Tree, mem: Memory, free: seq<nat>, last: seq<Addr>,
                  place: map<Addr, (nat, nat)>, first: nat, next: nat, i: nat, a: seq<Addr>, mem1: Memory,
                  mem': Memory, slot: nat)
    requires Shape(ptrs, t) && Info(ptrs, t, free, last) && Apart(t, place, first, next) && FreeAt(ptrs, t, i) &&
             |a| == i
    requires nodeSize >= 1 && a[i - 1] == if i == |t| then Next(Addr(next, 0), nodeSize) else Addr(next, 0)
    requires i < |t| ==> slot == ptrs - free[i]
    requires mem1 == if i == |t| then mem[(Addr(next, 0), 0) := t[i - 1][0]][(Addr(next, 0), 1) := a[i - 1]]
                     else mem[(last[i], slot) := a[i - 1]]
    requires Untouched(mem1, mem', a[i - 1])
    requires forall l | 1 <= l < i :: (a[l], 0) in mem' && mem'[(a[l], 0)] == a[l - 1]
    ensures Writes(ptrs, t, mem, mem', i, a, Addr(next, 0))
  {
    if i < |t| {
      assert Filled(ptrs, t, i) && SlotsLeft(ptrs, t, free, i);
      assert At(t, place, first, next, i, |t[i]| - 1);
    }
  }

  lemma Chunk(a: seq<Addr>, nodeSize: nat, at: Addr)
    requires a != [] && Chain(a, nodeSize) && nodeSize >= 1 && a[|a| - 1] == at
    ensures a[0].chunk == at.chunk
  {
    if |a| > 1 {
      ChainOffsets(a, nodeSize, 0, |a| - 1);
    }
  }

  /** The slot on level `i` has been filled with `at`, after a new top was put on if there was no such level. */
  ghost predicate SlotTaken(ptrs: nat, nodeSize: nat, i: nat, base: Addr, mem: Memory, free: seq<nat>, last: seq<Addr>,
                            root: Addr, t: Tree, at: Addr, free': seq<nat>, last': seq<Addr>, mem': Memory, root': Addr)
  {
    && 1 <= i <= |t| && i < |free| == |last| && t[|t| - 1] != []
    && if i == |t|
       then
         && ptrs >= 2 && free' == free[i := ptrs - 2] && last' == last[i := base] && root' == base &&
            at == Next(base, nodeSize)
         && mem' == mem[(base, 0) := t[i - 1][0]][(base, 1) := at]
       else
         && 1 <= free[i] <= ptrs && free' == free[i := free[i] - 1] && last' == last && root' == root && at == base
         && mem' == mem[(last[i], ptrs - free[i]) := at]
  }

  method TakeSlot(ptrs: nat, nodeSize: nat, i: nat, levels: nat, base: Addr, mem: Memory, free: seq<nat>,
                  last: seq<Addr>, root: Addr, ghost t: Tree)
    returns (at: Addr, free': seq<nat>, last': seq<Addr>, mem': Memory, root': Addr)
    requires Shape(ptrs, t) && Info(ptrs, t, free, last) && FreeAt(ptrs, t, i) && i < |free| && levels == |t| &&
             root == t[|t| - 1][0]
    ensures SlotTaken(ptrs, nodeSize, i, base, mem, free, last, root, t, at, free', last', mem', root')
  {
    assert i < |t| ==> Filled(ptrs, t, i) && SlotsLeft(ptrs, t, free, i);
    at, free', last', mem', root' := base, free, last, mem, root;
    if i == levels {
      free' := free'[i := ptrs - 1];
      mem' := mem'[(base, 0) := root];
      root' := base;
      last' := last'[i := base];
      at := Next(at, nodeSize);
    }
    mem' := mem'[(last'[i], ptrs - free'[i]) := at];
    free' := free'[i := free'[i] - 1];
  }

  /** The invariant after hp_get_new_block. */
  lemma Attached(ptrs: nat, nodeSize: nat, t: Tree, mem: Memory, free: seq<nat>, last: seq<Addr>, root: Addr,
                 place: map<Addr, (nat, nat)>, first: nat, next: nat, i: nat, at: Addr, mem1: Memory, free1: seq<nat>,
                 last1: seq<Addr>, root1: Addr, mem2: Memory, free2: seq<nat>, last2: seq<Addr>, a: seq<Addr>)
    requires TreeOk(ptrs, nodeSize, t, mem, free, last, root, place, first, next) && nodeSize >= 1 && FreeAt(ptrs, t, i)
    requires SlotTaken(ptrs, nodeSize, i, Addr(next, 0), mem, free, last, root, t, at, free1, last1, mem1, root1)
    requires ChainAdded(i, at, ptrs, nodeSize, mem1, free1, last1, mem2, free2, last2, a)
    ensures |last2| == |last| && |free2| == |free| && free2[0] == free[0] && last2[0].chunk == next
    ensures Grown(t, i, a, Addr(next, 0))[0] == t[0] + [last2[0]]
    ensures Grows(nodeSize, t, Grown(t, i, a, Addr(next, 0)), i, a, Addr(next, 0))
    ensures TreeOk(ptrs, nodeSize, Grown(t, i, a, Addr(next, 0)), mem2, free2, last2, root1,
                   place + NewPlaces(t, i, a, Addr(next, 0)), first, next + 1)
  {
    var slot: nat := if i < |t| then ptrs - free[i] else 1;
    Chunk(a, nodeSize, at);
    WritesAre(ptrs, nodeSize, t, mem, free, last, place, first, next, i, a, mem1, mem2, slot);
    TreeGrows(ptrs, nodeSize, t, mem, free, last, root, place, first, next, mem2, free2, last2, root1, i, a);
  }

  method AttachBlock(ptrs: nat, nodeSize: nat, i: nat, next: nat, mem: Memory, free: seq<nat>, last: seq<Addr>,
                     root: Addr, levels: nat, ghost t: Tree, ghost place: map<Addr, (nat, nat)>, ghost first: nat)
    returns (mem': Memory, free': seq<nat>, last': seq<Addr>, root': Addr, levels': nat,
             ghost t': Tree, ghost place': map<Addr, (nat, nat)>, ghost a: seq<Addr>)
    requires TreeOk(ptrs, nodeSize, t, mem, free, last, root, place, first, next) && nodeSize >= 1 && FreeAt(ptrs, t, i)
    requires i < |free| && levels == |t|
    ensures TreeOk(ptrs, nodeSize, t', mem', free', last', root', place', first, next + 1)
    ensures |last'| == |last| && |free'| == |free| && levels' == |t'| && last'[0].chunk == next
    ensures t'[0] == t[0] + [last'[0]] && Grows(nodeSize, t, t', i, a, Addr(next, 0))
  {
    var base := Addr(next, 0);
    var at, free1, last1, mem1;
    at, free1, last1, mem1, root' := TakeSlot(ptrs, nodeSize, i, levels, base, mem, free, last, root, t);
    mem', free', last', a := AddChain(i, at, ptrs, nodeSize, mem1, free1, last1);
    Attached(ptrs, nodeSize, t, mem, free, last, root, place, first, next, i, at, mem1, free1, last1, root', mem',
             free', last', a);
    t', place' := Grown(t, i, a, base), place + NewPlaces(t, i, a, base);
    levels' := if i == levels then i + 1 else levels;
  }

  // ---------------------------------------------------------------- the memory of a chunk

  /** `width` bytes at `x` are inside its chunk, one of the first `next` chunks. */
  ghost predicate Fits(sizes: map<nat, nat>, next: nat, x: Addr, width: nat) {
    x.chunk < next && x.chunk in sizes && x.off + width <= sizes[x.chunk]
  }

  /** All nodes and leaves are inside their chunks. */
  ghost predicate Inside(t: Tree, sizes: map<nat, nat>, nodeSize: nat, leafSize: nat, next: nat) {
    forall l: nat, q: nat | l < |t| && q < |t[l]| ::
      Fits(sizes, next, t[l][q], if l == 0 then leafSize else nodeSize)
  }

  /** What hp_get_new_block allocates when level `i` has a free slot. */
  function AllocLength(i: nat, nodeSize: nat, leafSize: nat): nat {
    Mul(i, nodeSize) + leafSize
  }

  /** How far a node of the chain is from its upper end. */
  lemma {:induction false} ChainAt(a: seq<Addr>, nodeSize: nat, l: nat)
    requires Chain(a, nodeSize) && l < |a|
    ensures a[l].chunk == a[|a| - 1].chunk && a[l].off == a[|a| - 1].off + Mul(|a| - 1 - l, nodeSize)
    decreases |a| - l
  {
    if l < |a| - 1 {
      assert InChain(a, nodeSize, l + 1);
      ChainAt(a, nodeSize, l + 1);
    }
  }

  /** The new nodes and the leaf behind them are inside the memory allocated for them. */
  lemma ChainFits(nodeSize: nat, leafSize: nat, t: Tree, t': Tree, i: nat, a: seq<Addr>, base: Addr,
                  sizes: map<nat, nat>, l: nat)
    requires Grows(nodeSize, t, t', i, a, base) && l < i
    requires base.chunk in sizes && sizes[base.chunk] == AllocLength(i, nodeSize, leafSize)
    ensures Fits(sizes, base.chunk + 1, a[l], if l == 0 then leafSize else nodeSize)
  {
    ChainAt(a, nodeSize, l);
    MulLe(i - 1 - l, i - 1, nodeSize);
    if l > 0 {
      MulLe(i - l, i - 1, nodeSize);
    }
    assert Mul(i, nodeSize) == nodeSize + Mul(i - 1, nodeSize);
  }

  lemma {:induction false} MulLe(a: nat, b: nat, c: nat)
    requires a <= b
    ensures Mul(a, c) <= Mul(b, c)
    decreases b
  {
    if a < b {
      MulLe(a, b - 1, c);
    }
  }

  lemma InsideGrows(nodeSize: nat, leafSize: nat, t: Tree, t': Tree, i: nat, a: seq<Addr>, next: nat,
                    sizes: map<nat, nat>)
    requires Grows(nodeSize, t, t', i, a, Addr(next, 0)) && Inside(t, sizes, nodeSize, leafSize, next)
    ensures Inside(t', sizes[next := AllocLength(i, nodeSize, leafSize)], nodeSize, leafSize, next + 1)
  {
    var sizes' := sizes[next := AllocLength(i, nodeSize, leafSize)];
    forall l: nat, q: nat | l < |t'| && q < |t'[l]|
      ensures Fits(sizes', next + 1, t'[l][q], if l == 0 then leafSize else nodeSize)
    {
      if l < |t| && q < |t[l]| {
        assert Fits(sizes, next, t[l][q], if l == 0 then leafSize else nodeSize);
      } else if l < i {
        ChainFits(nodeSize, leafSize, t, t', i, a, Addr(next, 0), sizes', l);
      } else {
        assert Mul(i, nodeSize) == nodeSize + Mul(i - 1, nodeSize);
      }
    }
  }

  /** A record of a leaf is inside the chunk. */
  lemma RecordFits(t: Tree, sizes: map<nat, nat>, nodeSize: nat, perBlock: nat, recbuffer: nat, next: nat, q: nat,
                   r: nat)
    requires Inside(t, sizes, nodeSize, Mul(perBlock, recbuffer), next) && t != [] && q < |t[0]| && r < perBlock
    ensures Fits(sizes, next, Addr(t[0][q].chunk, t[0][q].off + r * recbuffer), recbuffer)
  {
    assert Fits(sizes, next, t[0][q], Mul(perBlock, recbuffer));
    MulIs(r, recbuffer);
    MulLe(r + 1, perBlock, recbuffer);
  }

  lemma LastFits(t: Tree, sizes: map<nat, nat>, nodeSize: nat, leafSize: nat, next: nat, leaf: Addr)
    requires Inside(t, sizes, nodeSize, leafSize, next) && t != [] && t[0] != [] && t[0][|t[0]| - 1] == leaf
    ensures Fits(sizes, next, leaf, leafSize)
  {
  }

  /** The memory for a block and its place in the tree. */
  method AllocBlock(ptrs: nat, nodeSize: nat, leafSize: nat, i: nat, next: nat, mem: Memory, free: seq<nat>,
                    last: seq<Addr>, root: Addr, levels: nat, sizes: map<nat, nat>, ghost t: Tree,
                    ghost place: map<Addr, (nat, nat)>, ghost first: nat)
    returns (mem': Memory, free': seq<nat>, last': seq<Addr>, root': Addr, levels': nat, sizes': map<nat, nat>,
             length: nat, ghost t': Tree, ghost place': map<Addr, (nat, nat)>)
    requires TreeOk(ptrs, nodeSize, t, mem, free, last, root, place, first, next) && nodeSize >= 1 && FreeAt(ptrs, t, i)
    requires i < |free| && levels == |t| && Inside(t, sizes, nodeSize, leafSize, next)
    ensures TreeOk(ptrs, nodeSize, t', mem', free', last', root', place', first, next + 1)
    ensures |last'| == |last| && |free'| == |free| && levels' == |t'| && last'[0].chunk == next
    ensures t'[0] == t[0] + [last'[0]] && Inside(t', sizes', nodeSize, leafSize, next + 1)
    ensures sizes' == sizes[next := length] && length == AllocLength(i, nodeSize, leafSize)
    ensures last'[0].off + leafSize <= length
  {
    length := AllocLength(i, nodeSize, leafSize);
    sizes' := sizes[next := length];
    ghost var a;
    mem', free', last', root', levels', t', place', a :=
      AttachBlock(ptrs, nodeSize, i, next, mem, free, last, root, levels, t, place, first);
    InsideGrows(nodeSize, leafSize, t, t', i, a, next, sizes);
    LastFits(t', sizes', nodeSize, leafSize, next + 1, last'[0]);
  }

  // ---------------------------------------------------------------- freeing

  /** The number of children of node `q` on level `l` is what hp_free_level takes it for. */
  lemma ChildCount(ptrs: nat, t: Tree, free: seq<nat>, last: seq<Addr>, place: map<Addr, (nat, nat)>, first: nat,
                   next: nat, l: nat, q: nat)
    requires Shape(ptrs, t) && Info(ptrs, t, free, last) && Apart(t, place, first, next) && 1 <= l < |t| && q < |t[l]|
    ensures last[l] == t[l][q] <==> q == |t[l]| - 1
    ensures var n := if last[l] == t[l][q] then ptrs - free[l] else ptrs;
            0 <= n <= ptrs && Mul(q, ptrs) + n == Below(ptrs, t, l, q + 1)
  {
    assert Filled(ptrs, t, l) && SlotsLeft(ptrs, t, free, l);
    assert At(t, place, first, next, l, q) && At(t, place, first, next, l, |t[l]| - 1);
    MulMono(q + 1, |t[l]|, ptrs);
    if q < |t[l]| - 1 {
      MulMono(q + 1, |t[l]| - 1, ptrs);
    }
  }

  /** The start of the chunk that a node is in. */
  function ChunkOf(a: Addr): Addr {
    Addr(a.chunk, 0)
  }

  /** How often `x` is strictly under node `q` of level `l`. */
  ghost function StartsInside(ptrs: nat, t: Tree, l: nat, q: nat, x: Addr): nat
    requires l < |t| && q < |t[l]|
  {
    if l == 0 then 0 else StartsRange(ptrs, t, l - 1, Mul(q, ptrs), Below(ptrs, t, l, q + 1), x)
  }

  /** No chunk under the node is free yet, nor is its own, which does not start under it. */
  ghost predicate Unfreed(ptrs: nat, t: Tree, l: nat, q: nat, freed: seq<Addr>)
    requires l < |t| && q < |t[l]|
  {
    && (forall x :: multiset(freed)[x] + StartsUnder(ptrs, t, l, q, x) <= 1)
    && ChunkOf(t[l][q]) !in freed && StartsInside(ptrs, t, l, q, ChunkOf(t[l][q])) == 0
  }

  /** Reading a slot of a node that is not in freed memory. */
  method ReadSlot(mem: Memory, pos: Addr, i: nat, ghost freed: seq<Addr>) returns (a: Addr)
    requires (pos, i) in mem && ChunkOf(pos) !in freed
    ensures a == mem[(pos, i)]
  {
    a := mem[(pos, i)];
  }

  /** my_free of a chunk that is not free yet, at its start. */
  method FreeChunk(pos: Addr, freed: seq<Addr>) returns (freed': seq<Addr>)
    requires pos.off == 0 && pos !in freed
    ensures freed' == freed + [pos]
  {
    freed' := freed + [pos];
  }

  /** Since `freed0`, the chunks that start under the nodes from `lo` to `hi` were freed. */
  ghost predicate FreedSince(ptrs: nat, t: Tree, l: nat, lo: nat, hi: nat, freed0: seq<Addr>, freed: seq<Addr>)
    requires l < |t| && hi <= |t[l]|
  {
    forall x :: multiset(freed)[x] == multiset(freed0)[x] + StartsRange(ptrs, t, l, lo, hi, x)
  }

  lemma FreedNothing(ptrs: nat, t: Tree, l: nat, lo: nat, freed: seq<Addr>)
    requires l < |t| && lo <= |t[l]|
    ensures FreedSince(ptrs, t, l, lo, lo, freed, freed)
  {
    forall x
      ensures multiset(freed)[x] == multiset(freed)[x] + StartsRange(ptrs, t, l, lo, lo, x)
    {
      assert StartsRange(ptrs, t, l, lo, lo, x) == 0;
    }
  }

  lemma FreedOneMore(ptrs: nat, t: Tree, l: nat, lo: nat, hi: nat, freed0: seq<Addr>, freed: seq<Addr>,
                     freed': seq<Addr>)
    requires l < |t| && lo <= hi < |t[l]| && FreedSince(ptrs, t, l, lo, hi, freed0, freed)
    requires forall x :: multiset(freed')[x] == multiset(freed)[x] + StartsUnder(ptrs, t, l, hi, x)
    ensures FreedSince(ptrs, t, l, lo, hi + 1, freed0, freed')
  {
    forall x
      ensures multiset(freed')[x] == multiset(freed0)[x] + StartsRange(ptrs, t, l, lo, hi + 1, x)
    {
      assert StartsRange(ptrs, t, l, lo, hi + 1, x) ==
             StartsRange(ptrs, t, l, lo, hi, x) + StartsUnder(ptrs, t, l, hi, x);
      assert multiset(freed)[x] == multiset(freed0)[x] + StartsRange(ptrs, t, l, lo, hi, x);
    }
  }

  /** Before the first chunk is freed. */
  lemma TopUnfreed(ptrs: nat, t: Tree, first: nat, next: nat)
    requires Shape(ptrs, t) && OneEach(t, first, next) && t[|t| - 1][0].off == 0
    ensures Unfreed(ptrs, t, |t| - 1, 0, [])
    ensures forall x :: StartsUnder(ptrs, t, |t| - 1, 0, x) == if IsChunk(first, next, x) then 1 else 0
  {
    var root := t[|t| - 1][0];
    forall x
      ensures StartsUnder(ptrs, t, |t| - 1, 0, x) == if IsChunk(first, next, x) then 1 else 0
    {
      TopStarts(ptrs, t, x);
      assert AllStarts(t, |t|, x) == if IsChunk(first, next, x) then 1 else 0;
    }
    assert ChunkOf(root) == root;
    assert StartsUnder(ptrs, t, |t| - 1, 0, root) == StartsInside(ptrs, t, |t| - 1, 0, root) + 1;
    assert StartsUnder(ptrs, t, |t| - 1, 0, root) == if IsChunk(first, next, root) then 1 else 0;
    var none: seq<Addr> := [];
    forall x
      ensures multiset(none)[x] + StartsUnder(ptrs, t, |t| - 1, 0, x) <= 1
    {
      assert StartsUnder(ptrs, t, |t| - 1, 0, x) == if IsChunk(first, next, x) then 1 else 0;
    }
    assert Unfreed(ptrs, t, |t| - 1, 0, none);
  }

  /** What may be freed before a child is visited. */
  lemma ChildUnfreed(ptrs: nat, nodeSize: nat, t: Tree, mem: Memory, l: nat, q: nat, i: nat, freed0: seq<Addr>,
                     freed: seq<Addr>)
    requires Shape(ptrs, t) && Linked(ptrs, nodeSize, t, mem) && 1 <= l < |t| && q < |t[l]| &&
             Unfreed(ptrs, t, l, q, freed0)
    requires i < ptrs && Mul(q, ptrs) + i < Below(ptrs, t, l, q + 1)
    requires FreedSince(ptrs, t, l - 1, Mul(q, ptrs), Mul(q, ptrs) + i, freed0, freed)
    ensures Unfreed(ptrs, t, l - 1, Mul(q, ptrs) + i, freed) && ChunkOf(t[l][q]) !in freed
  {
    var lo, hi := Mul(q, ptrs), Below(ptrs, t, l, q + 1);
    var c, base := t[l - 1][lo + i], ChunkOf(t[l][q]);
    assert Child(ptrs, nodeSize, t, mem, l, q, i);
    forall x
      ensures multiset(freed)[x] + StartsUnder(ptrs, t, l - 1, lo + i, x) <=
              multiset(freed0)[x] + StartsInside(ptrs, t, l, q, x)
    {
      JoinRanges(ptrs, t, l - 1, lo, lo + i + 1, hi, x);
    }
    assert multiset(freed)[base] == 0;
    assert c.off == 0 ==> StartsUnder(ptrs, t, l - 1, lo + i, c) >= 1;
    assert multiset(freed)[c] + StartsUnder(ptrs, t, l - 1, lo + i, c) <= 1;
  }

  /**
   hp_free_level: frees the chunks that start at or under the node at `pos`, each once, at its start.
   `lastPos` is where a node in the same chunk as its parent would be.
   */
  method FreeLevel(ptrs: nat, nodeSize: nat, recbuffer: nat, mem: Memory, free: seq<nat>, last: seq<Addr>,
                   level: nat, pos: Addr, lastPos: Option<Addr>, freed0: seq<Addr>, ghost t: Tree, ghost q: nat,
                   ghost place: map<Addr, (nat, nat)>, ghost first: nat, ghost next: nat)
    returns (nextPtr: Option<Addr>, freed: seq<Addr>)
    requires Shape(ptrs, t) && Linked(ptrs, nodeSize, t, mem) && Info(ptrs, t, free, last) &&
             Apart(t, place, first, next)
    requires 1 <= level <= |t| && q < |t[level - 1]| && pos == t[level - 1][q] && recbuffer >= 1 && nodeSize >= 1
    requires if pos.off == 0 then lastPos.None? || lastPos.value.off > 0 else lastPos == Some(pos)
    requires Unfreed(ptrs, t, level - 1, q, freed0)
    ensures forall x :: multiset(freed)[x] == multiset(freed0)[x] + StartsUnder(ptrs, t, level - 1, q, x)
    ensures if pos.off == 0 then nextPtr == lastPos else nextPtr.Some? && nextPtr.value.off > 0
    decreases level, 2
  {
    freed := freed0;
    if level == 1 {
      nextPtr := Some(Addr(pos.chunk, pos.off + recbuffer));
    } else {
      nextPtr, freed := FreeChildren(ptrs, nodeSize, recbuffer, mem, free, last, level, pos, freed0, t, q, place,
                                     first, next);
    }
    if lastPos != Some(pos) {
      assert multiset(freed)[pos] == 0;
      freed := FreeChunk(pos, freed);
      return lastPos, freed;
    }
  }

  /** The loop of hp_free_level over the children of a node. */
  method FreeChildren(ptrs: nat, nodeSize: nat, recbuffer: nat, mem: Memory, free: seq<nat>, last: seq<Addr>,
                      level: nat, pos: Addr, freed0: seq<Addr>, ghost t: Tree, ghost q: nat,
                      ghost place: map<Addr, (nat, nat)>, ghost first: nat, ghost next: nat)
    returns (nextPtr: Option<Addr>, freed: seq<Addr>)
    requires Shape(ptrs, t) && Linked(ptrs, nodeSize, t, mem) && Info(ptrs, t, free, last) &&
             Apart(t, place, first, next)
    requires 2 <= level <= |t| && q < |t[level - 1]| && pos == t[level - 1][q] && recbuffer >= 1 && nodeSize >= 1
    requires Unfreed(ptrs, t, level - 1, q, freed0)
    ensures forall x :: multiset(freed)[x] == multiset(freed0)[x] + StartsInside(ptrs, t, level - 1, q, x)
    ensures nextPtr.Some? && nextPtr.value.off > 0
    decreases level, 1
  {
    freed := freed0;
    var l := level - 1;
    ChildCount(ptrs, t, free, last, place, first, next, l, q);
    var maxPos := if last[l] == pos then ptrs - free[l] else ptrs;
    nextPtr := Some(Next(pos, nodeSize));
    ghost var lo := Mul(q, ptrs);
    FreedNothing(ptrs, t, l - 1, lo, freed);
    for i := 0 to maxPos
      invariant nextPtr.Some? && nextPtr.value.off > 0
      invariant i <= Embedded(q) ==> nextPtr.value == Next(pos, nodeSize)
      invariant FreedSince(ptrs, t, l - 1, lo, lo + i, freed0, freed)
    {
      nextPtr, freed :=
        FreeChild(ptrs, nodeSize, recbuffer, mem, free, last, level, pos, i, nextPtr, freed0, freed, t, q, place,
                  first, next);
    }
  }

  /** One round of that loop. */
  method FreeChild(ptrs: nat, nodeSize: nat, recbuffer: nat, mem: Memory, free: seq<nat>, last: seq<Addr>,
                   level: nat, pos: Addr, i: nat, nextPtr: Option<Addr>, ghost freed0: seq<Addr>, freed: seq<Addr>,
                   ghost t: Tree, ghost q: nat, ghost place: map<Addr, (nat, nat)>, ghost first: nat, ghost next: nat)
    returns (nextPtr': Option<Addr>, freed': seq<Addr>)
    requires Shape(ptrs, t) && Linked(ptrs, nodeSize, t, mem) && Info(ptrs, t, free, last) &&
             Apart(t, place, first, next)
    requires 2 <= level <= |t| && q < |t[level - 1]| && pos == t[level - 1][q] && recbuffer >= 1 && nodeSize >= 1
    requires Unfreed(ptrs, t, level - 1, q, freed0) && i < ptrs && Mul(q, ptrs) + i < Below(ptrs, t, level - 1, q + 1)
    requires FreedSince(ptrs, t, level - 2, Mul(q, ptrs), Mul(q, ptrs) + i, freed0, freed)
    requires nextPtr.Some? && nextPtr.value.off > 0 && (i <= Embedded(q) ==> nextPtr.value == Next(pos, nodeSize))
    ensures nextPtr'.Some? && nextPtr'.value.off > 0 && (i < Embedded(q) ==> nextPtr' == nextPtr)
    ensures FreedSince(ptrs, t, level - 2, Mul(q, ptrs), Mul(q, ptrs) + i + 1, freed0, freed')
    decreases level, 0
  {
    ghost var k := Mul(q, ptrs) + i;
    assert Child(ptrs, nodeSize, t, mem, level - 1, q, i);
    ChildUnfreed(ptrs, nodeSize, t, mem, level - 1, q, i, freed0, freed);
    var child := ReadSlot(mem, pos, i, freed);
    nextPtr', freed' := FreeLevel(ptrs, nodeSize, recbuffer, mem, free, last, level - 1, child, nextPtr, freed, t, k,
                                  place, first, next);
    FreedOneMore(ptrs, t, level - 2, Mul(q, ptrs), k, freed0, freed, freed');
  }

  // ---------------------------------------------------------------- the block

  class HpBlock {
    const ptrs: nat
    const maxLevels: nat
    const nodeSize: nat
    const perBlock: nat
    const recbuffer: nat
    var under: seq<nat>
    var root: Addr
    var levels: nat
    var free: seq<nat>
    var last: seq<Addr>
    var mem: Memory
    var nextChunk: nat
    var sizes: map<nat, nat>
    ghost var tree: Tree
    ghost var place: map<Addr, (nat, nat)>
    ghost var firstChunk: nat

    ghost predicate Valid()
      reads this
    {
      && ptrs >= 2 && nodeSize >= 1 && perBlock >= 1 && recbuffer >= 1
      && |under| == |free| == |last| == maxLevels + 1 && Under(ptrs, perBlock, under) && free[0] == 0
      && levels == |tree| <= maxLevels + 1
      && (levels > 0 ==> TreeOk(ptrs, nodeSize, tree, mem, free, last, root, place, firstChunk, nextChunk))
      && Inside(tree, sizes, nodeSize, LeafSize(), nextChunk)
    }

    /** The bytes for the records of a leaf. */
    function LeafSize(): nat {
      Mul(perBlock, recbuffer)
    }

    /** The leaves in the order of their allocation. */
    ghost function Leaves(): seq<Addr>
      reads this
    {
      if tree == [] then [] else tree[0]
    }

    /** `free` is all zero when the share is created; the rest of level_info has no meaning yet. */
    constructor (ptrs: nat, maxLevels: nat, nodeSize: nat, perBlock: nat, recbuffer: nat, root: Addr, last: seq<Addr>,
                 nextChunk: nat)
      requires ptrs >= 2 && nodeSize >= 1 && perBlock >= 1 && recbuffer >= 1 && |last| == maxLevels + 1
      ensures Valid() && Leaves() == [] && this.ptrs == ptrs && this.maxLevels == maxLevels && this.perBlock == perBlock
      ensures this.recbuffer == recbuffer && this.nextChunk == nextChunk
    {
      var table := InitBlock(ptrs, perBlock, maxLevels);
      this.ptrs, this.maxLevels, this.nodeSize, this.perBlock, this.recbuffer := ptrs, maxLevels, nodeSize, perBlock,
        recbuffer;
      this.root, this.last, this.nextChunk := root, last, nextChunk;
      under, levels, mem, tree, sizes := table, 0, map[], [], map[];
      free := seq(maxLevels + 1, _ => 0);
    }

    /**
     hp_get_new_block, with fewer blocks than the levels have room for; returns the new leaf, and how much memory was
     allocated for it and the nodes above it: one more node size for every level up to `level`, the first with a free
     slot.
     */
    method GetNewBlock() returns (leaf: Addr, length: nat, ghost level: nat)
      requires Valid() && |Leaves()| < Capacity(ptrs, 1, maxLevels)
      modifies this
      ensures Valid() && Leaves() == old(Leaves()) + [leaf] && leaf.chunk == old(nextChunk)
      ensures nextChunk == old(nextChunk) + 1 && sizes == old(sizes)[leaf.chunk := length]
      ensures leaf.off + LeafSize() <= length && length == level * nodeSize + perBlock * recbuffer
      ensures if old(levels) == 0 then level == 0 else FreeAt(ptrs, old(tree), level)
      ensures old(levels) > 0 ==> firstChunk == old(firstChunk)
      ensures old(levels) == 0 ==> firstChunk == old(nextChunk)
    {
      var base := Addr(nextChunk, 0);
      if levels == 0 {
        FirstTree(ptrs, nodeSize, mem, free, last, nextChunk);
        levels, root, last := 1, base, last[0 := base];
        level, length := 0, AllocLength(0, nodeSize, LeafSize());
        sizes := sizes[nextChunk := length];
        tree, place, firstChunk, nextChunk := [[base]], map[base := (0, 0)], nextChunk, nextChunk + 1;
        leaf := base;
      } else {
        var i := FindLevel(ptrs, levels, free, last, tree, maxLevels);
        level := i;
        leaf, length := Attach(i);
      }
      MulIs(level, nodeSize);
      MulIs(perBlock, recbuffer);
    }

    /** The part of hp_get_new_block for a tree that has blocks already. */
    method Attach(i: nat) returns (leaf: Addr, length: nat)
      requires Valid() && levels > 0 && FreeAt(ptrs, tree, i) && i <= maxLevels
      modifies this`levels, this`root, this`free, this`last, this`mem, this`nextChunk, this`sizes
      modifies this`tree, this`place
      ensures Valid() && tree != [] && tree[0] == old(tree[0]) + [leaf]
      ensures leaf.chunk == old(nextChunk) && nextChunk == old(nextChunk) + 1
      ensures sizes == old(sizes)[leaf.chunk := length] && leaf.off + LeafSize() <= length
      ensures length == AllocLength(i, nodeSize, LeafSize())
    {
      var mem1, free1, last1, root1, levels1, sizes1;
      ghost var tree1, place1;
      mem1, free1, last1, root1, levels1, sizes1, length, tree1, place1 :=
        AllocBlock(ptrs, nodeSize, LeafSize(), i, nextChunk, mem, free, last, root, levels, sizes, tree, place,
                   firstChunk);
      leaf := last1[0];
      mem, free, last, root, levels, sizes := mem1, free1, last1, root1, levels1, sizes1;
      tree, place, nextChunk := tree1, place1, nextChunk + 1;
    }

    /** hp_find_block: record `pos` is in the leaf made by allocation `pos / perBlock`. */
    method Find(pos: nat) returns (a: Addr)
      requires Valid() && pos < Mul(|Leaves()|, perBlock)
      ensures pos / perBlock < |Leaves()|
      ensures var leaf := Leaves()[pos / perBlock]; a == Addr(leaf.chunk, leaf.off + (pos % perBlock) * recbuffer)
      ensures Fits(sizes, nextChunk, a, recbuffer)
    {
      a := FindBlock(ptrs, perBlock, recbuffer, under, mem, root, levels, pos, nodeSize, tree);
      RecordFits(tree, sizes, nodeSize, perBlock, recbuffer, nextChunk, pos / perBlock, pos % perBlock);
    }

    /** The part of hp_clear for a block: every chunk is freed exactly once, at its start. */
    method Clear() returns (freed: seq<Addr>)
      requires Valid()
      modifies this`levels, this`tree
      ensures Valid() && Leaves() == []
      ensures forall x :: multiset(freed)[x] ==
                          if old(levels) > 0 && IsChunk(firstChunk, nextChunk, x) then 1 else 0
    {
      freed := [];
      if levels > 0 {
        TopUnfreed(ptrs, tree, firstChunk, nextChunk);
        var end;
        end, freed := FreeLevel(ptrs, nodeSize, recbuffer, mem, free, last, levels, root, None, [], tree, 0, place,
                                firstChunk, nextChunk);
      }
      levels, tree := 0, [];
    }
  }
}
