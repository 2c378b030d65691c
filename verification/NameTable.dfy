/**
 The symbol table of the profile analyser: a binary search tree in an array, one node for every
 function name.
 */
module NameTable {
  import opened Wrappers

  // ---------------------------------------------------------------- names

  /** strcmp: negative, zero or positive. */
  function Compare(a: string, b: string): (r: int)
    ensures r == 0 <==> a == b
  {
    if a == [] then (if b == [] then 0 else -1)
    else if b == [] then 1
    else if a[0] != b[0] then a[0] as int - b[0] as int
    else
      assert a == [a[0]] + a[1..] && b == [b[0]] + b[1..];
      Compare(a[1..], b[1..])
  }

  predicate Less(a: string, b: string) {
    Compare(a, b) < 0
  }

  lemma {:induction false} CompareFlips(a: string, b: string)
    ensures Less(a, b) <==> Compare(b, a) > 0
  {
    if a != [] && b != [] && a[0] == b[0] {
      CompareFlips(a[1..], b[1..]);
    }
  }

  lemma {:induction false} LessTransitive(a: string, b: string, c: string)
    requires Less(a, b) && Less(b, c)
    ensures Less(a, c)
  {
    if a != [] && b != [] && c != [] && a[0] == b[0] == c[0] {
      LessTransitive(a[1..], b[1..], c[1..]);
    }
  }

  /** The names are alike up to `i`; there `a` ends, or has the smaller character. */
  ghost predicate DiffersAt(a: string, b: string, i: nat) {
    i <= |a| && i < |b| && a[..i] == b[..i] && (i < |a| ==> a[i] < b[i])
  }

  /** The order of the alphabet: the first character that differs decides, and a beginning comes first. */
  ghost predicate Alphabetic(a: string, b: string) {
    exists i: nat :: DiffersAt(a, b, i)
  }

  /** The names without their first characters, which are alike. */
  lemma DiffersLater(a: string, b: string, i: nat)
    requires a != [] && b != [] && a[0] == b[0]
    ensures DiffersAt(a, b, i + 1) <==> DiffersAt(a[1..], b[1..], i)
  {
    if i < |a| && i < |b| {
      assert a[..i + 1] == [a[0]] + a[1..][..i] && b[..i + 1] == [b[0]] + b[1..][..i];
      assert a[1..][..i] == a[..i + 1][1..] && b[1..][..i] == b[..i + 1][1..];
    }
  }

  /** strcmp says that `a` is less exactly if it comes first in the alphabet. */
  lemma {:induction false} LessExactly(a: string, b: string)
    ensures Less(a, b) <==> Alphabetic(a, b)
  {
    if a == [] || b == [] || a[0] != b[0] {
      assert Less(a, b) ==> DiffersAt(a, b, 0);
      assert forall i: nat | DiffersAt(a, b, i) && i > 0 :: a[..i][0] == b[..i][0];
    } else {
      LessExactly(a[1..], b[1..]);
      assert !DiffersAt(a, b, 0);
      forall i: nat
        ensures DiffersAt(a, b, i + 1) <==> DiffersAt(a[1..], b[1..], i)
      {
        DiffersLater(a, b, i);
      }
      if Alphabetic(a, b) {
        var i: nat :| DiffersAt(a, b, i);
        assert i > 0;
        assert DiffersAt(a[1..], b[1..], i - 1);
      }
    }
  }

  // ---------------------------------------------------------------- trees

  /** The table as a tree of positions. */
  datatype Tree = Leaf | Node(left: Tree, pos: nat, right: Tree)

  function Inorder(t: Tree): seq<nat> {
    match t
    case Leaf => []
    case Node(l, p, r) => Inorder(l) + [p] + Inorder(r)
  }

  ghost function Positions(t: Tree): set<nat> {
    match t
    case Leaf => {}
    case Node(l, p, r) => Positions(l) + {p} + Positions(r)
  }

  /** Every position occurs once. */
  ghost predicate Apart(t: Tree) {
    match t
    case Leaf => true
    case Node(l, p, r) =>
      Apart(l) && Apart(r) && p !in Positions(l) && p !in Positions(r) && Positions(l) !! Positions(r)
  }

  /** A search tree for the names. */
  ghost predicate Ordered(t: Tree, names: seq<string>) {
    match t
    case Leaf => true
    case Node(l, p, r) =>
      && p < |names| && Ordered(l, names) && Ordered(r, names)
      && (forall k | k in Positions(l) :: k < |names| && Less(names[k], names[p]))
      && (forall k | k in Positions(r) :: k < |names| && Less(names[p], names[k]))
  }

  /** Where the search for `name` ends: at its node, or at nothing. */
  function Search(t: Tree, names: seq<string>, name: string): Option<nat> {
    match t
    case Leaf => None
    case Node(l, p, r) =>
      if p >= |names| then None
      else if name == names[p] then Some(p)
      else if Less(name, names[p]) then Search(l, names, name)
      else Search(r, names, name)
  }

  /** The new node `n` at the place where the search ended. */
  function Insert(t: Tree, names: seq<string>, name: string, n: nat): Tree {
    match t
    case Leaf => Node(Leaf, n, Leaf)
    case Node(l, p, r) =>
      if p < |names| && Less(name, names[p]) then Node(Insert(l, names, name, n), p, r)
      else Node(l, p, Insert(r, names, name, n))
  }

  /** The node that gets the new one as its child. */
  function Parent(t: Tree, names: seq<string>, name: string): nat
    requires t.Node?
  {
    var next := if t.pos < |names| && Less(name, names[t.pos]) then t.left else t.right;
    if next.Leaf? then t.pos else Parent(next, names, name)
  }

  /** The search finds a name exactly when it is in the tree. */
  lemma {:induction false} SearchFinds(t: Tree, names: seq<string>, name: string)
    requires Ordered(t, names)
    ensures Search(t, names, name).Some? ==>
              var p := Search(t, names, name).value; p in Positions(t) && p < |names| && names[p] == name
    ensures Search(t, names, name).None? ==> forall k | k in Positions(t) :: k < |names| && names[k] != name
  {
    if t.Node? {
      CompareFlips(names[t.pos], name);
      SearchFinds(t.left, names, name);
      SearchFinds(t.right, names, name);
      if Search(t, names, name).None? {
        forall k | k in Positions(t)
          ensures names[k] != name
        {
        }
      }
    }
  }

  lemma {:induction false} InsertPositions(t: Tree, names: seq<string>, name: string, n: nat)
    requires n !in Positions(t)
    ensures Positions(Insert(t, names, name, n)) == Positions(t) + {n}
    ensures Apart(t) ==> Apart(Insert(t, names, name, n))
  {
    if t.Node? {
      if t.pos < |names| && Less(name, names[t.pos]) {
        InsertPositions(t.left, names, name, n);
      } else {
        InsertPositions(t.right, names, name, n);
      }
    }
  }

  lemma {:induction false} OrderedMore(t: Tree, names: seq<string>, name: string)
    requires Ordered(t, names)
    ensures Ordered(t, names + [name])
  {
    if t.Node? {
      OrderedMore(t.left, names, name);
      OrderedMore(t.right, names, name);
    }
  }

  lemma {:induction false} InsertOrdered(t: Tree, names: seq<string>, name: string)
    requires Ordered(t, names) && |names| !in Positions(t) && Search(t, names, name).None?
    ensures Ordered(Insert(t, names, name, |names|), names + [name])
  {
    var n, names' := |names|, names + [name];
    if t.Node? {
      CompareFlips(names[t.pos], name);
      OrderedMore(t.left, names, name);
      OrderedMore(t.right, names, name);
      if Less(name, names[t.pos]) {
        InsertOrdered(t.left, names, name);
        InsertPositions(t.left, names, name, n);
      } else {
        InsertOrdered(t.right, names, name);
        InsertPositions(t.right, names, name, n);
      }
    }
  }

  // ---------------------------------------------------------------- the array

  /** Node of the search tree; `none` stands for no child. */
  datatype Bnode = Bnode(lchild: nat, rchild: nat, pos: nat)

  /** The array holds the tree `t` from `root` on. */
  ghost predicate Holds(table: seq<Bnode>, none: nat, root: nat, t: Tree)
    decreases t
  {
    match t
    case Leaf => root == none
    case Node(l, p, r) =>
      && root == p < |table| && p != none && table[p].pos == p
      && Holds(table, none, table[p].lchild, l) && Holds(table, none, table[p].rchild, r)
  }

  lemma {:induction false} HoldsFrame(table: seq<Bnode>, table': seq<Bnode>, none: nat, root: nat, t: Tree)
    requires Holds(table, none, root, t) && |table| <= |table'|
    requires forall k | k in Positions(t) && k < |table| :: table'[k] == table[k]
    ensures Holds(table', none, root, t)
    decreases t
  {
    if t.Node? {
      HoldsFrame(table, table', none, table[t.pos].lchild, t.left);
      HoldsFrame(table, table', none, table[t.pos].rchild, t.right);
    }
  }

  lemma {:induction false} ParentIn(t: Tree, names: seq<string>, name: string)
    requires t.Node?
    ensures Parent(t, names, name) in Positions(t)
  {
    var next := if t.pos < |names| && Less(name, names[t.pos]) then t.left else t.right;
    if next.Node? {
      ParentIn(next, names, name);
    }
  }

  /** The array after the insertion below `p`. */
  function Linked(table: seq<Bnode>, none: nat, p: nat, left: bool): seq<Bnode>
    requires p < |table|
  {
    var n := |table|;
    table[p := if left then table[p].(lchild := n) else table[p].(rchild := n)] + [Bnode(none, none, n)]
  }

  lemma {:induction false} HoldsInsert(table: seq<Bnode>, none: nat, root: nat, t: Tree, names: seq<string>,
                                       name: string)
    requires t.Node? && Holds(table, none, root, t) && Apart(t) && |table| < none && |names| == |table|
    requires forall k | k in Positions(t) :: k < |table|
    ensures var p := Parent(t, names, name);
            p < |table| && Holds(Linked(table, none, p, Less(name, names[p])), none, root,
                                 Insert(t, names, name, |table|))
    decreases t
  {
    var n, p := |table|, Parent(t, names, name);
    ParentIn(t, names, name);
    var table' := Linked(table, none, p, Less(name, names[p]));
    var left := Less(name, names[t.pos]);
    var next, other := if left then t.left else t.right, if left then t.right else t.left;
    var otherRoot := if left then table[t.pos].rchild else table[t.pos].lchild;
    if next.Node? {
      ParentIn(next, names, name);
      HoldsInsert(table, none, if left then table[t.pos].lchild else table[t.pos].rchild, next, names, name);
    }
    assert p !in Positions(other);
    HoldsFrame(table, table', none, otherRoot, other);
  }

  // ---------------------------------------------------------------- the whole table

  /** The table of `names`, with its root at 0. */
  ghost predicate TableOk(names: seq<string>, table: seq<Bnode>, none: nat, t: Tree) {
    && |names| == |table| <= none && Holds(table, none, if table == [] then none else 0, t)
    && Apart(t) && Ordered(t, names) && forall k: nat :: k in Positions(t) <==> k < |names|
  }

  /** The search of add(): the position of the name, or the node for a new child and its side. */
  method Locate(names: seq<string>, table: seq<Bnode>, none: nat, name: string, ghost t: Tree)
    returns (ind: nat, found: bool, left: bool)
    requires TableOk(names, table, none, t) && table != []
    ensures ind < |names|
    ensures found <==> Search(t, names, name).Some?
    ensures if found then Search(t, names, name) == Some(ind)
            else ind == Parent(t, names, name) && left == Less(name, names[ind])
  {
    ind, left := 0, false;
    ghost var sub := t;
    while true
      invariant sub.Node? && Holds(table, none, ind, sub) && Ordered(sub, names)
      invariant Search(t, names, name) == Search(sub, names, name) && Parent(t, names, name) == Parent(sub, names, name)
      decreases sub
    {
      var cmp := Compare(name, names[ind]);
      if cmp == 0 {
        return ind, true, false;
      }
      left := cmp < 0;
      var child := if left then table[ind].lchild else table[ind].rchild;
      ghost var next := if left then sub.left else sub.right;
      assert child == none <==> next.Leaf?;
      if child == none {
        return ind, false, left;
      }
      ind, sub := child, next;
    }
  }

  /** A new name in the table. */
  lemma Extended(names: seq<string>, table: seq<Bnode>, none: nat, t: Tree, name: string)
    requires TableOk(names, table, none, t) && table != [] && |table| < none && Search(t, names, name).None?
    ensures var p := Parent(t, names, name);
            p < |table| && TableOk(names + [name], Linked(table, none, p, Less(name, names[p])), none,
                                   Insert(t, names, name, |names|))
  {
    HoldsInsert(table, none, 0, t, names, name);
    InsertOrdered(t, names, name);
    InsertPositions(t, names, name, |names|);
  }

  lemma FirstName(none: nat, name: string)
    requires none >= 1
    ensures TableOk([name], [Bnode(none, none, 0)], none, Node(Leaf, 0, Leaf))
  {
  }

  // ---------------------------------------------------------------- the report

  ghost function Size(t: Tree): nat {
    match t
    case Leaf => 0
    case Node(l, _, r) => Size(l) + 1 + Size(r)
  }

  ghost predicate InRange(t: Tree, n: nat) {
    match t
    case Leaf => true
    case Node(l, p, r) => p < n && InRange(l, n) && InRange(r, n)
  }

  lemma {:induction false} OrderedInRange(t: Tree, names: seq<string>)
    requires Ordered(t, names)
    ensures InRange(t, |names|)
  {
    if t.Node? {
      OrderedInRange(t.left, names);
      OrderedInRange(t.right, names);
    }
  }

  lemma {:induction false} InorderHas(t: Tree)
    ensures forall k: nat :: k in Inorder(t) <==> k in Positions(t)
  {
    if t.Node? {
      InorderHas(t.left);
      InorderHas(t.right);
    }
  }

  /** The names come out in strictly increasing order. */
  lemma {:induction false} InorderSorted(t: Tree, names: seq<string>, i: nat, j: nat)
    requires Ordered(t, names) && i < j < |Inorder(t)|
    ensures var s := Inorder(t); s[i] < |names| && s[j] < |names| && Less(names[s[i]], names[s[j]])
    ensures Alphabetic(names[Inorder(t)[i]], names[Inorder(t)[j]])
  {
    var l, p, r := Inorder(t.left), t.pos, Inorder(t.right);
    var s := Inorder(t);
    InorderHas(t.left);
    InorderHas(t.right);
    assert s == l + [p] + r;
    if j < |l| {
      InorderSorted(t.left, names, i, j);
    } else if i > |l| {
      InorderSorted(t.right, names, i - |l| - 1, j - |l| - 1);
    } else {
      assert i < |l| ==> l[i] in l;
      assert j > |l| ==> r[j - |l| - 1] in r;
      if i < |l| < j {
        LessTransitive(names[s[i]], names[p], names[s[j]]);
      }
    }
    LessExactly(names[s[i]], names[s[j]]);
  }

  /** add() on the table: the position of the name, which is put in if it is new; none if the table is full. */
  method AddName(names: seq<string>, table: seq<Bnode>, none: nat, name: string, ghost t: Tree)
    returns (pos: Option<nat>, table': seq<Bnode>, ghost t': Tree)
    requires TableOk(names, table, none, t) && none >= 1
    ensures pos.None? <==> name !in names && |names| == none
    ensures pos.None? || name in names ==> table' == table && t' == t
    ensures name in names ==> pos.Some? && pos.value < |names| && names[pos.value] == name
    ensures name !in names && pos.Some? ==> pos == Some(|names|) && TableOk(names + [name], table', none, t')
  {
    SearchFinds(t, names, name);
    assert forall k: nat | k < |names| :: k in Positions(t);
    table', t' := table, t;
    if |names| == 0 {
      FirstName(none, name);
      assert names + [name] == [name];
      return Some(0), [Bnode(none, none, 0)], Node(Leaf, 0, Leaf);
    }
    var ind, found, left := Locate(names, table, none, name, t);
    if found {
      return Some(ind), table, t;
    }
    if |names| >= none {
      return None, table, t;
    }
    Extended(names, table, none, t, name);
    return Some(|names|), Linked(table, none, ind, left), Insert(t, names, name, |names|);
  }
}
