/**
 The profile analyser: from records of function entries and exits, the time spent in every
 function.  No time is lost or counted twice, also when exits are missing or have no entry.
 */
module Profiler {
  import opened Wrappers
  import opened NameTable
  import opened ProfileLedger
  import opened StackMarks

  const STACKSIZ := 100
  const MAXPROCS := 10000

  /** How processing ends: regularly, or the program gives up. */
  datatype Status = Ok | StackOverflow | TooManyFunctions

  /** Whether the functions open and the functions at all fit after the records. */
  ghost function StatusOf(records: seq<Record>): Status {
    if |FunctionsOf(records)| > MAXPROCS then TooManyFunctions
    else if |RefOf(records).open| > STACKSIZ then StackOverflow
    else Ok
  }

  /** They fit after the first `i` records. */
  ghost predicate Fits(records: seq<Record>, i: nat) {
    i <= |records| && StatusOf(records[..i]).Ok?
  }

  ghost predicate FitUpto(records: seq<Record>, n: nat) {
    forall i: nat {:trigger Fits(records, i)} | i <= n :: Fits(records, i)
  }

  /** At no time are there more functions open, or more functions at all, than fit. */
  ghost predicate Manageable(records: seq<Record>) {
    FitUpto(records, |records|)
  }

  /** The program gives up with `status` at the first record behind which they do not fit. */
  ghost predicate GivesUp(records: seq<Record>, status: Status) {
    exists i: nat ::
      i < |records| && FitUpto(records, i) && !Fits(records, i + 1) && status == StatusOf(records[..i + 1])
  }

  lemma FitsNext(records: seq<Record>, i: nat, status: Status)
    requires i < |records| && FitUpto(records, i) && status == StatusOf(records[..i] + [records[i]])
    ensures status.Ok? ==> FitUpto(records, i + 1)
    ensures !status.Ok? ==> GivesUp(records, status) && !Manageable(records)
  {
    assert records[..i + 1] == records[..i] + [records[i]];
    assert status.Ok? <==> Fits(records, i + 1);
  }

  lemma StatusStep(records: seq<Record>, r: Record)
    requires StatusOf(records).Ok?
    ensures StatusOf(records + [r]) ==
            if !r.Unknown? && !Occurs(records, r.name) && |FunctionsOf(records)| == MAXPROCS then TooManyFunctions
            else if |Follow(RefOf(records), r).open| <= STACKSIZ then Ok
            else StackOverflow
  {
    OneMoreRecord(records, r, "");
  }

  lemma LastTime(records: seq<Record>, r: Record)
    ensures RefOf(records + [r]).last == if r.Enter? || r.Exit? then r.time else RefOf(records).last
  {
    OneMoreRecord(records, r, "");
  }

  /** What the report is to say about the function `f`. */
  ghost function ModuleOf(records: seq<Record>, f: string): Module {
    var acc := AccountOf(records, f);
    Module(f, acc.time, acc.calls, acc.use)
  }

  // ---------------------------------------------------------------- the analyser

  class Analyser {
    const stack: array<Frame>
    var stacktop: nat
    var totTime: int
    var totCalls: int
    var highstack: nat
    var lowstack: nat
    var modules: seq<Module>
    var table: seq<Bnode>
    ghost var tree: Tree
    ghost var seen: seq<Record>

    /** The symbol table, and the stack within its bounds. */
    ghost predicate Tabled()
      reads this
    {
      && stack.Length == STACKSIZ + 1 && stacktop <= STACKSIZ
      && TableOk(Names(modules), table, MAXPROCS, tree)
    }

    /** The books are those of the records seen. */
    ghost predicate Valid()
      reads this, stack
    {
      Tabled() && Books(stack[..stacktop + 1], modules, totTime, totCalls, seen, seen)
    }

    /** The record `r` is at hand, and its function has the module at `pos`. */
    ghost predicate Ready(r: Record, pos: nat)
      reads this, stack
    {
      && Tabled() && !r.Unknown? && pos < |modules| && modules[pos].name == r.name
      && Books(stack[..stacktop + 1], modules, totTime, totCalls, seen, seen + [r])
    }

    /** The books with `accs` as what all functions are to get. */
    ghost predicate Kept(last: int, accs: seq<Account>, idle: int, calls: int)
      reads this, stack
    {
      Tabled() && Ledger(stack[..stacktop + 1], modules, totTime, totCalls, last, accs, idle, calls)
    }

    constructor ()
      ensures Valid() && fresh(stack) && seen == [] && stacktop == 0 && highstack == 0 && lowstack == TOP
    {
      stack := new Frame[STACKSIZ + 1](_ => Frame(0, 0, 0));
      stacktop, totTime, totCalls, highstack, lowstack, modules, table := 0, 0, 0, 0, TOP, [], [];
      tree, seen := Leaf, [];
      new;
      assert stack[..1] == [Frame(0, 0, 0)];
      FirstBooks();
    }

    /** add(): the position of the name, which is put into the table if it is new; none if the table is full. */
    method Add(ghost r: Record, name: string) returns (pos: Option<nat>)
      requires Valid() && !r.Unknown? && r.name == name
      modifies this`modules, this`table, this`tree
      ensures pos.None? <==> !Occurs(seen, name) && |FunctionsOf(seen)| == MAXPROCS
      ensures pos.None? ==> unchanged(this)
      ensures pos.Some? ==> Ready(r, pos.value)
      ensures pos.Some? ==> modules == old(modules) + if name in Names(old(modules)) then []
              else [Module(name, 0, 0, 0)]
    {
      ghost var tree';
      var table';
      pos, table', tree' := AddName(Names(modules), table, MAXPROCS, name, tree);
      if pos.Some? && pos.value == |modules| {
        Extend(r, name, table', tree');
      } else {
        NewBooks(stack[..stacktop + 1], modules, totTime, totCalls, seen, r);
      }
    }

    /** A new function, with the table that has its name. */
    method Extend(ghost r: Record, name: string, table': seq<Bnode>, ghost tree': Tree)
      requires Valid() && !r.Unknown? && r.name == name && name !in Names(modules)
      requires TableOk(Names(modules) + [name], table', MAXPROCS, tree')
      modifies this`modules, this`table, this`tree
      ensures modules == old(modules) + [Module(name, 0, 0, 0)] && Ready(r, |modules| - 1)
    {
      NewBooks(stack[..stacktop + 1], modules, totTime, totCalls, seen, r);
      assert Names(modules + [Module(name, 0, 0, 0)]) == Names(modules) + [name];
      modules, table, tree := modules + [Module(name, 0, 0, 0)], table', tree';
    }

    /** push(): false is the exit on a stack overflow. */
    method Push(ghost r: Record, pos: nat, time: int) returns (ok: bool)
      requires Ready(r, pos) && r == Enter(time, r.name)
      modifies this`stacktop, this`seen, stack
      ensures ok <==> |Follow(RefOf(old(seen)), r).open| <= STACKSIZ
      ensures ok ==> Valid() && seen == old(seen) + [r]
      ensures ok ==> stack[..stacktop + 1] == old(stack[..stacktop + 1]) + [Frame(pos, time, 0)]
    {
      ghost var was := stack[..stacktop + 1];
      EnterBooks(was, modules, totTime, totCalls, seen, time, pos);
      stacktop := stacktop + 1;
      if stacktop > STACKSIZ {
        return false;
      }
      stack[stacktop] := Frame(pos, time, 0);
      assert stack[..stacktop + 1] == was + [Frame(pos, time, 0)];
      seen := seen + [r];
      return true;
    }

    /** Adds `time` to the function at `pos`, and a call. */
    method Charge(pos: nat, time: int)
      requires pos < |modules|
      modifies this`modules, this`totTime, this`totCalls
      ensures modules == Paid(old(modules), pos, time) && Names(modules) == old(Names(modules))
      ensures totTime == old(totTime) + time && totCalls == old(totCalls) + 1
    {
      modules := modules[pos := modules[pos].(time := modules[pos].time + time, calls := modules[pos].calls + 1)];
      totTime, totCalls := totTime + time, totCalls + 1;
    }

    /** pop() and what follows it: the time since the entry goes to the caller, the rest of it to the function. */
    method Settle(fnTime: int, ghost accs: seq<Account>, ghost idle: int, ghost calls: int) returns (pos: nat)
      requires stacktop >= 1 && Kept(fnTime, accs, idle, calls)
      modifies this`stacktop, this`modules, this`totTime, this`totCalls, stack
      ensures Kept(fnTime, accs, idle, calls) && stacktop == old(stacktop) - 1 && pos == old(stack[stacktop]).pos
      ensures stack[..stacktop + 1] == Popped(old(stack[..stacktop + 1]), fnTime) &&
              Names(modules) == old(Names(modules))
    {
      ghost var was := stack[..stacktop + 1];
      PopLedger(was, modules, totTime, totCalls, fnTime, accs, idle, calls);
      var f := stack[stacktop];
      stacktop := stacktop - 1;
      var time := fnTime - f.time;
      stack[stacktop] := stack[stacktop].(children := stack[stacktop].children + time);
      assert stack[..stacktop + 1] == Popped(was, fnTime);
      Charge(f.pos, time - f.children);
      pos := f.pos;
    }

    /** An exit without entry: the function is taken to have run since the last such exit. */
    method SettleUnmatched(fnTime: int, pos: nat, ghost accs: seq<Account>, ghost idle: int, ghost calls: int)
      requires stacktop == 0 && pos < |modules| && Kept(fnTime, accs, idle, calls)
      modifies this`modules, this`totTime, this`totCalls, stack
      ensures Names(modules) == old(Names(modules)) && |accs| == |modules|
      ensures Kept(fnTime, Repaid(accs, pos, idle), 0, calls + 1)
    {
      assert stack[..1] == [stack[0]];
      UnmatchedLedger(stack[0], modules, totTime, totCalls, fnTime, accs, idle, calls, pos);
      var time := fnTime - stack[0].time - stack[0].children;
      stack[0] := stack[0].(time := fnTime, children := 0);
      assert stack[..1] == [stack[0]];
      Charge(pos, time);
    }

    /** The exit of a function: all functions above its entry are left too; without an entry, all functions are left. */
    method Leave(ghost r: Record, fnTime: int, pos: nat)
      requires Ready(r, pos) && r == Exit(fnTime, r.name)
      modifies this`stacktop, this`modules, this`totTime, this`totCalls, this`seen, stack
      ensures Valid() && seen == old(seen) + [r]
    {
      ghost var s, m, ref, accs := stack[..stacktop + 1], modules, RefOf(seen), Accounts(seen, Names(modules));
      AdvanceLedger(s, m, totTime, totCalls, ref.last, fnTime, accs, ref.idle, ref.calls);
      PopAll(fnTime, pos, s, ref, accs);
      ExitBooks(s, m, seen, fnTime, pos, stack[..stacktop + 1], modules, totTime, totCalls);
      seen := seen + [r];
    }

    /** The loop over the stack: it ends at the last entry of the function, or with nothing left. */
    method PopTo(fnTime: int, pos: nat, ghost open: seq<string>, ghost accs: seq<Account>, ghost idle: int,
                 ghost calls: int)
      returns (found: bool)
      requires pos < |modules| && Kept(fnTime, accs, idle, calls)
      requires SameOpen(stack[..stacktop + 1], Names(modules), open)
      modifies this`stacktop, this`modules, this`totTime, this`totCalls, stack
      ensures Kept(fnTime, accs, idle, calls) && Names(modules) == old(Names(modules))
      ensures SamePos(stack[..stacktop + 1], old(stack[..stacktop + 1]))
      ensures var k := LastIn(open, old(modules)[pos].name);
              found == (k > 0) && stacktop == if found then k - 1 else 0
    {
      ghost var name, s := modules[pos].name, stack[..stacktop + 1];
      while stacktop >= 1
        invariant Kept(fnTime, accs, idle, calls) && Names(modules) == old(Names(modules))
        invariant SamePos(stack[..stacktop + 1], s)
        invariant LastUpto(open, name, stacktop) == LastIn(open, name)
        decreases stacktop
      {
        TopIs(stack[..stacktop + 1], s, Names(modules), open);
        PoppedPos(stack[..stacktop + 1], fnTime, s);
        var oldpos := Settle(fnTime, accs, idle, calls);
        if pos == oldpos {
          return true;
        }
      }
      return false;
    }

    /** ... and what follows it if the function was not found. */
    method PopAll(fnTime: int, pos: nat, ghost s: seq<Frame>, ghost ref: Ref, ghost accs: seq<Account>)
      requires Tabled() && pos < |modules| == |accs| && s == stack[..stacktop + 1]
      requires SameOpen(s, Names(modules), ref.open)
      requires Kept(fnTime, Advanced(accs, s, fnTime - ref.last), IdleAt(ref, fnTime), ref.calls)
      modifies this`stacktop, this`modules, this`totTime, this`totCalls, stack
      ensures Tabled() && Names(modules) == old(Names(modules))
      ensures Left(s, old(modules), ref, accs, fnTime, pos, stack[..stacktop + 1], modules, totTime, totCalls)
    {
      ghost var adv, idle := Advanced(accs, s, fnTime - ref.last), IdleAt(ref, fnTime);
      var found := PopTo(fnTime, pos, ref.open, adv, idle, ref.calls);
      if !found {
        SettleUnmatched(fnTime, pos, adv, idle, ref.calls);
      }
    }

    /** The stack use of a function. */
    method NoteStack(r: Record, pos: nat)
      requires Ready(r, pos) && r.Stack?
      modifies this`modules, this`highstack, this`lowstack, this`seen
      ensures Valid() && seen == old(seen) + [r]
      ensures highstack == HighAfter(old(highstack), r) && lowstack == LowAfter(old(highstack), old(lowstack), r)
    {
      StackBooks(stack[..stacktop + 1], modules, totTime, totCalls, seen, r, pos);
      assert Names(Raised(modules, pos, r.size)) == Names(modules);
      if r.size > modules[pos].stkuse {
        modules := modules[pos := modules[pos].(stkuse := r.size)];
      }
      seen := seen + [r];
      if r.bottom > highstack {
        highstack := r.bottom;
      } else if r.bottom < lowstack {
        lowstack := r.bottom;
      }
    }

    /** The books are up to date, and `fnTime` is the time of the last entry or exit. */
    ghost predicate Current(fnTime: int)
      reads this, stack
    {
      Valid() && StatusOf(seen).Ok? && fnTime == RefOf(seen).last
    }

    /** One line of the profile. */
    method ProcessRecord(r: Record, fnTime: int) returns (status: Status, fnTime': int)
      requires Current(fnTime)
      modifies this, stack
      ensures status == StatusOf(old(seen) + [r])
      ensures status.Ok? ==> Current(fnTime') && seen == old(seen) + [r]
      ensures status.Ok? ==>
                highstack == HighAfter(old(highstack), r) && lowstack == LowAfter(old(highstack), old(lowstack), r)
    {
      LastTime(seen, r);
      fnTime' := if r.Enter? || r.Exit? then r.time else fnTime;
      if r.Unknown? {
        StatusStep(seen, r);
        UnknownBooks(stack[..stacktop + 1], modules, totTime, totCalls, seen);
        seen := seen + [r];
        status := Ok;
      } else {
        status := ProcessNamed(r);
      }
    }

    /** A line with the name of a function. */
    method ProcessNamed(r: Record) returns (status: Status)
      requires Valid() && StatusOf(seen).Ok? && !r.Unknown?
      modifies this, stack
      ensures status == StatusOf(old(seen) + [r])
      ensures status.Ok? ==> Valid() && seen == old(seen) + [r]
      ensures status.Ok? ==>
                highstack == HighAfter(old(highstack), r) && lowstack == LowAfter(old(highstack), old(lowstack), r)
    {
      StatusStep(seen, r);
      var p := Add(r, r.name);
      if p.None? {
        return TooManyFunctions;
      }
      status := Dispatch(r, p.value);
    }

    /** A line for the function at `pos`. */
    method Dispatch(r: Record, pos: nat) returns (status: Status)
      requires Ready(r, pos)
      modifies this, stack
      ensures status == if |Follow(RefOf(old(seen)), r).open| <= STACKSIZ then Ok else StackOverflow
      ensures status.Ok? ==> Valid() && seen == old(seen) + [r]
      ensures status.Ok? ==>
                highstack == HighAfter(old(highstack), r) && lowstack == LowAfter(old(highstack), old(lowstack), r)
    {
      match r {
        case Enter(time, _) =>
          var ok := Push(r, pos, time);
          return if ok then Ok else StackOverflow;
        case Exit(time, _) => Leave(r, time, pos);
        case Stack(_, _, _) => NoteStack(r, pos);
      }
      return Ok;
    }

    /** At the end of the file every function on the stack is taken to exit at `fnTime`. */
    method Drain(fnTime: int, ghost accs: seq<Account>, ghost idle: int, ghost calls: int)
      requires Kept(fnTime, accs, idle, calls)
      modifies this`stacktop, this`modules, this`totTime, this`totCalls, stack
      ensures Kept(fnTime, accs, idle, calls) && stacktop == 0 && Names(modules) == old(Names(modules))
    {
      while stacktop >= 1
        invariant Kept(fnTime, accs, idle, calls) && Names(modules) == old(Names(modules))
        decreases stacktop
      {
        var pos := Settle(fnTime, accs, idle, calls);
      }
    }

    /** The report is ready: every function of the records has what the reference says, and so have the totals. */
    ghost predicate Reported(records: seq<Record>)
      reads this
    {
      && Tabled() && Names(modules) == FunctionsOf(records)
      && (forall p | 0 <= p < |modules| :: modules[p] == ModuleOf(records, modules[p].name))
      && totTime == Times(modules) == RefOf(records).last - RefOf(records).idle
      && totCalls == Calls(modules) == RefOf(records).calls
      && Marks(records, highstack, lowstack)
    }

    /** The loop of process() over the lines. */
    method ProcessLines(records: seq<Record>) returns (status: Status, fnTime: int)
      requires Current(0) && seen == [] && highstack == 0 && lowstack == TOP
      modifies this, stack
      ensures status.Ok? <==> Manageable(records)
      ensures !status.Ok? ==> GivesUp(records, status)
      ensures status.Ok? ==> Current(fnTime) && seen == records && Marks(records, highstack, lowstack)
    {
      fnTime := 0;
      for i := 0 to |records|
        invariant Current(fnTime) && seen == records[..i] && Marks(records[..i], highstack, lowstack)
        invariant FitUpto(records, i)
      {
        assert records[..i + 1] == records[..i] + [records[i]];
        MarksStep(records, i, highstack, lowstack);
        status, fnTime := ProcessRecord(records[i], fnTime);
        FitsNext(records, i, status);
        if status != Ok {
          return;
        }
      }
      assert records[..|records|] == records;
      status := Ok;
    }

    /** process(): the whole profile. */
    method Process(records: seq<Record>) returns (status: Status)
      requires Valid() && seen == [] && highstack == 0 && lowstack == TOP
      modifies this, stack
      ensures status.Ok? <==> Manageable(records)
      ensures !status.Ok? ==> GivesUp(records, status)
      ensures status.Ok? ==> Reported(records)
    {
      var fnTime;
      status, fnTime := ProcessLines(records);
      if status != Ok {
        return;
      }
      ghost var ref, accs := RefOf(records), Accounts(records, Names(modules));
      Drain(fnTime, accs, ref.idle, ref.calls);
      assert stack[..1] == [stack[0]];
      AllPaid(stack[0], modules, totTime, totCalls, fnTime, accs, ref.idle, ref.calls);
    }
  }

  // ---------------------------------------------------------------- the report

  ghost function TimeAt(m: seq<Module>, k: nat): int {
    if k < |m| then m[k].time else 0
  }

  ghost function CallsAt(m: seq<Module>, k: nat): int {
    if k < |m| then m[k].calls else 0
  }

  ghost function TimeOver(s: seq<nat>, m: seq<Module>): int {
    if s == [] then 0 else TimeOver(s[..|s| - 1], m) + TimeAt(m, s[|s| - 1])
  }

  ghost function CallsOver(s: seq<nat>, m: seq<Module>): int {
    if s == [] then 0 else CallsOver(s[..|s| - 1], m) + CallsAt(m, s[|s| - 1])
  }

  lemma OverLast(s: seq<nat>, k: nat, m: seq<Module>)
    ensures TimeOver(s + [k], m) == TimeOver(s, m) + TimeAt(m, k)
    ensures CallsOver(s + [k], m) == CallsOver(s, m) + CallsAt(m, k)
  {
    assert (s + [k])[..|s|] == s;
  }

  lemma {:induction false} OverAppend(s: seq<nat>, s': seq<nat>, m: seq<Module>)
    ensures TimeOver(s + s', m) == TimeOver(s, m) + TimeOver(s', m)
    ensures CallsOver(s + s', m) == CallsOver(s, m) + CallsOver(s', m)
    decreases |s'|
  {
    if s' == [] {
      assert s + s' == s;
    } else {
      var n := |s'| - 1;
      OverAppend(s, s'[..n], m);
      OverLast(s + s'[..n], s'[n], m);
      assert s + s'[..n] + [s'[n]] == s + s';
    }
  }

  /** A subtree and a module more. */
  lemma OverNode(out: seq<nat>, left: Tree, p: nat, right: Tree, m: seq<Module>)
    ensures var out' := out + Inorder(left) + [p];
            && out' + Inorder(right) == out + Inorder(Node(left, p, right))
            && TimeOver(out', m) == TimeOver(out, m) + TimeOver(Inorder(left), m) + TimeAt(m, p)
            && CallsOver(out', m) == CallsOver(out, m) + CallsOver(Inorder(left), m) + CallsAt(m, p)
  {
    OverAppend(out, Inorder(left), m);
    OverLast(out + Inorder(left), p, m);
  }

  /** `calls` and `time` are the sums over `out`. */
  ghost predicate Summed(out: seq<nat>, m: seq<Module>, calls: int, time: int) {
    calls == CallsOver(out, m) && time == TimeOver(out, m)
  }

  /** out_body: the modules under `root` in the order of their names; their calls and times are added up. */
  method OutBody(table: seq<Bnode>, modules: seq<Module>, none: nat, root0: nat, ghost t: Tree)
    returns (out: seq<nat>, calls: int, time: int)
    requires Holds(table, none, root0, t) && InRange(t, |modules|)
    ensures out == Inorder(t) && Summed(out, modules, calls, time)
    decreases Size(t), 1
  {
    out, calls, time := [], 0, 0;
    var root := root0;
    ghost var sub := t;
    while root != none
      invariant Holds(table, none, root, sub) && Size(sub) <= Size(t) && InRange(sub, |modules|)
      invariant out + Inorder(sub) == Inorder(t) && Summed(out, modules, calls, time)
      decreases Size(sub)
    {
      out, calls, time := OutNode(table, modules, none, root, sub, out, calls, time);
      root, sub := table[root].rchild, sub.right;
    }
  }

  /** One round of the loop: everything to the left of a module, and the module itself. */
  method OutNode(table: seq<Bnode>, modules: seq<Module>, none: nat, root: nat, ghost t: Tree, out: seq<nat>,
                 calls: int, time: int)
    returns (out': seq<nat>, calls': int, time': int)
    requires t.Node? && Holds(table, none, root, t) && InRange(t, |modules|) && Summed(out, modules, calls, time)
    ensures out' + Inorder(t.right) == out + Inorder(t) && Summed(out', modules, calls', time')
    decreases Size(t), 0
  {
    var p := table[root].pos;
    var o, c, tm := OutBody(table, modules, none, table[root].lchild, t.left);
    OverNode(out, t.left, p, t.right, modules);
    out' := out + o + [p];
    calls', time' := calls + c + modules[p].calls, time + tm + modules[p].time;
  }

  // ---------------------------------------------------------------- every module once

  ghost predicate EachOnce(s: seq<nat>, n: nat) {
    (forall i, j | 0 <= i < j < |s| :: s[i] != s[j]) && forall k: nat :: k in s <==> k < n
  }

  lemma {:induction false} OverAll(s: seq<nat>, m: seq<Module>, n: nat)
    requires EachOnce(s, n) && n <= |m|
    ensures TimeOver(s, m) == Times(m[..n]) && CallsOver(s, m) == Calls(m[..n])
  {
    if n == 0 {
      FirstOrNone(s);
    } else {
      var j := IndexOf(s, n - 1);
      Without(s, n, j);
      OverAll(s[..j] + s[j + 1..], m, n - 1);
      OverWithout(s, j, m);
      assert m[..n][..n - 1] == m[..n - 1];
    }
  }

  lemma FirstOrNone(s: seq<nat>)
    ensures s == [] || s[0] in s
  {
  }

  ghost function IndexOf(s: seq<nat>, k: nat): (j: nat)
    requires k in s
    ensures j < |s| && s[j] == k
  {
    var j :| 0 <= j < |s| && s[j] == k;
    j
  }

  lemma OverWithout(s: seq<nat>, j: nat, m: seq<Module>)
    requires j < |s|
    ensures TimeOver(s, m) == TimeOver(s[..j] + s[j + 1..], m) + TimeAt(m, s[j])
    ensures CallsOver(s, m) == CallsOver(s[..j] + s[j + 1..], m) + CallsAt(m, s[j])
  {
    OverAppend(s[..j], s[j + 1..], m);
    OverLast(s[..j], s[j], m);
    OverAppend(s[..j] + [s[j]], s[j + 1..], m);
    assert s[..j] + [s[j]] + s[j + 1..] == s;
  }

  ghost predicate ElsewhereIn(s: seq<nat>, j: nat, k: nat) {
    exists i :: 0 <= i < |s| && i != j && s[i] == k
  }

  lemma WithoutHas(s: seq<nat>, j: nat, k: nat)
    requires j < |s|
    ensures k in s[..j] + s[j + 1..] <==> ElsewhereIn(s, j, k)
  {
    var s' := s[..j] + s[j + 1..];
    if k in s' {
      var i := IndexOf(s', k);
      assert s[if i < j then i else i + 1] == k;
    }
    if ElsewhereIn(s, j, k) {
      var i :| 0 <= i < |s| && i != j && s[i] == k;
      assert s'[if i < j then i else i - 1] == k;
    }
  }

  lemma Without(s: seq<nat>, n: nat, j: nat)
    requires EachOnce(s, n) && n > 0 && j < |s| && s[j] == n - 1
    ensures EachOnce(s[..j] + s[j + 1..], n - 1)
  {
    var s' := s[..j] + s[j + 1..];
    forall k: nat
      ensures k in s' <==> k < n - 1
    {
      WithoutHas(s, j, k);
      assert k in s <==> k < n;
    }
  }

  /** In strictly increasing order of the names. */
  ghost predicate Sorted(s: seq<nat>, m: seq<Module>) {
    forall i, j | 0 <= i < j < |s| :: s[i] < |m| && s[j] < |m| && Alphabetic(m[s[i]].name, m[s[j]].name)
  }

  /** The report: every function once, in the order of the alphabet; its sums are the totals.  No report without any. */
  method Output(a: Analyser) returns (out: Option<seq<nat>>, calls: int, time: int)
    requires a.Tabled() && a.totTime == Times(a.modules) && a.totCalls == Calls(a.modules)
    ensures out.None? <==> a.modules == []
    ensures out.Some? ==> EachOnce(out.value, |a.modules|) && Sorted(out.value, a.modules)
    ensures calls == a.totCalls && time == a.totTime
  {
    if |a.modules| == 0 {
      return None, 0, 0;
    }
    var s;
    s, calls, time := OutAll(a.table, a.modules, a.tree);
    out := Some(s);
  }

  /** ... on the parts of the analyser. */
  method OutAll(table: seq<Bnode>, modules: seq<Module>, ghost tree: Tree)
    returns (out: seq<nat>, calls: int, time: int)
    requires TableOk(Names(modules), table, MAXPROCS, tree) && modules != []
    ensures EachOnce(out, |modules|) && Sorted(out, modules) && calls == Calls(modules) && time == Times(modules)
  {
    ghost var names := Names(modules);
    OrderedInRange(tree, names);
    InorderHas(tree);
    out, calls, time := OutBody(table, modules, MAXPROCS, 0, tree);
    forall i, j | 0 <= i < j < |out|
      ensures out[i] < |names| && out[j] < |names| && out[i] != out[j] && Alphabetic(names[out[i]], names[out[j]])
    {
      InorderSorted(tree, names, i, j);
    }
    OverAll(out, modules, |modules|);
    assert modules[..|modules|] == modules;
  }
}
