/**
 What the profile analyser is to find out, and how its stack keeps the books for it.  Between two records
 the time runs for the function entered last and not left yet; with none open it runs for the next
 function that is left without having been entered.
 */
module ProfileLedger {

  datatype Frame = Frame(pos: nat, time: int, children: int)

  datatype Module = Module(name: string, time: int, calls: int, stkuse: nat)

  /** A line of the profile. */
  datatype Record =
    | Enter(time: int, name: string)
    | Exit(time: int, name: string)
    | Stack(bottom: nat, size: nat, name: string)
    | Unknown

  // ---------------------------------------------------------------- the reference

  /** The functions open, the time of the last entry or exit, the time nobody has been charged for, all calls. */
  datatype Ref = Ref(open: seq<string>, last: int, idle: int, calls: nat)

  /** How many of the first `n` functions open there are up to the last entry of `name`; 0 if there is none. */
  ghost function LastUpto(open: seq<string>, name: string, n: nat): (k: nat)
    requires n <= |open|
    ensures k <= n
  {
    if n == 0 then 0 else if open[n - 1] == name then n else LastUpto(open, name, n - 1)
  }

  ghost function LastIn(open: seq<string>, name: string): (k: nat)
    ensures k <= |open|
  {
    LastUpto(open, name, |open|)
  }

  lemma {:induction false} LastUptoIs(open: seq<string>, name: string, n: nat)
    requires n <= |open|
    ensures var k := LastUpto(open, name, n);
            (k > 0 ==> open[k - 1] == name) && forall i | k <= i < n :: open[i] != name
  {
    if n > 0 {
      LastUptoIs(open, name, n - 1);
    }
  }

  /** It is the last entry of the function, if there is one. */
  lemma LastInIs(open: seq<string>, name: string)
    ensures var k := LastIn(open, name);
            && (k > 0 <==> name in open) && (k > 0 ==> open[k - 1] == name)
            && forall i | k <= i < |open| :: open[i] != name
  {
    LastUptoIs(open, name, |open|);
  }

  /** An exit of a function that is not open. */
  ghost predicate Unmatched(ref: Ref, r: Record) {
    r.Exit? && r.name !in ref.open
  }

  /** The time nobody has been charged for at `time`. */
  ghost function IdleAt(ref: Ref, time: int): int {
    if ref.open == [] then ref.idle + time - ref.last else ref.idle
  }

  ghost function Follow(ref: Ref, r: Record): Ref {
    match r
    case Enter(time, name) => Ref(ref.open + [name], time, IdleAt(ref, time), ref.calls + 1)
    case Exit(time, name) =>
      var k := LastIn(ref.open, name);
      if k > 0 then Ref(ref.open[..k - 1], time, IdleAt(ref, time), ref.calls) else Ref([], time, 0, ref.calls + 1)
    case Stack(_, _, _) => ref
    case Unknown => ref
  }

  ghost function RefOf(records: seq<Record>): Ref {
    if records == [] then Ref([], 0, 0, 0)
    else Follow(RefOf(records[..|records| - 1]), records[|records| - 1])
  }

  /** The time, the calls and the stack use of one function. */
  datatype Account = Account(time: int, calls: int, use: nat)

  /** The time up to `time` that runs for the function `f`. */
  ghost function Running(ref: Ref, time: int, f: string): int {
    if ref.open != [] && ref.open[|ref.open| - 1] == f then time - ref.last else 0
  }

  ghost function Charged(ref: Ref, acc: Account, r: Record, f: string): Account {
    match r
    case Enter(time, name) =>
      Account(acc.time + Running(ref, time, f), acc.calls + (if name == f then 1 else 0), acc.use)
    case Exit(time, name) =>
      var own := acc.time + Running(ref, time, f);
      if Unmatched(ref, r) && name == f then Account(own + IdleAt(ref, time), acc.calls + 1, acc.use)
      else Account(own, acc.calls, acc.use)
    case Stack(_, size, name) => if name == f && size > acc.use then acc.(use := size) else acc
    case Unknown => acc
  }

  /** What the records say about the function `f`. */
  ghost function AccountOf(records: seq<Record>, f: string): Account {
    if records == [] then Account(0, 0, 0)
    else
      var before := records[..|records| - 1];
      Charged(RefOf(before), AccountOf(before, f), records[|records| - 1], f)
  }

  /** The functions in the order in which they first occur. */
  ghost function FunctionsOf(records: seq<Record>): seq<string> {
    if records == [] then []
    else
      var before, r := FunctionsOf(records[..|records| - 1]), records[|records| - 1];
      if r.Unknown? || r.name in before then before else before + [r.name]
  }

  ghost predicate Occurs(records: seq<Record>, f: string) {
    f in FunctionsOf(records)
  }

  lemma OneMoreRecord(records: seq<Record>, r: Record, f: string)
    ensures RefOf(records + [r]) == Follow(RefOf(records), r)
    ensures AccountOf(records + [r], f) == Charged(RefOf(records), AccountOf(records, f), r, f)
    ensures Occurs(records + [r], f) <==> Occurs(records, f) || (!r.Unknown? && r.name == f)
    ensures FunctionsOf(records + [r]) ==
            FunctionsOf(records) + if r.Unknown? || r.name in FunctionsOf(records) then [] else [r.name]
  {
    assert (records + [r])[..|records|] == records;
  }

  /** Open functions occur. */
  lemma {:induction false} OpenOccurs(records: seq<Record>, i: nat)
    requires i < |RefOf(records).open|
    ensures Occurs(records, RefOf(records).open[i])
  {
    var n := |records| - 1;
    var before, r := records[..n], records[n];
    assert before + [r] == records;
    OneMoreRecord(before, r, RefOf(records).open[i]);
    if i < |RefOf(before).open| {
      OpenOccurs(before, i);
    }
  }

  /** A function that does not occur has no time and no calls. */
  lemma {:induction false} NoAccount(records: seq<Record>, f: string)
    requires !Occurs(records, f)
    ensures AccountOf(records, f) == Account(0, 0, 0)
  {
    if records != [] {
      var n := |records| - 1;
      var before, r := records[..n], records[n];
      assert before + [r] == records;
      OneMoreRecord(before, r, f);
      NoAccount(before, f);
      var open := RefOf(before).open;
      if open != [] {
        OpenOccurs(before, |open| - 1);
      }
    }
  }

  // ---------------------------------------------------------------- sums

  ghost function Children(s: seq<Frame>): int {
    if s == [] then 0 else Children(s[..|s| - 1]) + s[|s| - 1].children
  }

  ghost function Times(m: seq<Module>): int {
    if m == [] then 0 else Times(m[..|m| - 1]) + m[|m| - 1].time
  }

  ghost function Calls(m: seq<Module>): int {
    if m == [] then 0 else Calls(m[..|m| - 1]) + m[|m| - 1].calls
  }

  function Names(m: seq<Module>): (r: seq<string>)
    ensures |r| == |m| && forall i | 0 <= i < |m| :: r[i] == m[i].name
  {
    seq(|m|, i requires 0 <= i < |m| => m[i].name)
  }

  lemma {:induction false} SumsUpdate(m: seq<Module>, i: nat, x: Module)
    requires i < |m|
    ensures Times(m[i := x]) == Times(m) - m[i].time + x.time && Calls(m[i := x]) == Calls(m) - m[i].calls + x.calls
  {
    var n := |m| - 1;
    if i < n {
      SumsUpdate(m[..n], i, x);
      assert m[i := x][..n] == m[..n][i := x];
    } else {
      assert m[i := x][..n] == m[..n];
    }
  }

  lemma SumsAppend(m: seq<Module>, x: Module)
    ensures Times(m + [x]) == Times(m) + x.time && Calls(m + [x]) == Calls(m) + x.calls
  {
    assert (m + [x])[..|m|] == m;
  }

  // ---------------------------------------------------------------- the stack as a ledger

  /** The time that has run for the open entries of the function at `p`; `last` is the time of the last record. */
  ghost function Pending(s: seq<Frame>, last: int, p: nat): int {
    if |s| <= 1 then 0
    else
      var x := s[|s| - 1];
      Pending(s[..|s| - 1], x.time, p) + if x.pos == p then last - x.time - x.children else 0
  }

  /** The open entries of the function at `p`. */
  ghost function Entries(s: seq<Frame>, p: nat): nat {
    if |s| <= 1 then 0 else Entries(s[..|s| - 1], p) + if s[|s| - 1].pos == p then 1 else 0
  }

  /** The time that has run for the dummy at the bottom. */
  ghost function Bottom(s: seq<Frame>, last: int): int
    requires s != []
  {
    if |s| == 1 then last - s[0].time - s[0].children else Bottom(s[..|s| - 1], s[|s| - 1].time)
  }

  lemma LastFrame(s: seq<Frame>, x: Frame, last: int, p: nat)
    requires s != []
    ensures Pending(s + [x], last, p) == Pending(s, x.time, p) + if x.pos == p then last - x.time - x.children else 0
    ensures Entries(s + [x], p) == Entries(s, p) + if x.pos == p then 1 else 0
    ensures Bottom(s + [x], last) == Bottom(s, x.time)
    ensures Children(s + [x]) == Children(s) + x.children
  {
    assert (s + [x])[..|s|] == s;
  }

  /** Time on top of the stack that goes to the children of the entry there has not run for it. */
  lemma GivenToChildren(s: seq<Frame>, last: int, time: int, p: nat)
    requires s != []
    ensures var n := |s| - 1;
            var s' := s[n := s[n].(children := s[n].children + time)];
            && Pending(s', last + time, p) == Pending(s, last, p) && Entries(s', p) == Entries(s, p)
            && Bottom(s', last + time) == Bottom(s, last) && Children(s') == Children(s) + time
  {
    var n := |s| - 1;
    assert s[n := s[n].(children := s[n].children + time)][..n] == s[..n];
  }

  /** Time runs for the top of the stack. */
  lemma TimePasses(s: seq<Frame>, last: int, now: int, p: nat)
    requires s != []
    ensures Pending(s, now, p) == Pending(s, last, p) + if |s| > 1 && s[|s| - 1].pos == p then now - last else 0
    ensures Bottom(s, now) == Bottom(s, last) + if |s| == 1 then now - last else 0
  {
  }

  ghost predicate FramesOk(s: seq<Frame>, m: seq<Module>) {
    s != [] && forall i | 1 <= i < |s| :: s[i].pos < |m|
  }

  ghost predicate Distinct(m: seq<Module>) {
    forall i, j | 0 <= i < j < |m| :: m[i].name != m[j].name
  }

  /** What module `p` has got, and what it is still to get for its open entries, is its account. */
  ghost predicate Settled(s: seq<Frame>, last: int, m: seq<Module>, p: nat, acc: Account)
    requires p < |m|
  {
    && m[p].time + Pending(s, last, p) == acc.time && m[p].calls + Entries(s, p) == acc.calls
    && m[p].stkuse == acc.use
  }

  ghost predicate AllSettled(s: seq<Frame>, last: int, m: seq<Module>, accs: seq<Account>) {
    && |accs| == |m|
    && forall p {:trigger Settled(s, last, m, p, accs[p])} | 0 <= p < |m| :: Settled(s, last, m, p, accs[p])
  }

  /** The totals, against the functions and against the stack. */
  ghost predicate Totals(s: seq<Frame>, m: seq<Module>, totTime: int, totCalls: int, calls: int) {
    && s != [] && totTime == s[0].time + Children(s) && totTime == Times(m)
    && totCalls == Calls(m) && totCalls + |s| - 1 == calls
  }

  /** The books in the middle of a record. */
  ghost predicate Ledger(s: seq<Frame>, m: seq<Module>, totTime: int, totCalls: int, last: int, accs: seq<Account>,
                         idle: int, calls: int)
  {
    && FramesOk(s, m) && Distinct(m) && AllSettled(s, last, m, accs) && Bottom(s, last) == idle
    && Totals(s, m, totTime, totCalls, calls)
  }

  // ---------------------------------------------------------------- leaving a function

  /** The stack without its top; the time since the entry goes to the one below. */
  ghost function Popped(s: seq<Frame>, now: int): seq<Frame>
    requires |s| >= 2
  {
    var n := |s| - 2;
    s[..n] + [s[n].(children := s[n].children + (now - s[n + 1].time))]
  }

  /** The module at `pos` with a call more. */
  ghost function Paid(m: seq<Module>, pos: nat, time: int): seq<Module>
    requires pos < |m|
  {
    m[pos := m[pos].(time := m[pos].time + time, calls := m[pos].calls + 1)]
  }

  lemma PoppedIs(s: seq<Frame>, now: int, p: nat)
    requires |s| >= 2
    ensures var x := s[|s| - 1];
            && Pending(Popped(s, now), now, p) ==
               Pending(s, now, p) - (if x.pos == p then now - x.time - x.children else 0)
            && Entries(Popped(s, now), p) == Entries(s, p) - (if x.pos == p then 1 else 0)
            && Bottom(Popped(s, now), now) == Bottom(s, now)
            && Children(Popped(s, now)) == Children(s) + (now - x.time) - x.children
  {
    var n := |s| - 2;
    var low, x := s[..n + 1], s[n + 1];
    assert s == low + [x];
    LastFrame(low, x, now, p);
    GivenToChildren(low, x.time, now - x.time, p);
    assert Popped(s, now) == low[n := low[n].(children := low[n].children + (now - x.time))];
  }

  /** The stack `a` has entries of the same functions as the lower part of `s`. */
  ghost predicate SamePos(a: seq<Frame>, s: seq<Frame>) {
    |a| <= |s| && forall i | 0 <= i < |a| :: a[i].pos == s[i].pos
  }

  lemma PoppedPos(a: seq<Frame>, now: int, s: seq<Frame>)
    requires |a| >= 2 && SamePos(a, s)
    ensures SamePos(Popped(a, now), s)
  {
  }

  lemma PopLedger(s: seq<Frame>, m: seq<Module>, totTime: int, totCalls: int, now: int, accs: seq<Account>, idle: int,
                  calls: int)
    requires |s| >= 2 && Ledger(s, m, totTime, totCalls, now, accs, idle, calls)
    ensures var x := s[|s| - 1];
            var time := now - x.time - x.children;
            Ledger(Popped(s, now), Paid(m, x.pos, time), totTime + time, totCalls + 1, now, accs, idle, calls)
  {
    var x := s[|s| - 1];
    var time := now - x.time - x.children;
    var m' := Paid(m, x.pos, time);
    forall p | 0 <= p < |m|
      ensures Settled(Popped(s, now), now, m', p, accs[p])
    {
      assert Settled(s, now, m, p, accs[p]);
      PoppedIs(s, now, p);
    }
    PoppedIs(s, now, 0);
    SumsUpdate(m, x.pos, m'[x.pos]);
  }

  // ---------------------------------------------------------------- a record

  /** The accounts of the functions `names`. */
  ghost function Accounts(records: seq<Record>, names: seq<string>): (accs: seq<Account>)
    ensures |accs| == |names| && forall p | 0 <= p < |names| :: accs[p] == AccountOf(records, names[p])
  {
    seq(|names|, p requires 0 <= p < |names| => AccountOf(records, names[p]))
  }

  /** The entries on the stack are those of the functions open. */
  ghost predicate SameOpen(s: seq<Frame>, names: seq<string>, open: seq<string>) {
    && |s| == |open| + 1
    && forall i {:trigger open[i]} | 0 <= i < |open| :: s[i + 1].pos < |names| && names[s[i + 1].pos] == open[i]
  }

  /** The function on top of `a`, a lower part of `s`. */
  lemma TopIs(a: seq<Frame>, s: seq<Frame>, names: seq<string>, open: seq<string>)
    requires |a| >= 2 && SamePos(a, s) && SameOpen(s, names, open)
    ensures a[|a| - 1].pos < |names| && names[a[|a| - 1].pos] == open[|a| - 2]
  {
    var n := |a| - 2;
    assert a[n + 1].pos == s[n + 1].pos;
    assert s[n + 1].pos < |names| && names[s[n + 1].pos] == open[n];
  }

  /** The books after `records`; the modules are the functions in `named`. */
  ghost predicate Books(s: seq<Frame>, m: seq<Module>, totTime: int, totCalls: int, records: seq<Record>,
                        named: seq<Record>)
  {
    Agrees(s, m, totTime, totCalls, RefOf(records), Accounts(records, Names(m))) && Names(m) == FunctionsOf(named)
  }

  /** The books agree with the reference. */
  ghost predicate Agrees(s: seq<Frame>, m: seq<Module>, totTime: int, totCalls: int, ref: Ref, accs: seq<Account>) {
    && Ledger(s, m, totTime, totCalls, ref.last, accs, ref.idle, ref.calls)
    && SameOpen(s, Names(m), ref.open)
  }

  /** All accounts after one more record. */
  ghost function ChargedAll(ref: Ref, accs: seq<Account>, r: Record, names: seq<string>): (accs': seq<Account>)
    requires |accs| == |names|
    ensures |accs'| == |names| && forall p | 0 <= p < |names| :: accs'[p] == Charged(ref, accs[p], r, names[p])
  {
    seq(|names|, p requires 0 <= p < |names| => Charged(ref, accs[p], r, names[p]))
  }

  lemma AccountsStep(records: seq<Record>, r: Record, names: seq<string>)
    ensures Accounts(records + [r], names) == ChargedAll(RefOf(records), Accounts(records, names), r, names)
    ensures RefOf(records + [r]) == Follow(RefOf(records), r)
  {
    forall p | 0 <= p < |names|
      ensures AccountOf(records + [r], names[p]) == Charged(RefOf(records), AccountOf(records, names[p]), r, names[p])
    {
      OneMoreRecord(records, r, names[p]);
    }
    OneMoreRecord(records, r, "");
  }

  /** The books are up to date again when they agree with the next state of the reference. */
  lemma BooksStep(m: seq<Module>, records: seq<Record>, r: Record, s': seq<Frame>, m': seq<Module>, totTime': int,
                  totCalls': int)
    requires Names(m) == FunctionsOf(records + [r]) && Names(m') == Names(m)
    requires Agrees(s', m', totTime', totCalls', Follow(RefOf(records), r),
                    ChargedAll(RefOf(records), Accounts(records, Names(m)), r, Names(m)))
    ensures Books(s', m', totTime', totCalls', records + [r], records + [r])
  {
    AccountsStep(records, r, Names(m));
  }

  /** Time has run for the top of the stack. */
  ghost function Advanced(accs: seq<Account>, s: seq<Frame>, time: int): (r: seq<Account>)
    requires s != []
    ensures |r| == |accs|
    ensures forall p | 0 <= p < |accs| ::
              r[p] == if |s| > 1 && s[|s| - 1].pos == p then accs[p].(time := accs[p].time + time) else accs[p]
  {
    seq(|accs|, p requires 0 <= p < |accs| =>
      if |s| > 1 && s[|s| - 1].pos == p then accs[p].(time := accs[p].time + time) else accs[p])
  }

  lemma AdvanceLedger(s: seq<Frame>, m: seq<Module>, totTime: int, totCalls: int, last: int, now: int,
                      accs: seq<Account>, idle: int, calls: int)
    requires Ledger(s, m, totTime, totCalls, last, accs, idle, calls)
    ensures Ledger(s, m, totTime, totCalls, now, Advanced(accs, s, now - last),
                   if |s| == 1 then idle + now - last else idle, calls)
  {
    var accs' := Advanced(accs, s, now - last);
    forall p | 0 <= p < |m|
      ensures Settled(s, now, m, p, accs'[p])
    {
      assert Settled(s, last, m, p, accs[p]);
      TimePasses(s, last, now, p);
    }
    TimePasses(s, last, now, 0);
  }

  /** On the stack, time runs for the function that it runs for in the reference. */
  lemma RunningIs(s: seq<Frame>, m: seq<Module>, ref: Ref, now: int, p: nat)
    requires FramesOk(s, m) && Distinct(m) && SameOpen(s, Names(m), ref.open) && p < |m|
    ensures Running(ref, now, m[p].name) == if |s| > 1 && s[|s| - 1].pos == p then now - ref.last else 0
    ensures IdleAt(ref, now) == if |s| == 1 then ref.idle + now - ref.last else ref.idle
  {
    if |s| > 1 {
      var n := |ref.open| - 1;
      assert m[s[n + 1].pos].name == ref.open[n];
      assert s[n + 1].pos != p ==> m[p].name != m[s[n + 1].pos].name;
    }
  }

  // ---------------------------------------------------------------- an entry

  lemma PushLedger(s: seq<Frame>, m: seq<Module>, totTime: int, totCalls: int, now: int, accs: seq<Account>, idle: int,
                   calls: int, pos: nat)
    requires Ledger(s, m, totTime, totCalls, now, accs, idle, calls) && pos < |m|
    ensures Ledger(s + [Frame(pos, now, 0)], m, totTime, totCalls, now,
                   accs[pos := accs[pos].(calls := accs[pos].calls + 1)], idle, calls + 1)
  {
    var s' := s + [Frame(pos, now, 0)];
    var accs' := accs[pos := accs[pos].(calls := accs[pos].calls + 1)];
    forall p | 0 <= p < |m|
      ensures Settled(s', now, m, p, accs'[p])
    {
      assert Settled(s, now, m, p, accs[p]);
      LastFrame(s, Frame(pos, now, 0), now, p);
    }
    LastFrame(s, Frame(pos, now, 0), now, 0);
  }

  lemma EnterAccounts(s: seq<Frame>, m: seq<Module>, ref: Ref, accs: seq<Account>, now: int, pos: nat)
    requires FramesOk(s, m) && Distinct(m) && SameOpen(s, Names(m), ref.open) && pos < |m| == |accs|
    ensures var adv := Advanced(accs, s, now - ref.last);
            ChargedAll(ref, accs, Enter(now, m[pos].name), Names(m)) ==
              adv[pos := adv[pos].(calls := adv[pos].calls + 1)]
  {
    forall p | 0 <= p < |m|
      ensures ChargedAll(ref, accs, Enter(now, m[pos].name), Names(m))[p] ==
              Account(accs[p].time + (if |s| > 1 && s[|s| - 1].pos == p then now - ref.last else 0),
                      accs[p].calls + (if p == pos then 1 else 0), accs[p].use)
    {
      EnterAccount(s, m, ref, accs[p], now, pos, p);
    }
  }

  lemma EnterAccount(s: seq<Frame>, m: seq<Module>, ref: Ref, acc: Account, now: int, pos: nat, p: nat)
    requires FramesOk(s, m) && Distinct(m) && SameOpen(s, Names(m), ref.open) && pos < |m| && p < |m|
    ensures var time := acc.time + if |s| > 1 && s[|s| - 1].pos == p then now - ref.last else 0;
            Charged(ref, acc, Enter(now, m[pos].name), m[p].name) ==
            Account(time, acc.calls + (if p == pos then 1 else 0), acc.use)
  {
    RunningIs(s, m, ref, now, p);
    assert p != pos ==> m[p].name != m[pos].name;
  }

  /** An entry of the function at `pos`. */
  lemma EnterAgrees(s: seq<Frame>, m: seq<Module>, totTime: int, totCalls: int, ref: Ref, accs: seq<Account>, now: int,
                    pos: nat)
    requires pos < |m| && Agrees(s, m, totTime, totCalls, ref, accs)
    ensures var r := Enter(now, m[pos].name);
            Agrees(s + [Frame(pos, now, 0)], m, totTime, totCalls, Follow(ref, r), ChargedAll(ref, accs, r, Names(m)))
  {
    AdvanceLedger(s, m, totTime, totCalls, ref.last, now, accs, ref.idle, ref.calls);
    PushLedger(s, m, totTime, totCalls, now, Advanced(accs, s, now - ref.last), IdleAt(ref, now), ref.calls, pos);
    EnterAccounts(s, m, ref, accs, now, pos);
  }

  lemma EnterBooks(s: seq<Frame>, m: seq<Module>, totTime: int, totCalls: int, records: seq<Record>, now: int, pos: nat)
    requires pos < |m|
    requires Books(s, m, totTime, totCalls, records, records + [Enter(now, m[pos].name)])
    ensures var after := records + [Enter(now, m[pos].name)];
            Books(s + [Frame(pos, now, 0)], m, totTime, totCalls, after, after)
  {
    EnterAgrees(s, m, totTime, totCalls, RefOf(records), Accounts(records, Names(m)), now, pos);
    BooksStep(m, records, Enter(now, m[pos].name), s + [Frame(pos, now, 0)], m, totTime, totCalls);
  }

  // ---------------------------------------------------------------- an exit

  /** The accounts after the exit of the function at `pos`: time has run up to it, and then it may be unmatched. */
  lemma ExitAccounts(s: seq<Frame>, m: seq<Module>, ref: Ref, accs: seq<Account>, now: int, pos: nat)
    requires FramesOk(s, m) && Distinct(m) && SameOpen(s, Names(m), ref.open) && pos < |m| == |accs|
    ensures var r := Exit(now, m[pos].name);
            var adv := Advanced(accs, s, now - ref.last);
            ChargedAll(ref, accs, r, Names(m)) == if Unmatched(ref, r) then Repaid(adv, pos, IdleAt(ref, now)) else adv
  {
    var r := Exit(now, m[pos].name);
    forall p | 0 <= p < |m|
      ensures ChargedAll(ref, accs, r, Names(m))[p] == ExitOf(s, ref, accs[p], r, pos, p)
    {
      ExitAccount(s, m, ref, accs[p], now, pos, p);
    }
  }

  ghost function ExitOf(s: seq<Frame>, ref: Ref, acc: Account, r: Record, pos: nat, p: nat): Account
    requires r.Exit? && s != []
  {
    var time := acc.time + if |s| > 1 && s[|s| - 1].pos == p then r.time - ref.last else 0;
    if Unmatched(ref, r) && p == pos then Account(time + IdleAt(ref, r.time), acc.calls + 1, acc.use)
    else Account(time, acc.calls, acc.use)
  }

  /** ... for each of them. */
  lemma ExitAccount(s: seq<Frame>, m: seq<Module>, ref: Ref, acc: Account, now: int, pos: nat, p: nat)
    requires FramesOk(s, m) && Distinct(m) && SameOpen(s, Names(m), ref.open) && pos < |m| && p < |m|
    ensures var r := Exit(now, m[pos].name);
            Charged(ref, acc, r, m[p].name) == ExitOf(s, ref, acc, r, pos, p)
  {
    RunningIs(s, m, ref, now, p);
    assert p != pos ==> m[p].name != m[pos].name;
  }

  /** The account at `pos` with a call more, which took `time`. */
  ghost function Repaid(accs: seq<Account>, pos: nat, time: int): seq<Account>
    requires pos < |accs|
  {
    accs[pos := Account(accs[pos].time + time, accs[pos].calls + 1, accs[pos].use)]
  }

  /** An exit without entry takes what has run for the bottom of the stack. */
  lemma UnmatchedLedger(base: Frame, m: seq<Module>, totTime: int, totCalls: int, now: int, accs: seq<Account>,
                        idle: int, calls: int, pos: nat)
    requires Ledger([base], m, totTime, totCalls, now, accs, idle, calls) && pos < |m|
    ensures idle == now - base.time - base.children
    ensures Ledger([base.(time := now, children := 0)], Paid(m, pos, idle), totTime + idle, totCalls + 1, now,
                   Repaid(accs, pos, idle), 0, calls + 1)
  {
    var s, s', m', accs' := [base], [base.(time := now, children := 0)], Paid(m, pos, idle), Repaid(accs, pos, idle);
    forall p | 0 <= p < |m|
      ensures Settled(s', now, m', p, accs'[p])
    {
      assert Settled(s, now, m, p, accs[p]);
    }
    SumsUpdate(m, pos, m'[pos]);
    assert Children(s) == base.children && Children(s') == 0;
  }

  /** What the popping ends with on an exit of the function at `pos`. */
  ghost predicate Left(s: seq<Frame>, m: seq<Module>, ref: Ref, accs: seq<Account>, now: int, pos: nat, s': seq<Frame>,
                       m': seq<Module>, totTime': int, totCalls': int)
    requires s != [] && pos < |m| == |accs|
  {
    var adv := Advanced(accs, s, now - ref.last);
    var k := LastIn(ref.open, m[pos].name);
    if k > 0 then
      && |s'| == k && SamePos(s', s)
      && Ledger(s', m', totTime', totCalls', now, adv, IdleAt(ref, now), ref.calls)
    else
      |s'| == 1 && Ledger(s', m', totTime', totCalls', now, Repaid(adv, pos, IdleAt(ref, now)), 0, ref.calls + 1)
  }

  lemma ExitAgrees(s: seq<Frame>, m: seq<Module>, ref: Ref, accs: seq<Account>, now: int, pos: nat, s': seq<Frame>,
                   m': seq<Module>, totTime': int, totCalls': int)
    requires FramesOk(s, m) && Distinct(m) && SameOpen(s, Names(m), ref.open) && pos < |m| == |accs|
    requires Names(m') == Names(m) && Left(s, m, ref, accs, now, pos, s', m', totTime', totCalls')
    ensures var r := Exit(now, m[pos].name);
            Agrees(s', m', totTime', totCalls', Follow(ref, r), ChargedAll(ref, accs, r, Names(m)))
  {
    LastInIs(ref.open, m[pos].name);
    ExitAccounts(s, m, ref, accs, now, pos);
  }

  lemma ExitBooks(s: seq<Frame>, m: seq<Module>, records: seq<Record>, now: int, pos: nat, s': seq<Frame>,
                  m': seq<Module>, totTime': int, totCalls': int)
    requires FramesOk(s, m) && Distinct(m) && SameOpen(s, Names(m), RefOf(records).open) && pos < |m|
    requires Names(m) == FunctionsOf(records + [Exit(now, m[pos].name)]) && Names(m') == Names(m)
    requires Left(s, m, RefOf(records), Accounts(records, Names(m)), now, pos, s', m', totTime', totCalls')
    ensures var after := records + [Exit(now, m[pos].name)];
            Books(s', m', totTime', totCalls', after, after)
  {
    ExitAgrees(s, m, RefOf(records), Accounts(records, Names(m)), now, pos, s', m', totTime', totCalls');
    BooksStep(m, records, Exit(now, m[pos].name), s', m', totTime', totCalls');
  }

  // ---------------------------------------------------------------- a new name, stack use, nothing

  lemma {:induction false} NoneOf(s: seq<Frame>, last: int, p: nat)
    requires forall i | 1 <= i < |s| :: s[i].pos < p
    ensures Pending(s, last, p) == 0 && Entries(s, p) == 0
  {
    if |s| > 1 {
      NoneOf(s[..|s| - 1], s[|s| - 1].time, p);
    }
  }

  lemma NewLedger(s: seq<Frame>, m: seq<Module>, totTime: int, totCalls: int, last: int, accs: seq<Account>, idle: int,
                  calls: int, name: string)
    requires Ledger(s, m, totTime, totCalls, last, accs, idle, calls) && name !in Names(m)
    ensures Ledger(s, m + [Module(name, 0, 0, 0)], totTime, totCalls, last, accs + [Account(0, 0, 0)], idle, calls)
  {
    var m', accs' := m + [Module(name, 0, 0, 0)], accs + [Account(0, 0, 0)];
    forall p | 0 <= p < |m'|
      ensures Settled(s, last, m', p, accs'[p])
    {
      if p < |m| {
        assert Settled(s, last, m, p, accs[p]);
      } else {
        NoneOf(s, last, p);
      }
    }
    SumsAppend(m, Module(name, 0, 0, 0));
    assert forall i | 0 <= i < |m| :: Names(m)[i] != name;
  }

  lemma NewAgrees(s: seq<Frame>, m: seq<Module>, totTime: int, totCalls: int, ref: Ref, accs: seq<Account>,
                  name: string)
    requires Agrees(s, m, totTime, totCalls, ref, accs) && name !in Names(m)
    ensures var m' := m + [Module(name, 0, 0, 0)];
            Names(m') == Names(m) + [name] && Agrees(s, m', totTime, totCalls, ref, accs + [Account(0, 0, 0)])
  {
    NewLedger(s, m, totTime, totCalls, ref.last, accs, ref.idle, ref.calls, name);
    assert Names(m + [Module(name, 0, 0, 0)]) == Names(m) + [name];
  }

  lemma NewAccounts(records: seq<Record>, names: seq<string>, name: string)
    requires !Occurs(records, name)
    ensures Accounts(records, names + [name]) == Accounts(records, names) + [Account(0, 0, 0)]
  {
    NoAccount(records, name);
  }

  /** A record is at hand, and its function gets a module if it has none. */
  lemma NewBooks(s: seq<Frame>, m: seq<Module>, totTime: int, totCalls: int, records: seq<Record>, r: Record)
    requires Books(s, m, totTime, totCalls, records, records) && !r.Unknown?
    ensures var m' := if r.name in Names(m) then m else m + [Module(r.name, 0, 0, 0)];
            Books(s, m', totTime, totCalls, records, records + [r])
  {
    OneMoreRecord(records, r, r.name);
    if r.name !in Names(m) {
      NewAgrees(s, m, totTime, totCalls, RefOf(records), Accounts(records, Names(m)), r.name);
      NewAccounts(records, Names(m), r.name);
    }
  }

  /** The module at `pos` with at least `size` stack use. */
  ghost function Raised(m: seq<Module>, pos: nat, size: nat): seq<Module>
    requires pos < |m|
  {
    if size > m[pos].stkuse then m[pos := m[pos].(stkuse := size)] else m
  }

  lemma StackAccounts(m: seq<Module>, ref: Ref, accs: seq<Account>, r: Record, pos: nat)
    requires Distinct(m) && pos < |m| == |accs| && r.Stack? && r.name == m[pos].name
    ensures ChargedAll(ref, accs, r, Names(m)) ==
            if r.size > accs[pos].use then accs[pos := accs[pos].(use := r.size)] else accs
  {
    assert forall p | 0 <= p < |m| && p != pos :: m[p].name != m[pos].name;
  }

  lemma StackAgrees(s: seq<Frame>, m: seq<Module>, totTime: int, totCalls: int, ref: Ref, accs: seq<Account>, r: Record,
                    pos: nat)
    requires pos < |m| && Agrees(s, m, totTime, totCalls, ref, accs) && r.Stack? && r.name == m[pos].name
    ensures Agrees(s, Raised(m, pos, r.size), totTime, totCalls, Follow(ref, r), ChargedAll(ref, accs, r, Names(m)))
  {
    var m', accs' := Raised(m, pos, r.size), ChargedAll(ref, accs, r, Names(m));
    StackAccounts(m, ref, accs, r, pos);
    SumsUpdate(m, pos, m'[pos]);
    assert Settled(s, ref.last, m, pos, accs[pos]);
    forall p | 0 <= p < |m|
      ensures Settled(s, ref.last, m', p, accs'[p])
    {
      assert Settled(s, ref.last, m, p, accs[p]);
    }
  }

  lemma StackBooks(s: seq<Frame>, m: seq<Module>, totTime: int, totCalls: int, records: seq<Record>, r: Record,
                   pos: nat)
    requires pos < |m| && r.Stack? && r.name == m[pos].name
    requires Books(s, m, totTime, totCalls, records, records + [r])
    ensures Books(s, Raised(m, pos, r.size), totTime, totCalls, records + [r], records + [r])
  {
    var m' := Raised(m, pos, r.size);
    assert Names(m') == Names(m);
    StackAgrees(s, m, totTime, totCalls, RefOf(records), Accounts(records, Names(m)), r, pos);
    BooksStep(m, records, r, s, m', totTime, totCalls);
  }

  lemma UnknownBooks(s: seq<Frame>, m: seq<Module>, totTime: int, totCalls: int, records: seq<Record>)
    requires Books(s, m, totTime, totCalls, records, records)
    ensures Books(s, m, totTime, totCalls, records + [Unknown], records + [Unknown])
  {
    OneMoreRecord(records, Unknown, "");
    var ref, accs := RefOf(records), Accounts(records, Names(m));
    assert ChargedAll(ref, accs, Unknown, Names(m)) == accs;
    BooksStep(m, records, Unknown, s, m, totTime, totCalls);
  }

  // ---------------------------------------------------------------- the end

  /** With nothing on the stack every module has what its account says, and all time but the idle one is charged. */
  lemma AllPaid(base: Frame, m: seq<Module>, totTime: int, totCalls: int, last: int, accs: seq<Account>, idle: int,
                calls: int)
    requires Ledger([base], m, totTime, totCalls, last, accs, idle, calls)
    ensures forall p | 0 <= p < |m| :: m[p] == Module(m[p].name, accs[p].time, accs[p].calls, accs[p].use)
    ensures totTime == last - idle && totCalls == calls
  {
    assert Children([base]) == base.children;
    forall p | 0 <= p < |m|
      ensures m[p] == Module(m[p].name, accs[p].time, accs[p].calls, accs[p].use)
    {
      assert Settled([base], last, m, p, accs[p]);
    }
  }

  /** Nothing is on the books at the start. */
  lemma FirstBooks()
    ensures Books([Frame(0, 0, 0)], [], 0, 0, [], [])
  {
    assert Children([Frame(0, 0, 0)]) == 0;
  }
}
