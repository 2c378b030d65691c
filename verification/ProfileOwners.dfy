/**
 Who pays for the time between two records of a profile, and what counts as a call, said without running totals:
 every stretch of time has one owner at most, and an account is the sum of what its function owns.
 */
module ProfileOwners {
  import opened Wrappers
  import opened ProfileLedger

  /** What a record does to the functions open. */
  lemma OpenAfter(records: seq<Record>, r: Record)
    ensures var open, open' := RefOf(records).open, RefOf(records + [r]).open;
            && (r.Enter? ==> open' == open + [r.name])
            && (r.Exit? && r.name in open ==>
                  var k := |open'|;
                  k < |open| && open' == open[..k] && open[k] == r.name && r.name !in open[k + 1..])
            && (r.Exit? && r.name !in open ==> open' == [])
            && (!r.Enter? && !r.Exit? ==> open' == open)
  {
    OneMoreRecord(records, r, "");
    if r.Exit? {
      LastInIs(RefOf(records).open, r.name);
    }
  }

  /** Record `i` is an exit of a function that is not open. */
  ghost predicate UnmatchedAt(records: seq<Record>, i: nat) {
    i < |records| && records[i].Exit? && records[i].name !in RefOf(records[..i]).open
  }

  /** The function of the next such exit from `i` on. */
  ghost function NextUnmatched(records: seq<Record>, i: nat): Option<string>
    decreases |records| - i
  {
    if i >= |records| then None
    else if UnmatchedAt(records, i) then Some(records[i].name)
    else NextUnmatched(records, i + 1)
  }

  /** It is the one at `j`, with none before it. */
  lemma {:induction false} NextIs(records: seq<Record>, i: nat, j: nat)
    requires i <= j <= |records| && (j < |records| ==> UnmatchedAt(records, j))
    requires forall k: nat {:trigger UnmatchedAt(records, k)} | i <= k < j :: !UnmatchedAt(records, k)
    ensures NextUnmatched(records, i) == if j < |records| then Some(records[j].name) else None
    decreases |records| - i
  {
    if i < j {
      NextIs(records, i + 1, j);
    }
  }

  /** Whose time it is before record `i`: that of the function entered last, or else of the next unmatched exit. */
  ghost function Owner(records: seq<Record>, i: nat): Option<string>
    requires i < |records|
  {
    TopOr(RefOf(records[..i]).open, NextUnmatched(records, i))
  }

  ghost function TopOr(open: seq<string>, next: Option<string>): Option<string> {
    if open != [] then Some(open[|open| - 1]) else next
  }

  /** The time between record `i` and the entry or exit before it. */
  ghost function Stretch(records: seq<Record>, i: nat): int
    requires i < |records|
  {
    var r := records[i];
    if r.Enter? || r.Exit? then r.time - RefOf(records[..i]).last else 0
  }

  /** The time with the owner `f` before the first `n` records; that of nobody if `f` is none. */
  ghost function Owned(records: seq<Record>, f: Option<string>, n: nat): int
    requires n <= |records|
  {
    if n == 0 then 0 else Owned(records, f, n - 1) + if Owner(records, n - 1) == f then Stretch(records, n - 1) else 0
  }

  // ---------------------------------------------------------------- one more record

  lemma {:induction false} NextAfter(records: seq<Record>, r: Record, i: nat)
    requires i <= |records|
    ensures var f, f' := NextUnmatched(records, i), NextUnmatched(records + [r], i);
            f' == if f.Some? then f else if Unmatched(RefOf(records), r) then Some(r.name) else None
    decreases |records| - i
  {
    var all := records + [r];
    if i == |records| {
      assert all[..i] == records;
      assert NextUnmatched(all, i + 1) == None;
    } else {
      assert all[..i] == records[..i];
      NextAfter(records, r, i + 1);
    }
  }

  lemma SameBefore(records: seq<Record>, r: Record, i: nat)
    requires i <= |records|
    ensures (records + [r])[..i] == records[..i]
  {
  }

  lemma OwnerAfter(records: seq<Record>, r: Record, i: nat)
    requires i < |records|
    ensures var f, f' := Owner(records, i), Owner(records + [r], i);
            f' == if f.Some? then f else if Unmatched(RefOf(records), r) then Some(r.name) else None
    ensures Stretch(records + [r], i) == Stretch(records, i)
  {
    SameBefore(records, r, i);
    NextAfter(records, r, i);
  }

  /** The last stretch. */
  lemma LastStretch(records: seq<Record>, r: Record)
    ensures var all, n, ref := records + [r], |records|, RefOf(records);
            && Stretch(all, n) == (if r.Enter? || r.Exit? then r.time - ref.last else 0)
            && Owner(all, n) ==
               if ref.open != [] then Some(ref.open[|ref.open| - 1])
               else if Unmatched(ref, r) then Some(r.name) else None
  {
    SameBefore(records, r, |records|);
    assert NextUnmatched(records, |records|) == None;
    NextAfter(records, r, |records|);
    assert records[..|records|] == records;
  }

  /** What an unmatched exit takes over of the time that was nobody's. */
  lemma {:induction false} OwnedAfter(records: seq<Record>, r: Record, f: Option<string>, n: nat)
    requires n <= |records|
    ensures Owned(records + [r], f, n) ==
            if !Unmatched(RefOf(records), r) then Owned(records, f, n)
            else if f.None? then 0
            else Owned(records, f, n) + if f.value == r.name then Owned(records, None, n) else 0
  {
    if n > 0 {
      OwnedAfter(records, r, f, n - 1);
      OwnerAfter(records, r, n - 1);
    }
  }

  /** All of it after one more record, from what it was. */
  lemma OwnedStep(records: seq<Record>, r: Record, f: Option<string>, mine: int, free: int)
    requires mine == Owned(records, f, |records|) && free == Owned(records, None, |records|)
    ensures Owned(records + [r], f, |records| + 1) == OwnedNow(RefOf(records), r, f, mine, free)
  {
    OwnedAfter(records, r, f, |records|);
    LastStretch(records, r);
  }

  ghost function OwnedNow(ref: Ref, r: Record, f: Option<string>, mine: int, free: int): int {
    var taken :=
      if !Unmatched(ref, r) then mine else if f.None? then 0 else mine + if f.value == r.name then free else 0;
    var owner := TopOr(ref.open, if Unmatched(ref, r) then Some(r.name) else None);
    taken + if owner == f && (r.Enter? || r.Exit?) then r.time - ref.last else 0
  }

  lemma TimeStep(ref: Ref, acc: Account, r: Record, f: string)
    ensures Charged(ref, acc, r, f).time == OwnedNow(ref, r, Some(f), acc.time, ref.idle)
    ensures Follow(ref, r).idle == OwnedNow(ref, r, None, ref.idle, ref.idle)
  {
    if r.Exit? {
      LastInIs(ref.open, r.name);
    }
  }

  /** An account has exactly the time that its function owns, and the idle time is what nobody owns. */
  lemma {:induction false} TimeIsOwned(records: seq<Record>, f: string)
    ensures AccountOf(records, f).time == Owned(records, Some(f), |records|)
    ensures RefOf(records).idle == Owned(records, None, |records|)
  {
    if records != [] {
      var n := |records| - 1;
      var before, r := records[..n], records[n];
      assert records == before + [r];
      TimeIsOwned(before, f);
      OneMoreRecord(before, r, f);
      var acc, idle := AccountOf(before, f), RefOf(before).idle;
      OwnedStep(before, r, Some(f), acc.time, idle);
      OwnedStep(before, r, None, idle, idle);
      TimeStep(RefOf(before), acc, r, f);
    }
  }

  // ---------------------------------------------------------------- calls and stack use

  /** Record `i` is an entry of `f`, or an exit of it without one. */
  ghost predicate CallAt(records: seq<Record>, f: string, i: nat) {
    i < |records| && ((records[i].Enter? && records[i].name == f) || (UnmatchedAt(records, i) && records[i].name == f))
  }

  ghost function CallsOf(records: seq<Record>, f: string): (r: set<nat>)
    ensures forall i: nat :: i in r <==> CallAt(records, f, i)
  {
    set i: nat | i < |records| && CallAt(records, f, i)
  }

  lemma CallAfter(records: seq<Record>, r: Record, f: string, i: nat)
    ensures CallAt(records + [r], f, i) ==
            if i < |records| then CallAt(records, f, i)
            else i == |records| && (r.Enter? || Unmatched(RefOf(records), r)) && r.name == f
  {
    if i <= |records| {
      SameBefore(records, r, i);
      assert records[..|records|] == records;
    }
  }

  lemma CallsAfter(records: seq<Record>, r: Record, f: string)
    ensures var call := (r.Enter? || Unmatched(RefOf(records), r)) && r.name == f;
            CallsOf(records + [r], f) == CallsOf(records, f) + if call then {|records|} else {}
  {
    forall i: nat
      ensures CallAt(records + [r], f, i) ==
              if i < |records| then CallAt(records, f, i)
              else i == |records| && (r.Enter? || Unmatched(RefOf(records), r)) && r.name == f
    {
      CallAfter(records, r, f, i);
    }
  }

  /** Its calls are these records. */
  lemma {:induction false} CallsAre(records: seq<Record>, f: string)
    ensures AccountOf(records, f).calls == |CallsOf(records, f)|
  {
    if records == [] {
      assert CallsOf(records, f) == {};
    } else {
      var n := |records| - 1;
      var before, r := records[..n], records[n];
      assert records == before + [r];
      CallsAre(before, f);
      OneMoreRecord(before, r, f);
      CallsAfter(before, r, f);
    }
  }

  /** Record `i` is about the stack use of `f`. */
  ghost predicate UseAt(records: seq<Record>, f: string, i: nat) {
    i < |records| && records[i].Stack? && records[i].name == f
  }

  /** Its stack use is the largest one recorded. */
  lemma {:induction false} UseIsLargest(records: seq<Record>, f: string)
    ensures var use := AccountOf(records, f).use;
            && (forall i: nat | UseAt(records, f, i) :: records[i].size <= use)
            && (use == 0 || exists i: nat :: UseAt(records, f, i) && records[i].size == use)
  {
    if records != [] {
      var n := |records| - 1;
      var before, r := records[..n], records[n];
      assert records == before + [r];
      UseIsLargest(before, f);
      OneMoreRecord(before, r, f);
      assert forall i: nat | i < n :: UseAt(before, f, i) <==> UseAt(records, f, i);
      if UseAt(records, f, n) && r.size == AccountOf(records, f).use {
        assert UseAt(records, f, n) && records[n].size == AccountOf(records, f).use;
      } else if AccountOf(before, f).use != 0 {
        var i: nat :| UseAt(before, f, i) && before[i].size == AccountOf(before, f).use;
        assert UseAt(records, f, i);
      }
    }
  }

  /** Record `i` is about `f`. */
  ghost predicate AboutAt(records: seq<Record>, f: string, i: nat) {
    i < |records| && !records[i].Unknown? && records[i].name == f
  }

  /** The functions of a profile are those that some record is about. */
  lemma {:induction false} OccursExactly(records: seq<Record>, f: string)
    ensures Occurs(records, f) <==> exists i: nat :: AboutAt(records, f, i)
  {
    if records != [] {
      var n := |records| - 1;
      var before, r := records[..n], records[n];
      assert records == before + [r];
      OccursExactly(before, f);
      OneMoreRecord(before, r, f);
      assert forall i: nat | i < n :: AboutAt(before, f, i) <==> AboutAt(records, f, i);
      assert AboutAt(records, f, n) <==> !r.Unknown? && r.name == f;
      assert forall i: nat | AboutAt(before, f, i) :: AboutAt(records, f, i);
    }
  }
}
