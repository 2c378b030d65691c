/**
 The stack addresses of the profile report, "from highstack down to lowstack".  The highest one is right; the
 lowest one is not looked for in a record that is a new highest one.
 */
module StackMarks {
  import opened ProfileLedger

  /** The largest unsigned long, from which lowstack starts. */
  const TOP: nat := 0xFFFF_FFFF_FFFF_FFFF

  /** The addresses in the stack records, in their order. */
  ghost function Bottoms(records: seq<Record>): seq<nat> {
    if records == [] then []
    else
      var r := records[|records| - 1];
      Bottoms(records[..|records| - 1]) + if r.Stack? then [r.bottom] else []
  }

  /** highstack after these addresses: the largest of them. */
  ghost function High(bs: seq<nat>): (r: nat)
    ensures forall x | x in bs :: x <= r
    ensures r == 0 || r in bs
  {
    if bs == [] then 0
    else
      var n := |bs| - 1;
      assert bs == bs[..n] + [bs[n]];
      var h := High(bs[..n]);
      if bs[n] > h then bs[n] else h
  }

  /** Address `i` is not above all before it. */
  ghost predicate Looked(bs: seq<nat>, i: nat) {
    i < |bs| && bs[i] <= High(bs[..i])
  }

  /** `low` is the smallest address that is looked at, or the largest number. */
  ghost predicate IsLow(bs: seq<nat>, low: nat) {
    && (forall i: nat | Looked(bs, i) :: low <= bs[i])
    && low <= TOP && (low == TOP || exists i: nat :: Looked(bs, i) && bs[i] == low)
  }

  /** lowstack after these addresses. */
  ghost function Low(bs: seq<nat>): (r: nat)
    ensures IsLow(bs, r)
  {
    if bs == [] then TOP
    else
      var n := |bs| - 1;
      assert bs[..n] + [bs[n]] == bs;
      assert forall i: nat | i < n :: bs[..n][..i] == bs[..i] && bs[..n][i] == bs[i];
      assert forall i: nat | i < n :: Looked(bs[..n], i) <==> Looked(bs, i);
      var l := Low(bs[..n]);
      if bs[n] <= High(bs[..n]) && bs[n] < l then assert Looked(bs, n); bs[n] else l
  }

  /** highstack after one more record. */
  function HighAfter(high: nat, r: Record): nat {
    if r.Stack? && r.bottom > high then r.bottom else high
  }

  /** lowstack after one more record. */
  function LowAfter(high: nat, low: nat, r: Record): nat {
    if r.Stack? && r.bottom <= high && r.bottom < low then r.bottom else low
  }

  /** `high` and `low` are highstack and lowstack after the records. */
  ghost predicate Marks(records: seq<Record>, high: nat, low: nat) {
    high == High(Bottoms(records)) && low == Low(Bottoms(records))
  }

  lemma MarksStep(records: seq<Record>, i: nat, high: nat, low: nat)
    requires i < |records| && Marks(records[..i], high, low)
    ensures Marks(records[..i + 1], HighAfter(high, records[i]), LowAfter(high, low, records[i]))
  {
    var r := records[i];
    assert records[..i + 1][..i] == records[..i];
    var bs := Bottoms(records[..i]);
    if r.Stack? {
      assert (bs + [r.bottom])[..|bs|] == bs;
    } else {
      assert bs + [] == bs;
    }
  }

  ghost predicate Lowest(bs: seq<nat>, low: nat) {
    low in bs && forall x | x in bs :: low <= x
  }

  /** The first address is looked at only if it is 0; what is at most the first one is looked at later. */
  lemma WhatIsLooked(bs: seq<nat>, i: nat)
    requires i < |bs|
    ensures i == 0 ==> (Looked(bs, i) <==> bs[0] == 0)
    ensures i > 0 && bs[i] <= bs[0] ==> Looked(bs, i)
  {
    if i > 0 {
      assert bs[..i][0] == bs[0] && bs[0] in bs[..i];
    } else {
      assert bs[..i] == [];
    }
  }

  /** One that is at most the first one is looked at ... */
  lemma LowFound(bs: seq<nat>, low: nat, i: nat)
    requires IsLow(bs, low) && i < |bs| && bs[i] <= bs[0] && Looked(bs, i) && forall x | x in bs :: x <= TOP
    ensures Lowest(bs, low)
  {
    assert low <= bs[i];
    forall j: nat | j < |bs|
      ensures low <= bs[j]
    {
      WhatIsLooked(bs, j);
    }
    assert bs[i] in bs;
  }

  /** ... or there is none. */
  lemma LowMissed(bs: seq<nat>, low: nat)
    requires bs != [] && IsLow(bs, low) && bs[0] > 0 && forall i | 1 <= i < |bs| :: bs[i] > bs[0]
    ensures low == TOP || low > bs[0]
  {
    WhatIsLooked(bs, 0);
  }

  /**
   lowstack is the lowest address exactly if the first one is not the only lowest one; that one is looked at only
   if it is 0, and makes no difference if it is the largest number.
   */
  lemma LowExactly(bs: seq<nat>, low: nat)
    requires bs != [] && low == Low(bs) && forall x | x in bs :: x <= TOP
    ensures Lowest(bs, low) <==> bs[0] == 0 || bs[0] == TOP || exists i :: 1 <= i < |bs| && bs[i] <= bs[0]
  {
    if i: nat :| 1 <= i < |bs| && bs[i] <= bs[0] {
      WhatIsLooked(bs, i);
      LowFound(bs, low, i);
    } else if bs[0] == 0 {
      WhatIsLooked(bs, 0);
      LowFound(bs, low, 0);
    } else {
      LowMissed(bs, low);
      assert bs[0] in bs;
    }
  }

  /** With one stack record, the report goes down to the largest number. */
  lemma OneRecordNoLow(b: nat)
    requires 0 < b < TOP
    ensures High([b]) == b && Low([b]) == TOP && !Lowest([b], Low([b]))
  {
    assert [b][..0] == [];
  }
}
