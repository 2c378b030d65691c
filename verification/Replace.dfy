/**
 The replace program for plain strings: init_replace followed by replace_strings
 computes exactly the leftmost-longest replacement of each line.
 */
module Replace {
  import opened Wrappers
  import opened LeftmostLongest
  import opened FollowTable
  import opened MatchStates
  import opened Automaton
  import opened Construction

  datatype Result<+T> = Ok(value: T) | EmptyFromString

  /** Target of a transition: a state, or an entry of the replacement table. */
  datatype Ref = State(n: nat) | Entry(n: nat)

  datatype ReplaceString = ReplaceString(replaceString: Option<seq<Byte>>, toOffset: int, fromOffset: int)

  datatype Machine = Machine(next: seq<seq<Ref>>, repStr: seq<ReplaceString>)

  // ---------------------------------------------------------------- what a machine must be

  function RefOf(n: int): Ref {
    if n >= 0 then State(n) else Entry(-n - 1)
  }

  function EntryOf(from: seq<seq<Byte>>, to: seq<seq<Byte>>, e: FoundSet): ReplaceString
    requires |from| == |to| && 0 <= e.tableOffset < |from|
  {
    ReplaceString(Some(to[e.tableOffset]), e.foundOffset, e.foundOffset - |from[e.tableOffset]|)
  }

  ghost predicate MachineOf(from: seq<seq<Byte>>, to: seq<seq<Byte>>, f: seq<Follow>, maxLength: nat,
                            sets: seq<RepSet>, found: seq<FoundSet>, rep: Machine)
  {
    && |from| == |to|
    && Inv(from, f, sets, found, maxLength, |sets|)
    && |rep.next| == |sets|
    && (forall q | 0 <= q < |sets| :: |rep.next[q]| == 256)
    && (forall q, c: Byte | 0 <= q < |sets| :: rep.next[q][c] == RefOf(sets[q].next[c]))
    && |rep.repStr| == |found| + 1
    && rep.repStr[0] == ReplaceString(None, 0, 0)
    && (forall i | 0 <= i < |found| :: rep.repStr[i + 1] == EntryOf(from, to, found[i]))
  }

  /** Every reference is in range and the end of a line leaves the states. */
  ghost predicate Safe(rep: Machine) {
    && 2 <= |rep.next|
    && (forall q | 0 <= q < |rep.next| :: |rep.next[q]| == 256 && rep.next[q][0].Entry?)
    && (forall q, c: Byte | 0 <= q < |rep.next| ::
          match rep.next[q][c]
          case State(n) => n < |rep.next|
          case Entry(n) => n < |rep.repStr|)
  }

  /** Where reading `s` leads from state `q`; an entry is not left again. */
  ghost function Run(rep: Machine, q: nat, s: seq<Byte>): (r: Ref)
    requires Safe(rep) && q < |rep.next|
    ensures r.State? ==> r.n < |rep.next|
    ensures r.Entry? ==> r.n < |rep.repStr|
  {
    if s == [] then State(q)
    else
      var r := Run(rep, q, s[..|s| - 1]);
      if r.State? then rep.next[r.n][s[|s| - 1]] else r
  }

  /** Entry `k` is reached from initial state `q` exactly when `read` bytes of the line are consumed. */
  ghost predicate Reaches(rep: Machine, q: nat, line: seq<Byte>, read: nat, k: nat)
    requires Safe(rep) && q <= 1
  {
    && 1 <= read <= |line| + 1
    && Run(rep, q, (line + [0])[..read]) == Entry(k)
    && Run(rep, q, (line + [0])[..read - 1]).State?
  }

  /** Entry `k` tells how to replace the best occurrence of the line, or that there is none. */
  ghost predicate EntryFor(from: seq<seq<Byte>>, to: seq<seq<Byte>>, rep: Machine, line: seq<Byte>, read: nat, k: nat)
    requires |from| == |to| && k < |rep.repStr|
  {
    match Best(from, line)
    case None => rep.repStr[k].replaceString.None? && read == |line| + 1
    case Some(o) =>
      && o.start + |from[o.which]| <= read
      && rep.repStr[k] == ReplaceString(Some(to[o.which]), read - o.start, read - o.start - |from[o.which]|)
  }

  /** `rep` is an automaton for these pairs: on every line, whatever entry it reaches is the right one. */
  ghost predicate Correct(from: seq<seq<Byte>>, to: seq<seq<Byte>>, rep: Machine) {
    && |from| == |to|
    && Safe(rep)
    && forall q: nat, line: seq<Byte>, read: nat, k: nat | q <= 1 && 0 !in line && Reaches(rep, q, line, read, k) ::
         EntryFor(from, to, rep, line, read, k)
  }

  // ---------------------------------------------------------------- init_replace

  method InitReplace(from: seq<seq<Byte>>, to: seq<seq<Byte>>) returns (r: Result<Machine>)
    requires |from| == |to| && forall i | 0 <= i < |from| :: Plain(from[i])
    ensures r.EmptyFromString? <==> [] in from
    ensures r.Ok? ==> AllPlain(from) && Correct(from, to, r.value)
  {
    var maxLength: nat := 0;
    for i := 0 to |from|
      invariant forall j | 0 <= j < i :: from[j] != [] && |from[j]| <= maxLength
    {
      if |from[i]| == 0 {
        return EmptyFromString;
      }
      if |from[i]| > maxLength {
        maxLength := |from[i]|;
      }
    }
    var founds := new FoundSets(|from| * maxLength);
    var sets := new RepSets();
    sets.MakeNewSet();
    sets.MakeNewSet();
    var follow, starts := BuildFollow(from);
    sets.sets := [sets.sets[0].(bits := starts), sets.sets[1].(bits := starts)];
    InitialSets(from, follow, maxLength, sets.sets);
    BuildSets(sets, founds, from, follow, maxLength);
    var rep := Link(from, to, follow, maxLength, sets.sets, founds.found);
    MachineCorrect(from, to, follow, maxLength, sets.sets, founds.found, rep);
    r := Ok(rep);
  }

  lemma InitialSets(from: seq<seq<Byte>>, f: seq<Follow>, maxLength: nat, sets: seq<RepSet>)
    requires AllPlain(from) && f == Table(from, |from|)
    requires forall i | 0 <= i < |from| :: |from[i]| <= maxLength
    requires |sets| == 2 && sets[0].bits == sets[1].bits == StartCells(f)
    ensures Inv(from, f, sets, [], maxLength, 0)
  {
    TableWellFormed(from, |from|);
    EmptyText(from, f);
    assert Den(from, f, sets[0], []) && Den(from, f, sets[1], []);
  }

  /** Turns the numbers in next[] into references. */
  method LinkStates(sets: seq<RepSet>) returns (next: seq<seq<Ref>>)
    requires forall q | 0 <= q < |sets| :: |sets[q].next| == 256
    ensures |next| == |sets| && forall q | 0 <= q < |sets| :: next[q] == LinkRow(sets[q].next)
  {
    next := [];
    for i := 0 to |sets|
      invariant |next| == i && forall q | 0 <= q < i :: next[q] == LinkRow(sets[q].next)
    {
      next := next + [LinkRow(sets[i].next)];
    }
  }

  /** Fills the replacement table; its first entry is for the end of the line. */
  method LinkEntries(from: seq<seq<Byte>>, to: seq<seq<Byte>>, found: seq<FoundSet>)
    returns (repStr: seq<ReplaceString>)
    requires |from| == |to| && forall j | 0 <= j < |found| :: 0 <= found[j].tableOffset < |from|
    ensures |repStr| == |found| + 1 && repStr[0] == ReplaceString(None, 0, 0)
    ensures forall j | 0 <= j < |found| :: repStr[j + 1] == EntryOf(from, to, found[j])
  {
    repStr := [ReplaceString(None, 0, 0)];
    for i := 0 to |found|
      invariant |repStr| == i + 1 && repStr[0] == ReplaceString(None, 0, 0)
      invariant forall j | 0 <= j < i :: repStr[j + 1] == EntryOf(from, to, found[j])
    {
      repStr := repStr + [EntryOf(from, to, found[i])];
    }
  }

  /** The machine out of the sets and the found table. */
  method Link(from: seq<seq<Byte>>, to: seq<seq<Byte>>, ghost f: seq<Follow>, ghost maxLength: nat,
              sets: seq<RepSet>, found: seq<FoundSet>) returns (rep: Machine)
    requires |from| == |to| && Inv(from, f, sets, found, maxLength, |sets|)
    ensures MachineOf(from, to, f, maxLength, sets, found, rep)
  {
    forall q | 0 <= q < |sets|
      ensures |sets[q].next| == 256
    {
      assert Complete(from, f, sets, found, sets[q]);
    }
    var repStr := LinkEntries(from, to, found);
    var next := LinkStates(sets);
    rep := Machine(next, repStr);
  }

  function LinkRow(next: seq<int>): (row: seq<Ref>)
    ensures |row| == |next| && forall c | 0 <= c < |next| :: row[c] == RefOf(next[c])
  {
    seq(|next|, c requires 0 <= c < |next| => RefOf(next[c]))
  }

  // ---------------------------------------------------------------- replace_strings

  /** Where the run is: at `pos` after reading `t`, the beginning of `rest`. */
  ghost predicate At(from: seq<seq<Byte>>, f: seq<Follow>, sets: seq<RepSet>, found: seq<FoundSet>,
                     pos: Ref, rest: seq<Byte>, read: nat)
    requires Cells(from, f)
  {
    match pos
    case State(q) => read <= |rest| && q < |sets| && Den(from, f, sets[q], rest[..read])
    case Entry(k) =>
      read <= |rest| + 1 && k <= |found| &&
      match Best(from, rest)
      case None => k == 0 && read == |rest| + 1
      case Some(o) =>
        k != 0 && o.start + |from[o.which]| <= read && found[k - 1] == FoundSet(o.which, read - o.start)
  }

  /** One step of the inner loop. */
  lemma Advances(from: seq<seq<Byte>>, f: seq<Follow>, sets: seq<RepSet>, found: seq<FoundSet>, maxLength: nat,
                 q: nat, rest: seq<Byte>, read: nat, c: Byte)
    requires Inv(from, f, sets, found, maxLength, |sets|)
    requires 0 !in rest && At(from, f, sets, found, State(q), rest, read)
    requires c == if read < |rest| then rest[read] else 0
    ensures |sets[q].next| == 256
    ensures At(from, f, sets, found, RefOf(sets[q].next[c]), rest, read + 1)
  {
    var t := rest[..read];
    var n := StepTarget(from, f, sets, found, maxLength, q, t, c);
    if read < |rest| {
      Snoc(rest, read);
      ReadsOn(from, f, sets, found, n, rest, read + 1);
    } else {
      assert t == rest;
      LineEnds(from, f, sets, found, n, rest);
    }
  }

  lemma Snoc(s: seq<Byte>, i: nat)
    requires i < |s|
    ensures s[..i] + [s[i]] == s[..i + 1] && s[i] in s
  {
  }

  lemma LineEnds(from: seq<seq<Byte>>, f: seq<Follow>, sets: seq<RepSet>, found: seq<FoundSet>,
                 n: int, rest: seq<Byte>)
    requires Cells(from, f) && Stops(from, found, n, rest)
    ensures At(from, f, sets, found, RefOf(n), rest, |rest| + 1)
  {
  }

  /** The replacement entry reached, in terms of the best occurrence in the rest of the line. */
  lemma EntryReached(from: seq<seq<Byte>>, to: seq<seq<Byte>>, f: seq<Follow>, maxLength: nat,
                     sets: seq<RepSet>, found: seq<FoundSet>, rep: Machine, k: nat, rest: seq<Byte>, read: nat)
    requires MachineOf(from, to, f, maxLength, sets, found, rep)
    requires At(from, f, sets, found, Entry(k), rest, read)
    ensures k < |rep.repStr| && EntryFor(from, to, rep, rest, read, k)
  {
    if k > 0 {
      assert rep.repStr[(k - 1) + 1] == EntryOf(from, to, found[k - 1]);
    }
  }

  /** The transition stored in a finished state. */
  lemma StepTarget(from: seq<seq<Byte>>, f: seq<Follow>, sets: seq<RepSet>, found: seq<FoundSet>, maxLength: nat,
                   q: nat, t: seq<Byte>, c: Byte) returns (n: int)
    requires Inv(from, f, sets, found, maxLength, |sets|) && q < |sets| && Den(from, f, sets[q], t)
    ensures |sets[q].next| == 256 && n == sets[q].next[c] && Target(from, f, sets, found, n, t, c)
  {
    assert Complete(from, f, sets, found, sets[q]);
    n := sets[q].next[c];
    assert TargetAll(from, f, sets, found, sets[q], n, c);
  }

  lemma ReadsOn(from: seq<seq<Byte>>, f: seq<Follow>, sets: seq<RepSet>, found: seq<FoundSet>,
                n: int, rest: seq<Byte>, read: nat)
    requires Cells(from, f) && read <= |rest| && Leads(from, f, sets, found, n, rest[..read])
    ensures At(from, f, sets, found, RefOf(n), rest, read)
  {
    if Final(from, f, rest[..read]) {
      FinalStays(from, f, rest[..read], rest);
    }
  }

  /** Stores one byte, enlarging the buffer first when only its last cell is left. */
  method Put(buf: array<Byte>, to: nat, b: Byte, bigger: nat) returns (r: array<Byte>)
    requires to < buf.Length < bigger
    modifies buf
    ensures r == buf || fresh(r)
    ensures to + 1 < r.Length && buf.Length <= r.Length
    ensures r[..to + 1] == old(buf[..to]) + [b]
  {
    r := buf;
    if to == buf.Length - 1 {
      r := new Byte[bigger];
      for i := 0 to to
        invariant forall j | 0 <= j < i :: r[j] == buf[j]
        invariant buf[..to] == old(buf[..to])
      {
        r[i] := buf[i];
      }
      assert r[..to] == old(buf[..to]);
    }
    r[to] := b;
  }

  /** Copies a replacement text behind the output written so far. */
  method PutAll(buf: array<Byte>, to: nat, text: seq<Byte>) returns (r: array<Byte>, to': nat)
    requires to < buf.Length
    modifies buf
    ensures r == buf || fresh(r)
    ensures to' < r.Length && r[..to'] == old(buf[..to]) + text
  {
    r, to' := buf, to;
    for i := 0 to |text|
      invariant r == buf || fresh(r)
      invariant to' < r.Length && r[..to'] == old(buf[..to]) + text[..i]
    {
      r := Put(r, to', text[i], 2 * r.Length);
      to' := to' + 1;
    }
  }

  /** The inner loop: copies input to output until an entry is reached. */
  method Scan(rep: Machine, buf0: array<Byte>, out0: nat, text: seq<Byte>, i0: nat, q: nat, ghost n: nat)
    returns (buf: array<Byte>, out: nat, i: nat, k: nat)
    requires Safe(rep) && q <= 1
    requires i0 <= n < |text| && text[n] == 0
    requires out0 < buf0.Length
    modifies buf0
    ensures buf == buf0 || fresh(buf)
    ensures i0 <= i <= n + 1 && out0 + (i - i0) == out < buf.Length
    ensures buf[..out] == old(buf0[..out0]) + text[i0..i]
    ensures Reaches(rep, q, text[i0..n], i - i0, k)
  {
    buf, out, i := buf0, out0, i0;
    var pos := State(q);
    ghost var line, done := text[i0..n], buf0[..out0];
    while pos.State?
      invariant buf == buf0 || fresh(buf)
      invariant i0 <= i <= n + 1 && out0 + (i - i0) == out < buf.Length
      invariant buf[..out] == done + text[i0..i]
      invariant pos == Run(rep, q, (line + [0])[..i - i0])
      invariant pos.Entry? ==> i > i0 && Run(rep, q, (line + [0])[..i - i0 - 1]).State?
      invariant i == n + 1 ==> pos.Entry?
      decreases n + 1 - i
    {
      RunStep(rep, q, text, i0, n, i, done);
      pos := rep.next[pos.n][text[i]];
      buf := Put(buf, out, text[i], buf.Length + 8192);
      out, i := out + 1, i + 1;
    }
    k := pos.n;
  }

  lemma RunStep(rep: Machine, q: nat, text: seq<Byte>, i0: nat, n: nat, i: nat, done: seq<Byte>)
    requires Safe(rep) && q <= 1 && i0 <= i <= n < |text| && text[n] == 0
    ensures var s := text[i0..n] + [0];
            var r := Run(rep, q, s[..i - i0]);
            r.State? ==> Run(rep, q, s[..i + 1 - i0]) == rep.next[r.n][text[i]]
    ensures done + text[i0..i] + [text[i]] == done + text[i0..i + 1]
  {
    var s := text[i0..n] + [0];
    RunSnoc(rep, q, s, i - i0);
    assert text[i0..i] + [text[i]] == text[i0..i + 1];
    assert done + text[i0..i] + [text[i]] == done + (text[i0..i] + [text[i]]);
  }

  lemma SpliceText(done: seq<Byte>, kept: seq<Byte>, a: seq<Byte>, b: seq<Byte>, tail: seq<Byte>, all: seq<Byte>)
    requires kept == done + a && all == a + b + tail
    ensures kept + b + tail == done + all
  {
  }

  /** Cutting the copied output back to `s` bytes behind the restart point. */
  lemma CutBack(done: seq<Byte>, text: seq<Byte>, n: nat, i: nat, j: nat, s: nat, copied: seq<Byte>)
    requires i + s <= n < |text| && i + s <= j <= n + 1 && copied == done + text[i..j]
    ensures copied[..|copied| - (j - i - s)] == done + text[i..n][..s]
  {
    assert text[i..n][..s] == text[i..i + s];
  }

  lemma Suffix(text: seq<Byte>, i: nat, n: nat, m: nat)
    requires i + m <= n <= |text|
    ensures text[i..n][m..] == text[i + m..n]
  {
  }

  /** The output `now` with the occurrence `o` replaced, and `i` behind that occurrence. */
  lemma Spliced(from: seq<seq<Byte>>, to: seq<seq<Byte>>, text: seq<Byte>, i0: nat, n: nat, o: Occurrence,
                done: seq<Byte>, i: nat, now: seq<Byte>)
    requires AllPlain(from) && |from| == |to| && i0 <= n < |text| && Best(from, text[i0..n]) == Some(o)
    requires i == i0 + o.start + |from[o.which]| <= n && now == done + text[i0..n][..o.start] + to[o.which]
    ensures i0 < i && now + ReplaceAll(from, to, text[i..n]) == done + ReplaceAll(from, to, text[i0..n])
  {
    var rest := text[i0..n];
    BestInside(from, rest, o);
    Unfold(from, to, rest, o, i - i0);
    Suffix(text, i0, n, i - i0);
    SpliceText(done, done + rest[..o.start], rest[..o.start], to[o.which], ReplaceAll(from, to, rest[i - i0..]),
               ReplaceAll(from, to, rest));
  }

  /** Cuts back and appends: what happens when an entry with a replacement is reached. */
  method Substitute(buf0: array<Byte>, out0: nat, entry: ReplaceString, text: seq<Byte>, i0: nat, j: nat, ghost n: nat,
                    ghost from: seq<seq<Byte>>, ghost to: seq<seq<Byte>>, ghost o: Occurrence, ghost done: seq<Byte>)
    returns (buf: array<Byte>, out: nat, i: nat)
    requires AllPlain(from) && |from| == |to| && i0 <= n < |text|
    requires Best(from, text[i0..n]) == Some(o) && i0 <= j <= n + 1 && o.start + |from[o.which]| <= j - i0
    requires entry == ReplaceString(Some(to[o.which]), j - i0 - o.start, j - i0 - o.start - |from[o.which]|)
    requires out0 < buf0.Length && buf0[..out0] == done + text[i0..j]
    modifies buf0
    ensures buf == buf0 || fresh(buf)
    ensures out < buf.Length && i == i0 + o.start + |from[o.which]| <= n && o.start <= n - i0
    ensures buf[..out] == done + text[i0..n][..o.start] + to[o.which]
  {
    BestInside(from, text[i0..n], o);
    CutBack(done, text, n, i0, j, o.start, buf0[..out0]);
    out := out0 - entry.toOffset;
    assert buf0[..out] == buf0[..out0][..out];
    buf, out := PutAll(buf0, out, entry.replaceString.value);
    i := j - entry.fromOffset;
  }

  /** ... and what that means for the output. */
  method SubstituteBest(buf0: array<Byte>, out0: nat, entry: ReplaceString, text: seq<Byte>, i0: nat, j: nat,
                        ghost n: nat, ghost from: seq<seq<Byte>>, ghost to: seq<seq<Byte>>, ghost o: Occurrence,
                        ghost done: seq<Byte>)
    returns (buf: array<Byte>, out: nat, i: nat)
    requires AllPlain(from) && |from| == |to| && i0 <= n < |text|
    requires Best(from, text[i0..n]) == Some(o) && i0 <= j <= n + 1 && o.start + |from[o.which]| <= j - i0
    requires entry == ReplaceString(Some(to[o.which]), j - i0 - o.start, j - i0 - o.start - |from[o.which]|)
    requires out0 < buf0.Length && buf0[..out0] == done + text[i0..j]
    modifies buf0
    ensures buf == buf0 || fresh(buf)
    ensures out < buf.Length && i0 < i <= n
    ensures buf[..out] + ReplaceAll(from, to, text[i..n]) == done + ReplaceAll(from, to, text[i0..n])
  {
    buf, out, i := Substitute(buf0, out0, entry, text, i0, j, n, from, to, o, done);
    Spliced(from, to, text, i0, n, o, done, i, buf[..out]);
  }

  /** One round of the outer loop; `replaced` is false when the line ended without a match. */
  method Round(rep: Machine, buf0: array<Byte>, out0: nat, text: seq<Byte>, i0: nat, q: nat, ghost n: nat,
               ghost from: seq<seq<Byte>>, ghost to: seq<seq<Byte>>)
    returns (buf: array<Byte>, out: nat, i: nat, replaced: bool)
    requires AllPlain(from) && Correct(from, to, rep) && q <= 1
    requires i0 <= n < |text| && text[n] == 0 && 0 !in text[i0..n]
    requires out0 < buf0.Length
    modifies buf0
    ensures buf == buf0 || fresh(buf)
    ensures out < buf.Length && replaced == Best(from, text[i0..n]).Some?
    ensures replaced ==>
              && i0 < i <= n
              && buf[..out] + ReplaceAll(from, to, text[i..n]) == old(buf0[..out0]) + ReplaceAll(from, to, text[i0..n])
    ensures !replaced ==> buf[..out] == old(buf0[..out0]) + ReplaceAll(from, to, text[i0..n])
  {
    ghost var done, rest := buf0[..out0], text[i0..n];
    var j: nat, k: nat;
    buf, out, j, k := Scan(rep, buf0, out0, text, i0, q, n);
    assert EntryFor(from, to, rep, rest, j - i0, k);
    var entry := rep.repStr[k];
    if entry.replaceString.None? {
      ghost var copied := buf[..out];
      CutBack(done, text, n, i0, j, n - i0, copied);
      out := out - 1;
      assert buf[..out] == copied[..out];
      assert rest[..n - i0] == rest;
      return buf, out, j, false;
    }
    buf, out, i := SubstituteBest(buf, out, entry, text, i0, j, n, from, to, Best(from, rest).value, done);
    replaced := true;
  }

  /** Runs the automaton over the line `text[..n]`, which ends at the first NUL, writing into `start`. */
  method ReplaceStrings(rep: Machine, start: array<Byte>, text: seq<Byte>, ghost n: nat,
                        ghost from: seq<seq<Byte>>, ghost to: seq<seq<Byte>>)
    returns (buf: array<Byte>, length: nat, updated: bool)
    requires AllPlain(from) && Correct(from, to, rep)
    requires n < |text| && text[n] == 0 && 0 !in text[..n]
    requires start.Length >= 1
    modifies start
    ensures buf == start || fresh(buf)
    ensures length <= buf.Length && buf[..length] == ReplaceAll(from, to, text[..n])
    ensures updated <==> Best(from, text[..n]).Some?
  {
    assert text[0..n] == text[..n];
    buf, length, updated := start, 0, false;
    var q, i: nat := 1, 0;
    while true
      invariant buf == start || fresh(buf)
      invariant 0 <= q <= 1 && length < buf.Length && 0 <= i <= n
      invariant buf[..length] + ReplaceAll(from, to, text[i..n]) == ReplaceAll(from, to, text[0..n])
      invariant updated ==> Best(from, text[0..n]).Some?
      invariant !updated ==> i == 0
      decreases n - i
    {
      var replaced: bool;
      NulFreeSuffix(text, n, i);
      buf, length, i, replaced := Round(rep, buf, length, text, i, q, n, from, to);
      if !replaced {
        return;
      }
      updated := true;
      if text[i] == 0 {
        EmptyRest(from, to, text, i, n);
        return;
      }
      q := 0;
    }
  }

  lemma NulFreeSuffix(text: seq<Byte>, n: nat, i: nat)
    requires i <= n <= |text| && 0 !in text[..n]
    ensures 0 !in text[i..n]
  {
    assert forall x | i <= x < n :: text[x] == text[..n][x];
  }

  lemma EmptyRest(from: seq<seq<Byte>>, to: seq<seq<Byte>>, text: seq<Byte>, i: nat, n: nat)
    requires AllPlain(from) && |from| == |to| && i <= n < |text| && 0 !in text[..n]
    requires text[i] == 0
    ensures i == n && text[i..n] == [] && ReplaceAll(from, to, text[i..n]) == []
  {
    assert forall x | 0 <= x < n :: text[x] == text[..n][x];
    forall o: Occurrence
      ensures !OccursAt(from, [], o)
    {
      assert o.which < |from| ==> from[o.which] != [];
    }
  }

  // ---------------------------------------------------------------- the automaton is correct

  lemma MachineSafe(from: seq<seq<Byte>>, to: seq<seq<Byte>>, f: seq<Follow>, maxLength: nat,
                    sets: seq<RepSet>, found: seq<FoundSet>, rep: Machine)
    requires MachineOf(from, to, f, maxLength, sets, found, rep)
    ensures Safe(rep)
  {
    forall q, c: Byte | 0 <= q < |rep.next|
      ensures match rep.next[q][c]
              case State(n) => c != 0 && n < |rep.next|
              case Entry(n) => n < |rep.repStr|
    {
      assert Represented(from, f, sets[q]);
      var t :| Den(from, f, sets[q], t);
      var n := StepTarget(from, f, sets, found, maxLength, q, t, c);
    }
  }

  lemma {:induction false} RunMeaning(from: seq<seq<Byte>>, to: seq<seq<Byte>>, f: seq<Follow>, maxLength: nat,
                                      sets: seq<RepSet>, found: seq<FoundSet>, rep: Machine,
                                      q: nat, line: seq<Byte>, read: nat)
    requires MachineOf(from, to, f, maxLength, sets, found, rep) && Safe(rep) && q <= 1
    requires 0 !in line && read <= |line| + 1
    requires read > 0 ==> Run(rep, q, (line + [0])[..read - 1]).State?
    ensures At(from, f, sets, found, Run(rep, q, (line + [0])[..read]), line, read)
  {
    if read == 0 {
      StartAt(from, f, sets, found, maxLength, line);
    } else {
      var s := line + [0];
      if read > 1 {
        RunSnoc(rep, q, s, read - 2);
      }
      RunMeaning(from, to, f, maxLength, sets, found, rep, q, line, read - 1);
      Advances(from, f, sets, found, maxLength, Run(rep, q, s[..read - 1]).n, line, read - 1, s[read - 1]);
      RunSnoc(rep, q, s, read - 1);
    }
  }

  lemma RunSnoc(rep: Machine, q: nat, s: seq<Byte>, i: nat)
    requires Safe(rep) && q <= 1 && i < |s|
    ensures var r := Run(rep, q, s[..i]);
            Run(rep, q, s[..i + 1]) == if r.State? then rep.next[r.n][s[i]] else r
  {
    assert s[..i + 1][..i] == s[..i];
  }

  /** Both initial states stand for the empty text. */
  lemma StartAt(from: seq<seq<Byte>>, f: seq<Follow>, sets: seq<RepSet>, found: seq<FoundSet>, maxLength: nat,
                rest: seq<Byte>)
    requires Inv(from, f, sets, found, maxLength, |sets|)
    ensures At(from, f, sets, found, State(0), rest, 0) && At(from, f, sets, found, State(1), rest, 0)
  {
    assert rest[..0] == [];
  }

  lemma MachineCorrect(from: seq<seq<Byte>>, to: seq<seq<Byte>>, f: seq<Follow>, maxLength: nat,
                       sets: seq<RepSet>, found: seq<FoundSet>, rep: Machine)
    requires MachineOf(from, to, f, maxLength, sets, found, rep)
    ensures Correct(from, to, rep)
  {
    MachineSafe(from, to, f, maxLength, sets, found, rep);
    forall q: nat, line: seq<Byte>, read: nat, k: nat | q <= 1 && 0 !in line && Reaches(rep, q, line, read, k)
      ensures EntryFor(from, to, rep, line, read, k)
    {
      RunMeaning(from, to, f, maxLength, sets, found, rep, q, line, read);
      EntryReached(from, to, f, maxLength, sets, found, rep, k, line, read);
    }
  }

  // ---------------------------------------------------------------- the whole program

  /** main() for one line: build the automaton, then run it. */
  method ReplaceLine(from: seq<seq<Byte>>, to: seq<seq<Byte>>, line: seq<Byte>)
    returns (r: Result<seq<Byte>>, updated: bool)
    requires |from| == |to| && 0 !in line && forall i | 0 <= i < |from| :: Plain(from[i])
    ensures r.EmptyFromString? <==> [] in from
    ensures r.Ok? ==> AllPlain(from) && r.value == ReplaceAll(from, to, line) && (updated <==> Best(from, line).Some?)
    ensures r.Ok? ==> IsReplacement(from, to, line, r.value)
  {
    var rep := InitReplace(from, to);
    if rep.EmptyFromString? {
      return EmptyFromString, false;
    }
    var buf := new Byte[8192];
    var length;
    assert (line + [0])[..|line|] == line;
    buf, length, updated := ReplaceStrings(rep.value, buf, line + [0], |line|, from, to);
    ReplacedExactly(from, to, line, buf[..length]);
    r := Ok(buf[..length]);
  }
}
