/**
 The delimiter recogniser of mysqltest and its push-back buffer.  The file delivers bytes from 0 to 255;
 the buffer and the delimiter hold signed characters, so a byte from 128 on comes back negative.
 */
module Delimiter {
  const MAX_DELIMITER := 16

  type Byte = c: int | 0 <= c < 256

  type Char = c: int | -128 <= c < 128

  /** What my_getc returns: a byte of the file, a character of the buffer, or EOF. */
  type Item = c: int | -128 <= c < 256

  /** What fgetc returns at the end of the file. */
  const EOF: Item := -1

  /** The cast to char. */
  function Narrow(c: Item): (r: Char)
    ensures r == c <==> c < 128
  {
    if c < 128 then c else c - 256
  }

  /** It is the one character with the same eight bits. */
  lemma NarrowIs(c: Item, r: Char)
    ensures Narrow(c) == r <==> (r - c) % 256 == 0
  {
  }

  ghost function Reversed(s: seq<Char>): (r: seq<Char>)
    ensures |r| == |s| && forall i | 0 <= i < |s| :: r[i] == s[|s| - 1 - i]
  {
    seq(|s|, i requires 0 <= i < |s| => s[|s| - 1 - i])
  }

  /** What the `i`-th reading of the text returns. */
  function At(text: seq<Item>, i: nat): Item {
    if i < |text| then text[i] else EOF
  }

  /** What is left of the text after `n` readings. */
  function Drop(text: seq<Item>, n: nat): seq<Item> {
    if n <= |text| then text[n..] else []
  }

  lemma DropStep(text: seq<Item>, n: nat)
    ensures At(Drop(text, n), 0) == At(text, n) && Drop(Drop(text, n), 1) == Drop(text, n + 1)
  {
  }

  /** The readings of the text are those of the delimiter. */
  ghost predicate Found(text: seq<Item>, delimiter: seq<Char>) {
    delimiter != [] && forall i | 0 <= i < |delimiter| :: At(text, i) == delimiter[i]
  }

  /** How many readings agree with the delimiter. */
  ghost function Matched(text: seq<Item>, delimiter: seq<Char>): (k: nat)
    ensures k <= |delimiter| && forall i | 0 <= i < k :: At(text, i) == delimiter[i]
    ensures k < |delimiter| ==> At(text, k) != delimiter[k]
    decreases |delimiter|
  {
    var k := if delimiter == [] then 0 else Matched(text, delimiter[..|delimiter| - 1]);
    if k + 1 == |delimiter| && At(text, k) == delimiter[k] then k + 1 else k
  }

  /** Readings 1 to `k` pushed back as characters. */
  ghost function PushedBack(text: seq<Item>, k: nat): seq<Item> {
    seq(k, i requires 0 <= i < k => Narrow(At(text, i + 1)) as Item) + Drop(text, k + 1)
  }

  /** Only the first reading that differs decides. */
  lemma MatchedIs(text: seq<Item>, delimiter: seq<Char>, k: nat)
    requires k <= |delimiter| && forall i | 0 <= i < k :: At(text, i) == delimiter[i]
    requires k < |delimiter| ==> At(text, k) != delimiter[k]
    ensures Matched(text, delimiter) == k
    ensures Found(text, delimiter) <==> delimiter != [] && k == |delimiter|
  {
  }

  /** The bytes of the delimiter stand at the start of the text. */
  ghost predicate Stands(text: seq<Item>, delimiter: seq<Char>) {
    |delimiter| <= |text| && forall i | 0 <= i < |delimiter| :: Narrow(text[i]) == delimiter[i]
  }

  /** The text ends inside the delimiter, which goes on with bytes 255 only. */
  ghost predicate EndsBeforeFF(text: seq<Item>, delimiter: seq<Char>) {
    && |text| < |delimiter| && (forall i | 0 <= i < |text| :: text[i] == delimiter[i])
    && forall i | |text| <= i < |delimiter| :: delimiter[i] == -1
  }

  /**
   A delimiter that stands here is found exactly if it is read without bytes from 128 on, and what is found
   stands here unless the text ends and its end is taken for bytes 255.
   */
  lemma FoundExactly(text: seq<Item>, delimiter: seq<Char>)
    requires delimiter != []
    ensures Stands(text, delimiter) ==>
              (Found(text, delimiter) <==> forall i | 0 <= i < |delimiter| :: text[i] < 128)
    ensures Found(text, delimiter) ==> Stands(text, delimiter) || EndsBeforeFF(text, delimiter)
    ensures EndsBeforeFF(text, delimiter) ==> Found(text, delimiter)
  {
    if Stands(text, delimiter) {
      assert forall i | 0 <= i < |delimiter| :: At(text, i) == delimiter[i] <==> text[i] < 128;
    }
    if Found(text, delimiter) && |text| < |delimiter| {
      assert forall i | 0 <= i < |text| :: At(text, i) == text[i];
      assert forall i | |text| <= i < |delimiter| :: At(text, i) == EOF;
    } else if Found(text, delimiter) {
      assert forall i | 0 <= i < |delimiter| :: At(text, i) == text[i];
    }
  }

  /** Out of the file, with nothing pushed back, only a delimiter of bytes below 128 is ever found. */
  lemma FoundInFile(file: seq<Byte>, delimiter: seq<Char>)
    requires delimiter != [] && Stands(file, delimiter)
    ensures Found(file, delimiter) <==> forall i | 0 <= i < |delimiter| :: delimiter[i] >= 0
  {
    FoundExactly(file, delimiter);
    assert forall i | 0 <= i < |delimiter| :: file[i] < 128 <==> delimiter[i] >= 0;
  }

  /** The text is as it was exactly if the first reading that differs is the first of all, or a byte below 128. */
  lemma Unchanged(text: seq<Item>, k: nat)
    requires text != [] && forall i | 0 < i < k :: At(text, i) < 128
    ensures PushedBack(text, k) == text[1..] <==> k == 0 || (k < |text| && text[k] < 128)
  {
    var back := PushedBack(text, k);
    if 0 < k < |text| {
      assert back[k - 1] == Narrow(text[k]);
      assert text[1..][k - 1] == text[k];
      if text[k] < 128 {
        assert forall i | 0 <= i < k :: back[i] == text[i + 1];
        assert back == text[1..];
      }
    }
  }

  /** The section sign as delimiter is not found where it stands. */
  lemma SectionSignNotFound()
    ensures Stands([0xA7], [-89]) && !Found([0xA7], [-89])
  {
    assert At([0xA7], 0) == 0xA7;
  }

  /** The byte 200 that differs from the second character of the delimiter comes back as -56 ... */
  lemma ByteComesBackNegative()
    ensures !Found([59, 200], [59, 59]) && PushedBack([59, 200], Matched([59, 200], [59, 59])) == [-56]
  {
    MatchedIs([59, 200], [59, 59], 1);
  }

  /** ... the end of the text comes back as a character ... */
  lemma EndComesBack()
    ensures !Found([59], [59, 59]) && PushedBack([59], Matched([59], [59, 59])) == [-1]
  {
    MatchedIs([59], [59, 59], 1);
  }

  /** ... and is taken for the byte 255. */
  lemma EndIsFound()
    ensures Found([59], [59, -1]) && !Stands([59], [59, -1])
  {
  }

  class Reader {
    var file: seq<Byte>
    const lineBuffer: array<Char>
    var used: nat
    var delimiter: seq<Char>

    /** The buffer never holds MAX_DELIMITER - 1 characters or more. */
    ghost predicate Valid()
      reads this
    {
      lineBuffer.Length == MAX_DELIMITER && used < MAX_DELIMITER - 1 && |delimiter| < MAX_DELIMITER
    }

    /** What is still to be read: the pushed back characters, last one first, and then the file. */
    ghost function Stream(): seq<Item>
      reads this, lineBuffer
      requires used <= lineBuffer.Length
    {
      Reversed(lineBuffer[..used]) + file
    }

    constructor (file: seq<Byte>, delimiter: seq<Char>)
      requires |delimiter| < MAX_DELIMITER
      ensures Valid() && fresh(lineBuffer) && Stream() == file && this.delimiter == delimiter
    {
      this.file, this.delimiter, used := file, delimiter, 0;
      lineBuffer := new Char[MAX_DELIMITER];
    }

    /** my_getc. */
    method GetChar() returns (c: Item)
      requires used <= lineBuffer.Length
      modifies this`file, this`used
      ensures used == if old(used) > 0 then old(used) - 1 else 0
      ensures c == At(old(Stream()), 0) && Stream() == Drop(old(Stream()), 1)
    {
      if used == 0 {
        if file == [] {
          return EOF;
        }
        c := file[0];
        file := file[1..];
      } else {
        used := used - 1;
        c := lineBuffer[used];
      }
    }

    /** my_ungetc. */
    method UngetChar(c: Item)
      requires used < lineBuffer.Length
      modifies this`used, lineBuffer
      ensures used == old(used) + 1 && Stream() == [Narrow(c)] + old(Stream())
    {
      ghost var was := lineBuffer[..used];
      lineBuffer[used] := Narrow(c);
      used := used + 1;
      assert lineBuffer[..used] == was + [Narrow(c)];
    }

    /** The `i`-th reading of the text. */
    method ReadOn(ghost text: seq<Item>, ghost i: nat) returns (c: Item)
      requires used <= lineBuffer.Length && Stream() == Drop(text, i)
      modifies this`file, this`used
      ensures used == if old(used) > 0 then old(used) - 1 else 0
      ensures c == At(text, i) && Stream() == Drop(text, i + 1)
    {
      DropStep(text, i);
      c := GetChar();
    }

    /** The first `i` readings are those of the delimiter, and from the second on they are kept in `tmp`. */
    ghost predicate Agreed(tmp: array<Char>, text: seq<Item>, i: nat)
      reads this`delimiter, tmp
    {
      && 1 <= i <= |delimiter| && i <= tmp.Length
      && forall j | 1 <= j < i :: tmp[j] == delimiter[j] == At(text, j)
    }

    /** Reads on as long as the readings are those of the delimiter; `last` is the one after `i` such readings. */
    method LookAhead(c: Item, tmp: array<Char>) returns (i: nat, last: Item)
      requires Valid() && delimiter != [] && c == delimiter[0] && tmp.Length == MAX_DELIMITER && tmp != lineBuffer
      modifies this`file, this`used, tmp
      ensures 1 <= i <= |delimiter| && used <= old(used)
      ensures forall j | 1 <= j < i :: tmp[j] == delimiter[j] == At([c] + old(Stream()), j)
      ensures i == |delimiter| ==> Stream() == Drop([c] + old(Stream()), i)
      ensures i < |delimiter| ==>
                && last == At([c] + old(Stream()), i) && last != delimiter[i]
                && Stream() == Drop([c] + old(Stream()), i + 1) && (used + i <= old(used) || used == 0)
    {
      ghost var text: seq<Item> := [c] + Stream();
      i, last := 1, c;
      while i < |delimiter|
        invariant Agreed(tmp, text, i) && used <= old(used) && Stream() == Drop(text, i)
        invariant used + (i - 1) <= old(used) || used == 0
      {
        last := ReadOn(text, i);
        if last != delimiter[i] {
          return;
        }
        tmp[i] := last;
        i := i + 1;
      }
    }

    /** Pushes back what was looked at. */
    method PushBack(tmp: array<Char>, n: nat, last: Item)
      requires 1 <= n <= tmp.Length && used + n <= lineBuffer.Length && tmp != lineBuffer
      modifies this`used, lineBuffer
      ensures used == old(used) + n && Stream() == tmp[1..n] + [Narrow(last)] + old(Stream())
    {
      UngetChar(last);
      var i := n;
      while i > 1
        invariant 1 <= i <= n && used == old(used) + 1 + (n - i)
        invariant Stream() == tmp[i..n] + [Narrow(last)] + old(Stream())
      {
        i := i - 1;
        UngetChar(tmp[i]);
        assert [tmp[i]] + tmp[i + 1..n] == tmp[i..n];
      }
    }

    /** Looks at the readings behind `c`, the first character of the delimiter: `k` of them, `c` included, agree. */
    method Compare(c: Item) returns (k: nat)
      requires Valid() && delimiter != [] && c == delimiter[0]
      modifies this`file, this`used, lineBuffer
      ensures Valid() && k == Matched([c] + old(Stream()), delimiter)
      ensures Stream() == if k == |delimiter| then Drop([c] + old(Stream()), k) else PushedBack([c] + old(Stream()), k)
    {
      ghost var text: seq<Item> := [c] + Stream();
      var tmp := new Char[MAX_DELIMITER];
      var last;
      k, last := LookAhead(c, tmp);
      MatchedIs(text, delimiter, k);
      if k < |delimiter| {
        PushBack(tmp, k, last);
        BackIs(text, k, tmp[1..k]);
      }
    }

    /**
     end_of_query, after `c` was read: whether the readings from `c` on are those of the delimiter.  If not,
     the ones that were looked at are back, as characters.  With an empty delimiter only a NUL is looked at.
     */
    method EndOfQuery(c: Item) returns (found: bool)
      requires Valid() && used < MAX_DELIMITER - 2
      modifies this`file, this`used, lineBuffer
      ensures Valid() && Answer(found, c, old(Stream()), delimiter, Stream())
    {
      ghost var before := Stream();
      if delimiter == [] {
        EmptyAnswer(c, before);
        if c == 0 {
          UngetChar(c);
        }
        return false;
      }
      Verdict(c, before, delimiter);
      if c != delimiter[0] {
        return false;
      }
      var k := Compare(c);
      found := k == |delimiter|;
    }
  }

  /** The answer for `c`, the text behind it before the call and after it. */
  ghost predicate Answer(found: bool, c: Item, before: seq<Item>, delimiter: seq<Char>, after: seq<Item>) {
    var text := [c] + before;
    var k := Matched(text, delimiter);
    && (found <==> Found(text, delimiter))
    && (found ==> after == Drop(text, |delimiter|))
    && (!found && delimiter == [] ==> after == if c == 0 then text else before)
    && (!found && delimiter != [] ==> after == PushedBack(text, k))
    && (!found && delimiter != [] ==> (after == before <==> k == 0 || (k <= |before| && before[k - 1] < 128)))
  }

  lemma EmptyAnswer(c: Item, before: seq<Item>)
    ensures Answer(false, c, before, [], if c == 0 then [c] + before else before)
  {
  }

  /** The answer when reading `k` is the first that differs. */
  lemma Differs(c: Item, before: seq<Item>, delimiter: seq<Char>, k: nat)
    requires k == Matched([c] + before, delimiter) < |delimiter|
    ensures Answer(false, c, before, delimiter, PushedBack([c] + before, k))
  {
    var text: seq<Item> := [c] + before;
    assert text[1..] == before;
    Unchanged(text, k);
    MatchedIs(text, delimiter, k);
  }

  /** What the comparison with the delimiter comes to. */
  lemma Verdict(c: Item, before: seq<Item>, delimiter: seq<Char>)
    requires delimiter != []
    ensures var text := [c] + before;
            var k := Matched(text, delimiter);
            && (c != delimiter[0] ==> Answer(false, c, before, delimiter, before))
            && (k == |delimiter| ==> Answer(true, c, before, delimiter, Drop(text, k)))
            && (k < |delimiter| ==> Answer(false, c, before, delimiter, PushedBack(text, k)))
  {
    var text: seq<Item> := [c] + before;
    var k := Matched(text, delimiter);
    assert At(text, 0) == c && text[1..] == before;
    MatchedIs(text, delimiter, k);
    if k < |delimiter| {
      Differs(c, before, delimiter, k);
    }
    assert k == 0 ==> PushedBack(text, k) == before;
  }

  /** What is pushed back piece by piece. */
  lemma BackIs(text: seq<Item>, k: nat, middle: seq<Char>)
    requires 1 <= k && |middle| == k - 1 && forall i | 0 <= i < k - 1 :: middle[i] == At(text, i + 1)
    ensures middle + [Narrow(At(text, k))] + Drop(text, k + 1) == PushedBack(text, k)
  {
  }
}
