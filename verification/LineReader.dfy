/**
 The line reader of batch mode: a buffer that grows, is shifted and refilled in pieces of any
 size.  What it returns is exactly the lines of the file.
 */
module LineReader {
  import opened Wrappers

  const NEWLINE := 10

  /** A byte of a file without NUL bytes. */
  type Byte = b: int | 1 <= b < 256 witness 1

  // ---------------------------------------------------------------- lines of a text

  /** Length of the first line. */
  function FirstLength(text: seq<int>): (n: nat)
    ensures n <= |text| && (n < |text| ==> text[n] == NEWLINE)
    ensures forall i | 0 <= i < n :: text[i] != NEWLINE
  {
    if text == [] || text[0] == NEWLINE then 0 else 1 + FirstLength(text[1..])
  }

  /** What follows the first line. */
  function Rest(text: seq<int>): (r: seq<int>)
    ensures text != [] ==> |r| < |text|
  {
    var n := FirstLength(text);
    if n < |text| then text[n + 1..] else []
  }

  /** The lines of a text; the last one need not be terminated. */
  function Lines(text: seq<int>): seq<seq<int>>
    decreases |text|
  {
    if text == [] then [] else [text[..FirstLength(text)]] + Lines(Rest(text))
  }

  /** The text with these lines, all of them terminated. */
  function Unlines(lines: seq<seq<int>>): seq<int> {
    if lines == [] then [] else lines[0] + [NEWLINE] + Unlines(lines[1..])
  }

  /** How many newlines there are in the text. */
  function Newlines(text: seq<int>): nat {
    if text == [] then 0 else (if text[0] == NEWLINE then 1 else 0) + Newlines(text[1..])
  }

  /** The last line of the text is not terminated. */
  predicate Unterminated(text: seq<int>) {
    text != [] && text[|text| - 1] != NEWLINE
  }

  lemma CutAt(text: seq<int>, n: nat, rest: seq<int>)
    requires n < |text| && text[n] == NEWLINE && rest == text[n + 1..]
    ensures text == text[..n] + [NEWLINE] + rest && Unterminated(text) == Unterminated(rest)
  {
    assert rest != [] ==> rest[|rest| - 1] == text[|text| - 1];
  }

  lemma {:induction false} LinesClean(text: seq<int>)
    ensures forall l | l in Lines(text) :: NEWLINE !in l
    decreases |text|
  {
    if text != [] {
      LinesClean(Rest(text));
    }
  }

  lemma UnlinesFirst(l: seq<int>, lines: seq<seq<int>>)
    ensures Unlines([l] + lines) == l + [NEWLINE] + Unlines(lines)
  {
    assert ([l] + lines)[1..] == lines;
  }

  /** The lines, each with a newline, are the text again, with one newline more if the last was missing. */
  lemma {:induction false} LinesJoin(text: seq<int>)
    ensures Unlines(Lines(text)) == text + if Unterminated(text) then [NEWLINE] else []
    decreases |text|
  {
    if text != [] {
      var n, rest := FirstLength(text), Rest(text);
      LinesJoin(rest);
      UnlinesFirst(text[..n], Lines(rest));
      if n < |text| {
        CutAt(text, n, rest);
        Regroup(text[..n] + [NEWLINE], rest, Unlines(Lines(rest)));
      }
    }
  }

  lemma Regroup(a: seq<int>, b: seq<int>, c: seq<int>)
    ensures forall x :: c == b + x ==> a + c == a + b + x
  {
  }

  /** Lines without newlines come back. */
  lemma {:induction false} LinesSplit(lines: seq<seq<int>>)
    requires forall l | l in lines :: NEWLINE !in l
    ensures Lines(Unlines(lines)) == lines
  {
    if lines != [] {
      assert lines[0] in lines;
      LinesSplit(lines[1..]);
      assert Unlines(lines) == (lines[0] + [NEWLINE]) + Unlines(lines[1..]);
      FirstLine(lines[0] + [NEWLINE], Unlines(lines[1..]), |lines[0]|);
      assert (lines[0] + [NEWLINE])[|lines[0]| + 1..] + Unlines(lines[1..]) == Unlines(lines[1..]);
    }
  }

  lemma {:induction false} NewlinesAppend(a: seq<int>, b: seq<int>)
    ensures Newlines(a + b) == Newlines(a) + Newlines(b)
  {
    if a == [] {
      assert a + b == b;
    } else {
      NewlinesAppend(a[1..], b);
      assert (a + b)[1..] == a[1..] + b;
    }
  }

  lemma {:induction false} NoNewlines(a: seq<int>)
    requires NEWLINE !in a
    ensures Newlines(a) == 0
  {
    if a != [] {
      NoNewlines(a[1..]);
    }
  }

  /** There is a line for every newline, and one more for an unterminated end. */
  lemma {:induction false} LinesCount(text: seq<int>)
    ensures |Lines(text)| == Newlines(text) + if Unterminated(text) then 1 else 0
    decreases |text|
  {
    if text != [] {
      var n := FirstLength(text);
      LinesCount(Rest(text));
      NoNewlines(text[..n]);
      if n < |text| {
        CutAt(text, n, Rest(text));
        NewlinesAppend(text[..n] + [NEWLINE], Rest(text));
        NewlinesAppend(text[..n], [NEWLINE]);
      } else {
        assert text[..n] == text;
      }
    }
  }

  /** All lines are shorter than `max`. */
  ghost predicate AllShort(text: seq<int>, max: nat) {
    forall l | l in Lines(text) :: |l| < max
  }

  lemma FirstLengthIs(text: seq<int>, n: nat)
    requires n <= |text| && (n < |text| ==> text[n] == NEWLINE) && forall i | 0 <= i < n :: text[i] != NEWLINE
    ensures FirstLength(text) == n
  {
  }

  lemma FirstLine(b: seq<int>, f: seq<int>, k: nat)
    requires k < |b| && b[k] == NEWLINE && forall i | 0 <= i < k :: b[i] != NEWLINE
    ensures FirstLength(b + f) == k && (b + f)[..k] == b[..k] && Rest(b + f) == b[k + 1..] + f
  {
    FirstLengthIs(b + f, k);
  }

  // ---------------------------------------------------------------- the buffer

  /** How many bytes the whole blocks have that fit into `room`. */
  method WholeBlocks(room: nat, ioSize: nat) returns (n: nat)
    requires ioSize >= 1
    ensures n <= room && (n == 0 <==> room < ioSize)
  {
    var q, r := room / ioSize, room % ioSize;
    assert room == ioSize * q + r;
    if q > 0 {
      assert ioSize * q == ioSize * (q - 1) + ioSize;
      assert ioSize * (q - 1) >= 0;
    }
    n := room / ioSize * ioSize;
  }

  /** my_realloc to a larger size. */
  method Realloc(a: array<int>, size: nat) returns (b: array<int>)
    requires a.Length <= size
    ensures fresh(b) && b.Length == size && b[..a.Length] == a[..]
  {
    b := new int[size](_ => 0);
    forall i | 0 <= i < a.Length {
      b[i] := a[i];
    }
  }

  /**
   The first line of `text` is in `b` from `start` to `endOfLine`, and what follows it from there to `end` and in
   `file`.
   */
  ghost predicate LineAt(b: seq<int>, file: seq<int>, start: nat, endOfLine: nat, end: nat, eof: bool, text: seq<int>,
                         out: nat)
  {
    var k := FirstLength(text);
    && text != [] && start + k < endOfLine <= end <= |b| && b[start..start + k] == text[..k]
    && b[endOfLine..end] + file == Rest(text)
    && if eof then out == k >= 1 && b[start + k - 1] != NEWLINE
       else out == k + 1 && b[start + k] == NEWLINE && endOfLine == start + out
  }

  class LineBuffer {
    const ioSize: nat
    const maxSize: nat
    var file: seq<Byte>
    var buffer: array<int>
    var bufread: nat
    var start: nat
    var endOfLine: nat
    var end: nat
    var eof: bool

    ghost predicate Valid()
      reads this, buffer
    {
      && Sized() && start <= endOfLine <= end <= bufread
      && buffer[end] == 0 && (forall i | endOfLine <= i < end :: buffer[i] != 0)
      && (eof ==> file == [] && endOfLine == end)
    }

    ghost predicate Sized()
      reads this
    {
      buffer.Length == bufread + 1 && bufread >= 1 && ioSize >= 1
    }

    /** What the caller has not got yet. */
    ghost function Pending(): seq<int>
      reads this, buffer
      requires Valid()
    {
      buffer[endOfLine..end] + file
    }

    /** init_line_buffer. */
    constructor (file: seq<Byte>, ioSize: nat, maxSize: nat)
      requires ioSize >= 1
      ensures Valid() && fresh(buffer) && Pending() == file && this.maxSize == maxSize && this.ioSize == ioSize
    {
      this.file, this.ioSize, this.maxSize, bufread := file, ioSize, maxSize, ioSize;
      buffer := new int[ioSize + 1](_ => 0);
      start, endOfLine, end, eof := 0, 0, 0, false;
    }

    /**
     The loop of fill_buffer that grows the buffer until a whole block fits behind `bufbytes`; returns how much to
     read.
     */
    method Grow(bufbytes: nat) returns (readCount: nat)
      requires Sized() && start + bufbytes <= bufread
      modifies this`buffer, this`bufread, this`end
      ensures Sized() && bufread >= old(bufread) && (fresh(buffer) || buffer == old(buffer))
      ensures 1 <= readCount <= bufread - bufbytes
      ensures buffer[start..start + bufbytes] == old(buffer[start..start + bufbytes]) &&
              (end == old(end) || end == bufbytes)
    {
      ghost var kept := buffer[..start + bufbytes];
      while true
        invariant Sized() && bufread >= old(bufread) && (fresh(buffer) || buffer == old(buffer))
        invariant buffer[..start + bufbytes] == kept && (end == old(end) || end == bufbytes)
        decreases bufbytes + ioSize - bufread
      {
        readCount := WholeBlocks(bufread - bufbytes, ioSize);
        if readCount != 0 {
          break;
        }
        ghost var was := buffer[..];
        bufread := bufread * 2;
        buffer := Realloc(buffer, bufread + 1);
        assert buffer[..start + bufbytes] == was[..start + bufbytes];
        end := bufbytes;
      }
      assert buffer[start..start + bufbytes] == kept[start..];
    }

    /** my_read: some bytes of the file, at least one before its end, are put at `end`. */
    method Read(count: nat) returns (n: nat)
      requires Sized() && end + count <= bufread && count >= 1
      modifies this`file, buffer
      ensures n <= count && n <= |old(file)| && (n == 0 <==> old(file) == []) && file == old(file[n..])
      ensures (forall i | 0 <= i < end :: buffer[i] == old(buffer[i])) &&
              forall i | 0 <= i < n :: buffer[end + i] == old(file)[i]
    {
      n := 0;
      if file != [] {
        n :| 1 <= n <= count && n <= |file|;
      }
      var data := file[..n];
      forall i | 0 <= i < n {
        buffer[end + i] := data[i];
      }
      file := file[n..];
    }

    /** Moves the unfinished line to the front of the buffer. */
    method Shift(bufbytes: nat)
      requires Sized() && start + bufbytes <= bufread && (start == 0 ==> end == bufbytes)
      modifies this`end, buffer
      ensures end == bufbytes && buffer[..bufbytes] == old(buffer[start..start + bufbytes])
    {
      if start != 0 {
        var line := buffer[start..start + bufbytes];
        forall i | 0 <= i < bufbytes {
          buffer[i] := line[i];
        }
        end := bufbytes;
      }
    }

    /** Between two reads: the unfinished line `line` is at `start`, without a newline. */
    ghost predicate Scanning(line: seq<int>)
      reads this, buffer
    {
      && Sized() && start <= endOfLine <= end <= bufread && buffer[start..end] == line && buffer[end] == 0
      && (forall i | 0 <= i < |line| :: line[i] != 0 && line[i] != NEWLINE)
      && (eof ==> file == [] && line == [])
    }

    /** After a read: the text from `start` is `text`, and its first `n` bytes have been looked at. */
    ghost predicate Filled(text: seq<int>, n: nat)
      reads this, buffer
    {
      Sized() && start + n == endOfLine <= end <= bufread && buffer[start..end] == text && buffer[end] == 0
    }

    /**
     What fill_buffer has done when it returns `n`, for the unfinished line `line` and the unread part `unread` of
     the file.
     */
    ghost predicate Refilled(n: nat, line: seq<int>, unread: seq<int>)
      reads this, buffer
    {
      if n == 0 then unread == file == [] && line == [] && Filled([], 0)
      else if eof then unread == file == [] && line != [] && Filled(line + [NEWLINE], |line|)
      else n <= |unread| && file == unread[n..] && Filled(line + unread[..n], |line|)
    }

    /** The part of fill_buffer after the buffer was made ready. */
    method ReadMore(bufbytes: nat, readCount: nat, ghost line: seq<int>) returns (n: nat)
      requires Sized() && end == bufbytes && !eof && 1 <= readCount <= bufread - bufbytes && buffer[..bufbytes] == line
      requires forall i | 0 <= i < |line| :: line[i] != NEWLINE
      modifies this`file, this`start, this`endOfLine, this`end, this`eof, buffer
      ensures Refilled(n, line, old(file)) && (n == 0 ==> !eof)
    {
      n := Read(readCount);
      assert buffer[..bufbytes] == line;
      if n == 0 && bufbytes > 0 && buffer[end - 1] != NEWLINE {
        eof, n := true, 1;
        buffer[end] := NEWLINE;
      }
      start, endOfLine, end := 0, bufbytes, end + n;
      buffer[end] := 0;
      assert buffer[..end] == buffer[..bufbytes] + buffer[bufbytes..end];
      assert buffer[..bufbytes] == line;
    }

    /** fill_buffer: 0 at the end of the file; a newline is made up for an unfinished last line. */
    method FillBuffer(ghost line: seq<int>) returns (n: nat)
      requires Scanning(line)
      modifies this, buffer
      ensures fresh(buffer) || buffer == old(buffer)
      ensures Refilled(n, line, old(file)) && (n == 0 ==> eof == old(eof))
    {
      var bufbytes := end - start;
      if eof {
        return 0;
      }
      var readCount := Grow(bufbytes);
      Shift(bufbytes);
      n := ReadMore(bufbytes, readCount, line);
    }

    /** While a line is looked for in `text`: a newline was made up at the end of the file, or not. */
    ghost predicate Looking(text: seq<int>)
      reads this, buffer
    {
      && Sized() && start <= endOfLine <= end <= bufread && buffer[end] == 0
      && (forall i | start <= i < end :: buffer[i] != 0) && (forall i | start <= i < endOfLine :: buffer[i] != NEWLINE)
      && if !eof then buffer[start..end] + file == text
         else
           && file == []
           && if start == end then text == []
              else endOfLine == end - 1 && buffer[end - 1] == NEWLINE && buffer[start..end - 1] == text && text != []
    }

    /** The scan for the end of the line. */
    method ScanLine() returns (pos: nat)
      requires Sized() && endOfLine <= end <= bufread && buffer[end] == 0 &&
               forall i | endOfLine <= i < end :: buffer[i] != 0
      ensures endOfLine <= pos <= end && (forall i | endOfLine <= i < pos :: buffer[i] != NEWLINE)
      ensures pos < end ==> buffer[pos] == NEWLINE
    {
      pos := endOfLine;
      while buffer[pos] != NEWLINE && buffer[pos] != 0
        invariant endOfLine <= pos <= end && forall i | endOfLine <= i < pos :: buffer[i] != NEWLINE
        decreases end - pos
      {
        pos := pos + 1;
      }
    }

    /** A refill keeps the text that is looked at. */
    method LookOn(ghost text: seq<int>) returns (more: bool)
      requires Looking(text) && forall i | start <= i < end :: buffer[i] != NEWLINE
      modifies this, buffer
      ensures fresh(buffer) || buffer == old(buffer)
      ensures Looking(text) && (!more <==> text == [])
      ensures more ==> !old(eof) && (|file| < |old(file)| || (eof && file == old(file)))
      ensures !more ==> endOfLine == end == start
    {
      ghost var line := buffer[start..end];
      assert eof ==> line == [];
      assert line + file == text;
      var n := FillBuffer(line);
      more := n > 0;
      ghost var now := buffer[start..end];
      assert forall i | start <= i < end :: buffer[i] == now[i - start];
      if more && !eof {
        assert line + old(file)[..n] + file == line + old(file);
      } else if more {
        assert now == line + [NEWLINE] && line == text;
        assert buffer[start..end - 1] == now[..|line|];
      }
    }

    /** The line at `start` was found in `text`; `out` is its length, with the newline unless that was made up. */
    ghost predicate Found(text: seq<int>, out: nat)
      reads this, buffer
    {
      Valid() && LineAt(buffer[..], file, start, endOfLine, end, eof, text, out)
    }

    /** A piece of a line that is too long for the buffer. */
    ghost predicate Broken(text: seq<int>, out: nat)
      reads this, buffer
    {
      && Valid() && maxSize <= out <= FirstLength(text) && !eof && endOfLine == end == start + out
      && buffer[start..start + out] == text[..out] && Pending() == text[out..]
      && out >= 1 && buffer[start + out - 1] != NEWLINE
    }

    /** The newline at `pos` is one of the text ... */
    lemma EndInText(pos: nat, text: seq<int>)
      requires Looking(text) && !eof && start <= pos < end && buffer[pos] == NEWLINE
      requires forall i | start <= i < pos :: buffer[i] != NEWLINE
      ensures LineAt(buffer[..], file, start, pos + 1, end, eof, text, pos + 1 - start)
    {
      var b := buffer[start..end];
      FirstLine(b, file, pos - start);
      assert b[pos - start + 1..] == buffer[..][pos + 1..end];
      assert b[..pos - start] == buffer[..][start..pos];
    }

    /** ... or the one that was made up for its last line. */
    lemma EndMadeUp(pos: nat, text: seq<int>)
      requires Looking(text) && eof && endOfLine <= pos < end
      ensures pos == end - 1 && LineAt(buffer[..], file, start, pos + 1, end, eof, text, pos - start)
    {
      assert text == buffer[..][start..pos];
      FirstLengthIs(text, |text|);
      assert buffer[..][pos + 1..end] + file == [];
    }

    /** The line ends at `pos`. */
    method EndLine(pos: nat, ghost text: seq<int>) returns (out: nat)
      requires Looking(text) && endOfLine <= pos < end && buffer[pos] == NEWLINE &&
               forall i | start <= i < pos :: buffer[i] != NEWLINE
      modifies this`endOfLine
      ensures Found(text, out)
    {
      if eof {
        EndMadeUp(pos, text);
      } else {
        EndInText(pos, text);
      }
      ghost var was := buffer[..];
      endOfLine := pos + 1;
      assert buffer[..] == was;
      out := pos + 1 - (if eof then 1 else 0) - start;
    }

    /** The line is broken at the end of the buffer. */
    method BreakLine(ghost text: seq<int>) returns (out: nat)
      requires Looking(text) && maxSize >= 1 && end - start >= maxSize &&
               forall i | start <= i < end :: buffer[i] != NEWLINE
      modifies this`endOfLine
      ensures Broken(text, out)
    {
      var pos := end - 1;
      ghost var k := end - start;
      assert forall i | 0 <= i < k :: text[i] == buffer[start + i];
      assert FirstLength(text) < |text| ==> text[FirstLength(text)] == NEWLINE;
      endOfLine := pos + 1;
      out := pos + 1 - start;
      assert buffer[start..end] == text[..k];
    }

    /** intern_read_line. */
    method InternReadLine() returns (out: Option<nat>)
      requires Valid() && maxSize >= 1
      modifies this, buffer
      ensures fresh(buffer) || buffer == old(buffer)
      ensures out.None? ==> old(Pending()) == [] && Valid() && Pending() == []
      ensures out.Some? ==> Found(old(Pending()), out.value) || Broken(old(Pending()), out.value)
    {
      ghost var text := Pending();
      start := endOfLine;
      while true
        invariant Looking(text) && (fresh(buffer) || buffer == old(buffer))
        decreases |file|, !eof
      {
        var pos := ScanLine();
        if pos < end {
          var n := EndLine(pos, text);
          return Some(n);
        }
        if pos - start >= maxSize {
          var n := BreakLine(text);
          return Some(n);
        }
        var more := LookOn(text);
        if !more {
          return None;
        }
      }
    }

    /** A line that was found: its newline is cut off, unless that was made up. */
    lemma CutFound(out: nat, text: seq<int>)
      requires Found(text, out)
      ensures var k := FirstLength(text);
              && out == (if out >= 1 && buffer[start + out - 1] == NEWLINE then k + 1 else k)
              && start + k < endOfLine && NextLine(text, buffer[start..start + k], Pending(), maxSize)
    {
    }

    /** A piece of a line has none. */
    lemma CutBroken(out: nat, text: seq<int>)
      requires Broken(text, out)
      ensures out >= 1 && buffer[start + out - 1] != NEWLINE && start + out == endOfLine == end
      ensures NextLine(text, buffer[start..start + out], Pending(), maxSize)
    {
      assert |text[..out]| == out;
    }

    /** The length of the line without its newline. */
    method CutLength(out: nat, ghost text: seq<int>) returns (length: nat)
      requires Found(text, out) || Broken(text, out)
      ensures start + length < endOfLine || start + length == endOfLine == end
      ensures NextLine(text, buffer[start..start + length], Pending(), maxSize)
    {
      if Found(text, out) {
        CutFound(out, text);
      } else {
        CutBroken(out, text);
      }
      length := out;
      if length > 0 && buffer[start + length - 1] == NEWLINE {
        length := length - 1;
      }
    }

    /** Terminates the line with a NUL. */
    method Terminate(length: nat)
      requires Valid() && (start + length < endOfLine || start + length == endOfLine == end)
      modifies buffer
      ensures Valid() && Pending() == old(Pending())
    {
      buffer[start + length] := 0;
      assert buffer[endOfLine..end] == old(buffer[endOfLine..end]);
    }

    /** batch_readline: the next line without its newline, or a piece of `maxSize` bytes or more of a longer one. */
    method BatchReadline() returns (line: Option<seq<int>>)
      requires Valid() && maxSize >= 1
      modifies this, buffer
      ensures Valid() && (fresh(buffer) || buffer == old(buffer))
      ensures line.None? ==> old(Pending()) == [] && Pending() == []
      ensures line.Some? ==> NextLine(old(Pending()), line.value, Pending(), maxSize)
    {
      ghost var text := Pending();
      var out := InternReadLine();
      if out.None? {
        return None;
      }
      var length := CutLength(out.value, text);
      line := Some(buffer[start..start + length]);
      Terminate(length);
    }
  }

  /** `l` is the first line of `text` and `rest` what follows it, or `l` is a piece of `max` bytes or more of it. */
  ghost predicate NextLine(text: seq<int>, l: seq<int>, rest: seq<int>, max: nat) {
    var k := FirstLength(text);
    text != [] && ((l == text[..k] && rest == Rest(text)) ||
                   (max <= |l| <= k && l == text[..|l|] && rest == text[|l|..]))
  }

  /** Where all lines are short, a line and not a piece of one is next, and all lines behind it are short. */
  lemma ShortNext(lines: seq<seq<int>>, text: seq<int>, l: seq<int>, rest: seq<int>, max: nat)
    requires AllShort(text, max) && NextLine(text, l, rest, max)
    ensures lines + Lines(text) == lines + [l] + Lines(rest) && AllShort(rest, max) && |rest| < |text|
  {
    var k := FirstLength(text);
    assert text[..k] in Lines(text);
    assert forall x | x in Lines(Rest(text)) :: x in Lines(text);
    assert Lines(text) == [l] + Lines(rest);
  }

  /** Reads a file to its end: its lines come back, however the reads split it, if they are shorter than `maxSize`. */
  method ReadAll(file: seq<Byte>, ioSize: nat, maxSize: nat) returns (lines: seq<seq<int>>)
    requires ioSize >= 1 && maxSize >= 1 && AllShort(file, maxSize)
    ensures lines == Lines(file)
    ensures Unlines(lines) == file + if Unterminated(file) then [NEWLINE] else []
  {
    LinesJoin(file);
    var reader := new LineBuffer(file, ioSize, maxSize);
    lines := [];
    var more := true;
    ghost var pending: seq<int> := file;
    while more
      invariant fresh(reader) && fresh(reader.buffer) && reader.Valid() && reader.maxSize == maxSize
      invariant pending == reader.Pending() && lines + Lines(pending) == Lines(file) && AllShort(pending, maxSize)
      invariant !more ==> pending == []
      decreases |pending|, more
    {
      var line := reader.BatchReadline();
      if line.None? {
        more := false;
      } else {
        ShortNext(lines, pending, line.value, reader.Pending(), maxSize);
        lines := lines + [line.value];
      }
      pending := reader.Pending();
    }
  }
}
