/** From a line and a column of the lexer back to an offset in the buffer
    (fromSource in src/Diag/SourceLocation.cpp). */
module SourceLocation {
  type Byte = bv8
  type Buffer = seq<Byte>

  const NEWLINE: Byte := 10

  const SIZE_MAX := 0xFFFF_FFFF_FFFF_FFFF

  /** The width of `size_t`: lines wrap around below zero. */
  function Decrement(n: nat): nat {
    if n == 0 then SIZE_MAX else n - 1
  }

  function Newlines(s: Buffer): nat {
    if s == [] then 0 else (if s[0] == NEWLINE then 1 else 0) + Newlines(s[1..])
  }

  /** The line an offset lies on, counted from one. */
  function LineOf(s: Buffer, offset: nat): nat
    requires offset <= |s|
  {
    1 + Newlines(s[..offset])
  }

  /** How many bytes of its line stand before an offset. */
  function ColumnOf(s: Buffer, offset: nat): nat
    requires offset <= |s|
  {
    if offset == 0 || s[offset - 1] == NEWLINE then 0 else 1 + ColumnOf(s, offset - 1)
  }

  /** Where a line begins, or the end of the buffer when it has fewer lines. */
  function LineStart(s: Buffer, line: nat): (start: nat)
    ensures start <= |s|
  {
    if line == 1 || s == [] then 0
    else 1 + LineStart(s[1..], if s[0] == NEWLINE then Decrement(line) else line)
  }

  function Locate(s: Buffer, line: nat, column: nat): (offset: nat)
    ensures offset <= |s|
  {
    var at := LineStart(s, line) + column;
    if at <= |s| then at else |s|
  }

  /** The offset of a position: two passes over the buffer, the first to the
      line, the second to the column. */
  method FromSource(buffer: Buffer, line: nat, charPositionInLine: nat) returns (offset: nat)
    ensures offset == Locate(buffer, line, charPositionInLine)
  {
    var current, end := 0, |buffer|;
    var lines := line;
    assert buffer[0..] == buffer;
    while current < end && lines != 1
      invariant current <= end
      invariant LineStart(buffer, line) == current + LineStart(buffer[current..], lines)
    {
      assert buffer[current..][1..] == buffer[current + 1..];
      if buffer[current] == NEWLINE {
        lines := Decrement(lines);
      }
      current := current + 1;
    }
    ghost var start := current;
    var columns: nat := charPositionInLine;
    while current < end
      invariant start <= current <= end && columns + (current - start) == charPositionInLine
      invariant start == LineStart(buffer, line)
    {
      if columns == 0 {
        return current;
      }
      current, columns := current + 1, columns - 1;
    }
    return end;
  }

  lemma {:induction false} NewlinesAppend(a: Buffer, b: Buffer)
    ensures Newlines(a + b) == Newlines(a) + Newlines(b)
    decreases a
  {
    if a == [] {
      assert a + b == b;
    } else {
      assert (a + b)[1..] == a[1..] + b;
      NewlinesAppend(a[1..], b);
    }
  }

  lemma NewlinesNext(s: Buffer, k: nat)
    requires k < |s|
    ensures Newlines(s[..k + 1]) == Newlines(s[..k]) + if s[k] == NEWLINE then 1 else 0
  {
    assert s[..k + 1] == s[..k] + [s[k]];
    assert [s[k]][1..] == [];
    NewlinesAppend(s[..k], [s[k]]);
  }

  /** The byte 10 ends a line: behind it the next line begins at column zero,
      and behind any other byte the line goes on. */
  lemma LinesEndInTen(s: Buffer, offset: nat)
    requires offset < |s|
    ensures LineOf(s, offset + 1) == LineOf(s, offset) + (if s[offset] == 10 then 1 else 0)
    ensures ColumnOf(s, offset + 1) == (if s[offset] == 10 then 0 else ColumnOf(s, offset) + 1)
    ensures LineOf(s, 0) == 1 && ColumnOf(s, 0) == 0
  {
    NewlinesNext(s, offset);
  }

  lemma {:induction false} FewNewlines(s: Buffer)
    ensures Newlines(s) <= |s|
    decreases s
  {
    if s != [] {
      FewNewlines(s[1..]);
    }
  }

  /** A line begins after the newline that ends the one before it. */
  lemma {:induction false} StartAfterNewline(s: Buffer, k: nat)
    requires k <= |s| && (k == 0 || s[k - 1] == NEWLINE)
    ensures LineStart(s, LineOf(s, k)) == k
    decreases s
  {
    if k != 0 {
      NewlinesNext(s, k - 1);
      assert s[..k][1..] == s[1..][..k - 1];
      StartAfterNewline(s[1..], k - 1);
    }
  }

  lemma {:induction false} StartOfLine(s: Buffer, offset: nat)
    requires offset <= |s|
    ensures ColumnOf(s, offset) <= offset && LineStart(s, LineOf(s, offset)) == offset - ColumnOf(s, offset)
    decreases offset
  {
    if offset == 0 || s[offset - 1] == NEWLINE {
      StartAfterNewline(s, offset);
    } else {
      NewlinesNext(s, offset - 1);
      StartOfLine(s, offset - 1);
    }
  }

  /** The line and the column of an offset lead back to it. */
  lemma OffsetRoundTrip(s: Buffer, offset: nat)
    requires offset <= |s|
    ensures Locate(s, LineOf(s, offset), ColumnOf(s, offset)) == offset
  {
    StartOfLine(s, offset);
  }

  /** The position exists: the buffer has the line, and the line has the column. */
  ghost predicate Exists(s: Buffer, line: nat, column: nat) {
    1 <= line <= 1 + Newlines(s) && LineStart(s, line) + column <= |s| &&
    forall k | LineStart(s, line) <= k < LineStart(s, line) + column :: s[k] != NEWLINE
  }

  lemma {:induction false} StartIsOnLine(s: Buffer, line: nat)
    requires 1 <= line <= 1 + Newlines(s)
    ensures LineOf(s, LineStart(s, line)) == line && ColumnOf(s, LineStart(s, line)) == 0
    decreases s
  {
    if line != 1 {
      var rest := if s[0] == NEWLINE then line - 1 else line;
      var start := LineStart(s[1..], rest);
      StartIsOnLine(s[1..], rest);
      assert s[..start + 1][1..] == s[1..][..start];
      if start != 0 {
        assert s[start] == s[1..][start - 1];
      }
    }
  }

  lemma {:induction false} AlongLine(s: Buffer, start: nat, column: nat)
    requires start + column <= |s| && ColumnOf(s, start) == 0
    requires forall k | start <= k < start + column :: s[k] != NEWLINE
    ensures LineOf(s, start + column) == LineOf(s, start) && ColumnOf(s, start + column) == column
    decreases column
  {
    if column != 0 {
      AlongLine(s, start, column - 1);
      NewlinesNext(s, start + column - 1);
    }
  }

  lemma {:induction false} NoNewlineInColumns(s: Buffer, offset: nat)
    requires offset <= |s|
    ensures ColumnOf(s, offset) <= offset && forall k | offset - ColumnOf(s, offset) <= k < offset :: s[k] != NEWLINE
    decreases offset
  {
    if offset != 0 && s[offset - 1] != NEWLINE {
      NoNewlineInColumns(s, offset - 1);
    }
  }

  /** An offset has the line and the column it was found for exactly when the
      buffer has that position; columns beyond the end of a line run on into
      the next ones. */
  lemma PositionRoundTripIff(s: Buffer, line: nat, column: nat)
    ensures var at := Locate(s, line, column);
            (LineOf(s, at) == line && ColumnOf(s, at) == column) <==> Exists(s, line, column)
  {
    var at := Locate(s, line, column);
    if Exists(s, line, column) {
      StartIsOnLine(s, line);
      AlongLine(s, LineStart(s, line), column);
    }
    if LineOf(s, at) == line && ColumnOf(s, at) == column {
      StartOfLine(s, at);
      NoNewlineInColumns(s, at);
      NewlinesAppend(s[..at], s[at..]);
      assert s[..at] + s[at..] == s;
    }
  }

  /** Positions behind the end give the end: columns behind it, lines the buffer
      does not have, and line zero, which wraps around; a buffer is smaller
      than the address space of 64 bits. */
  lemma PastTheEnd(s: Buffer, line: nat, column: nat)
    requires |s| < 0xFFFF_FFFF_FFFF_FFFF
    requires line == 0 || line > 1 + Newlines(s) || LineStart(s, line) + column > |s|
    ensures Locate(s, line, column) == |s|
  {
    FewNewlines(s);
    if line == 0 {
      NoSuchLineZero(s);
    } else if line > 1 + Newlines(s) {
      NoSuchLine(s, line);
    }
  }

  lemma {:induction false} NoSuchLine(s: Buffer, line: nat)
    requires line > 1 + Newlines(s)
    ensures LineStart(s, line) == |s|
    decreases s
  {
    if s != [] {
      NoSuchLine(s[1..], if s[0] == NEWLINE then Decrement(line) else line);
    }
  }

  lemma {:induction false} NoSuchLineZero(s: Buffer)
    requires Newlines(s) < SIZE_MAX
    ensures LineStart(s, 0) == |s|
    decreases s
  {
    if s != [] {
      if s[0] == NEWLINE {
        NoSuchLine(s[1..], SIZE_MAX);
      } else {
        NoSuchLineZero(s[1..]);
      }
    }
  }
}
