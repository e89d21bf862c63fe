/**
  The text-file frame format as the loader reads it: a stream of bytes read
  row by row through a cursor, `size.x` bytes per row, each row followed by a
  skip through the next newline byte.
 */
module BufferFile {
  import opened Structs
  import opened Outcomes

  newtype byte = b: int | 0 <= b < 256

  /** What `ReadByte` returns with the cursor at i: the byte there, or -1 at the end of the stream. */
  function ByteAt(bytes: seq<byte>, i: nat): (b: int)
    ensures -1 <= b < 256
    ensures b == -1 <==> i >= |bytes|
  {
    if i < |bytes| then bytes[i] as int else -1
  }

  /** The x-th byte read for a row that starts at cursor start. */
  function ReadAt(bytes: seq<byte>, start: nat, x: nat): int {
    ByteAt(bytes, start + x)
  }

  /** What reading position x of a file row yields: its byte, or -1 past the end of a short last row. */
  function RowByte(row: seq<byte>, x: nat): int {
    if x < |row| then row[x] as int else -1
  }

  /** The index of the first newline byte at or after from, if there is one. */
  function NextNewline(bytes: seq<byte>, from: nat): (r: Option<nat>)
    requires from <= |bytes|
    ensures r.Some? ==> from <= r.value < |bytes| && bytes[r.value] == 10
    decreases |bytes| - from
  {
    if from == |bytes| then None
    else if bytes[from] == 10 then Some(from)
    else NextNewline(bytes, from + 1)
  }

  /** NextNewline finds the first newline: none lies between from and the one it returns, and none at all when it returns None. */
  lemma {:induction false} NextNewlineFirst(bytes: seq<byte>, from: nat)
    requires from <= |bytes|
    ensures NextNewline(bytes, from).Some? ==> forall k :: from <= k < NextNewline(bytes, from).value ==> bytes[k] != 10
    ensures NextNewline(bytes, from).None? ==> forall k :: from <= k < |bytes| ==> bytes[k] != 10
    decreases |bytes| - from
  {
    if from < |bytes| && bytes[from] != 10 {
      NextNewlineFirst(bytes, from + 1);
    }
  }

  /** The first newline at or after from is the one at q when none comes between. */
  lemma {:induction false} NextNewlineAt(bytes: seq<byte>, from: nat, q: nat)
    requires from <= q < |bytes| && bytes[q] == 10
    requires forall k :: from <= k < q ==> bytes[k] != 10
    ensures NextNewline(bytes, from) == Some(q)
    decreases q - from
  {
    if from < q {
      NextNewlineAt(bytes, from + 1, q);
    }
  }

  /** No newline at or after from: there is none to skip to. */
  lemma {:induction false} NextNewlineNone(bytes: seq<byte>, from: nat)
    requires from <= |bytes|
    requires forall k :: from <= k < |bytes| ==> bytes[k] != 10
    ensures NextNewline(bytes, from) == None
    decreases |bytes| - from
  {
    if from < |bytes| {
      NextNewlineNone(bytes, from + 1);
    }
  }

  /** The cursor after reading w bytes from p: reads at the end of the stream do not move it. */
  function RowEnd(bytes: seq<byte>, w: nat, p: nat): nat {
    if p + w < |bytes| then p + w else |bytes|
  }

  /**
    The cursor positions at which the loader starts the rows it reads, for
    h more rows from cursor p. After a row it stops if the cursor is at the
    end of the stream; otherwise it skips through the next newline, and if
    there is none it never returns (EndlessSkip). The skip also follows the
    last row.
   */
  function RowStarts(bytes: seq<byte>, w: nat, h: nat, p: nat): Result<seq<nat>>
    requires p <= |bytes|
    decreases h
  {
    if h == 0 then Ok([])
    else
      var e := RowEnd(bytes, w, p);
      if e == |bytes| then Ok([p])
      else match NextNewline(bytes, e)
        case None => Err(EndlessSkip)
        case Some(q) =>
          var rest := RowStarts(bytes, w, h - 1, q + 1);
          if rest.Err? then rest else Ok([p] + rest.value)
  }

  /** Row starts already found, followed by the outcome of the rest. */
  function Prepend(found: seq<nat>, rest: Result<seq<nat>>): Result<seq<nat>> {
    if rest.Err? then rest else Ok(found + rest.value)
  }

  lemma PrependPrepend(a: seq<nat>, b: seq<nat>, r: Result<seq<nat>>)
    ensures Prepend(a, Prepend(b, r)) == Prepend(a + b, r)
  {
    if r.Ok? {
      assert a + (b + r.value) == (a + b) + r.value;
    }
  }

  lemma PrependNothing(r: Result<seq<nat>>)
    ensures Prepend([], r) == r
  {
    if r.Ok? {
      assert [] + r.value == r.value;
    }
  }

  /** One step of RowStarts, for a row that reaches the end of the stream. */
  lemma RowStartsStop(bytes: seq<byte>, w: nat, h: nat, p: nat)
    requires p <= |bytes| && h >= 1 && RowEnd(bytes, w, p) == |bytes|
    ensures RowStarts(bytes, w, h, p) == Ok([p])
  {
  }

  /** One step of RowStarts, for a row followed by a newline at q. */
  lemma RowStartsSkip(bytes: seq<byte>, w: nat, h: nat, p: nat, q: nat)
    requires p <= |bytes| && h >= 1 && RowEnd(bytes, w, p) < |bytes|
    requires NextNewline(bytes, RowEnd(bytes, w, p)) == Some(q)
    ensures q < |bytes|
    ensures RowStarts(bytes, w, h, p) == Prepend([p], RowStarts(bytes, w, h - 1, q + 1))
  {
  }

  /** One step of RowStarts, for a row followed by no newline. */
  lemma RowStartsEndless(bytes: seq<byte>, w: nat, h: nat, p: nat)
    requires p <= |bytes| && h >= 1 && RowEnd(bytes, w, p) < |bytes|
    requires NextNewline(bytes, RowEnd(bytes, w, p)) == None
    ensures RowStarts(bytes, w, h, p) == Err(EndlessSkip)
  {
  }

  lemma PrependFound(r: Result<seq<nat>>, tail: Result<seq<nat>>, p: nat, rest: seq<nat>)
    requires r == Prepend([p], tail) && tail == Ok(rest)
    ensures r == Ok([p] + rest)
  {
  }

  /** The cell (x, y) of the loaded frame: the x-th byte read for row y, or an untouched cell if row y was not read. */
  function LoadedCell(bytes: seq<byte>, starts: seq<nat>, x: nat, y: nat, fg: Color, bg: Color): ConsoleChar {
    if y < |starts| then ConsoleChar(CharCast(ReadAt(bytes, starts[y], x)), fg, bg) else EmptyChar
  }

  /** Starting one more row leaves the cells of the rows before it alone and makes the new row read from p. */
  lemma LoadedCellNextRow(bytes: seq<byte>, starts: seq<nat>, p: nat, x: nat, y: nat, fg: Color, bg: Color)
    ensures y < |starts| ==> LoadedCell(bytes, starts + [p], x, y, fg, bg) == LoadedCell(bytes, starts, x, y, fg, bg)
    ensures y == |starts| ==> LoadedCell(bytes, starts + [p], x, y, fg, bg) == ConsoleChar(CharCast(ReadAt(bytes, p, x)), fg, bg)
    ensures y > |starts| ==> LoadedCell(bytes, starts + [p], x, y, fg, bg) == EmptyChar
  {
  }

  /** Lines joined by single newline bytes, with no terminator after the last. */
  function JoinLines(rows: seq<seq<byte>>): seq<byte> {
    if |rows| == 0 then []
    else if |rows| == 1 then rows[0]
    else rows[0] + [10] + JoinLines(rows[1..])
  }

  /** Reading w bytes from cursor p yields row's bytes, then the end-of-stream marker. */
  predicate ReadsRow(bytes: seq<byte>, p: nat, row: seq<byte>, w: nat) {
    forall x :: 0 <= x < w ==> ReadAt(bytes, p, x) == RowByte(row, x)
  }

  /** Reading w bytes from each cursor of s yields the matching row. */
  predicate ReadsRows(bytes: seq<byte>, s: seq<nat>, rows: seq<seq<byte>>, w: nat) {
    |s| == |rows| && forall i :: 0 <= i < |rows| ==> ReadsRow(bytes, s[i], rows[i], w)
  }

  /** Rows the loader reads in full: every row but the last has exactly w bytes, and the last at most w. */
  predicate WellFormedRows(rows: seq<seq<byte>>, w: nat) {
    (forall i :: 0 <= i < |rows| - 1 ==> |rows[i]| == w) &&
    (|rows| > 0 ==> |rows[|rows| - 1]| <= w)
  }

  /** The cursors of n rows of w bytes from p, each row followed by one newline. */
  function Offsets(p: nat, w: nat, n: nat): (s: seq<nat>)
    ensures |s| == n
    decreases n
  {
    if n == 0 then [] else [p] + Offsets(p + w + 1, w, n - 1)
  }

  /**
    The loader stops only at the end of the stream: it reads at most h rows,
    the rows start at increasing cursor positions, every row but the last
    one read ends before the end of the stream, and if fewer than h rows
    were read the last one reached the end.
   */
  lemma {:induction false} RowStartsShape(bytes: seq<byte>, w: nat, h: nat, p: nat)
    requires p <= |bytes| && RowStarts(bytes, w, h, p).Ok?
    ensures var s := RowStarts(bytes, w, h, p).value;
      |s| <= h && (h > 0 ==> |s| > 0 && s[0] == p) &&
      (forall i :: 0 <= i < |s| ==> p <= s[i] <= |bytes|) &&
      (forall i :: 0 <= i < |s| - 1 ==> s[i] + w < s[i + 1]) &&
      (forall i :: 0 <= i < |s| - 1 ==> s[i] + w < |bytes|) &&
      (0 < |s| < h ==> s[|s| - 1] + w >= |bytes|)
    decreases h
  {
    if h > 0 {
      var e := RowEnd(bytes, w, p);
      if e < |bytes| {
        var q := NextNewline(bytes, e).value;
        RowStartsShape(bytes, w, h - 1, q + 1);
        var rest := RowStarts(bytes, w, h - 1, q + 1).value;
        var s := [p] + rest;
        assert forall i :: 0 < i < |s| ==> s[i] == rest[i - 1];
      }
    }
  }

  lemma OffsetsCons(p: nat, w: nat, n: nat)
    ensures Offsets(p, w, n + 1) == [p] + Offsets(p + w + 1, w, n)
  {
  }

  /** The last row of a joined file: read up to the end of the stream. */
  lemma LastRow(bytes: seq<byte>, p: nat, row: seq<byte>, w: nat)
    requires p <= |bytes| && bytes[p..] == row && |row| <= w
    ensures RowEnd(bytes, w, p) == |bytes|
    ensures ReadsRow(bytes, p, row, w)
  {
    assert |bytes| == p + |row|;
    forall x | 0 <= x < w
      ensures ReadAt(bytes, p, x) == RowByte(row, x)
    {
      if x < |row| {
        assert bytes[p..][x] == row[x];
      }
    }
  }

  /** A row that is not the last: w bytes, then the newline right after them, then the other rows. */
  lemma InnerRow(bytes: seq<byte>, p: nat, rows: seq<seq<byte>>, w: nat)
    requires p <= |bytes| && bytes[p..] == JoinLines(rows)
    requires |rows| >= 2 && |rows[0]| == w
    ensures p + w < |bytes| && bytes[p + w] == 10
    ensures bytes[p + w + 1..] == JoinLines(rows[1..])
  {
    var tail := rows[1..];
    assert bytes[p..] == rows[0] + [10] + JoinLines(tail);
    var e := p + w;
    assert bytes[p..][w] == 10;
    assert e < |bytes| && bytes[e] == 10;
    assert bytes[e + 1..] == bytes[p..][w + 1..];
  }

  /** ... whose w bytes the loader reads as the row. */
  lemma InnerRowReads(bytes: seq<byte>, p: nat, rows: seq<seq<byte>>, w: nat)
    requires p <= |bytes| && bytes[p..] == JoinLines(rows)
    requires |rows| >= 2 && |rows[0]| == w
    ensures ReadsRow(bytes, p, rows[0], w)
  {
    assert bytes[p..] == rows[0] + [10] + JoinLines(rows[1..]);
    forall x | 0 <= x < w ensures ReadAt(bytes, p, x) == RowByte(rows[0], x) {
      assert bytes[p..][x] == rows[0][x];
    }
  }

  lemma WellFormedTail(rows: seq<seq<byte>>, w: nat)
    requires |rows| >= 1 && WellFormedRows(rows, w)
    ensures WellFormedRows(rows[1..], w)
  {
    var tail := rows[1..];
    forall i | 0 <= i < |tail| - 1 ensures |tail[i]| == w {
      assert tail[i] == rows[i + 1];
    }
  }

  lemma ConsRows(bytes: seq<byte>, p: nat, rest: seq<nat>, rows: seq<seq<byte>>, w: nat)
    requires |rows| >= 1
    requires ReadsRow(bytes, p, rows[0], w) && ReadsRows(bytes, rest, rows[1..], w)
    ensures ReadsRows(bytes, [p] + rest, rows, w)
  {
    var v := [p] + rest;
    forall i | 0 <= i < |rows| ensures ReadsRow(bytes, v[i], rows[i], w) {
      if i > 0 {
        assert v[i] == rest[i - 1] && rows[i] == rows[1..][i - 1];
      }
    }
  }

  /**
    The newlines of n rows of w bytes from cursor p: each row but the last
    is followed by a newline, and the last reaches the end of the stream.
   */
  predicate Layout(bytes: seq<byte>, p: nat, w: nat, n: nat)
    decreases n
  {
    n >= 1 && p <= |bytes| &&
    if n == 1 then p + w >= |bytes|
    else p + w < |bytes| && bytes[p + w] == 10 && Layout(bytes, p + w + 1, w, n - 1)
  }

  /** The loader starts a row at each offset of the layout and stops after the last. */
  lemma {:induction false} LayoutRowStarts(bytes: seq<byte>, p: nat, w: nat, n: nat, h: nat)
    requires Layout(bytes, p, w, n) && n <= h
    ensures RowStarts(bytes, w, h, p) == Ok(Offsets(p, w, n))
    decreases n
  {
    if n == 1 {
      RowStartsStop(bytes, w, h, p);
      assert Offsets(p, w, 1) == [p];
    } else {
      LayoutRowStarts(bytes, p + w + 1, w, n - 1, h - 1);
      assert NextNewline(bytes, p + w) == Some(p + w);
      RowStartsSkip(bytes, w, h, p, p + w);
      PrependFound(RowStarts(bytes, w, h, p), RowStarts(bytes, w, h - 1, p + w + 1), p, Offsets(p + w + 1, w, n - 1));
    }
  }

  /** Rows joined by newlines have that layout. */
  lemma {:induction false} JoinedLayout(bytes: seq<byte>, p: nat, rows: seq<seq<byte>>, w: nat)
    requires p <= |bytes| && bytes[p..] == JoinLines(rows)
    requires 1 <= |rows| && WellFormedRows(rows, w)
    ensures Layout(bytes, p, w, |rows|)
    decreases |rows|
  {
    if |rows| == 1 {
      assert |bytes| == p + |rows[0]|;
    } else {
      InnerRow(bytes, p, rows, w);
      WellFormedTail(rows, w);
      JoinedLayout(bytes, p + w + 1, rows[1..], w);
    }
  }

  /**
    Reading a file of at most h rows joined by newlines from cursor p: the
    loader starts one row per row of the file, each w + 1 bytes after the
    one before ...
   */
  lemma JoinedRowStarts(bytes: seq<byte>, p: nat, rows: seq<seq<byte>>, w: nat, h: nat)
    requires p <= |bytes| && bytes[p..] == JoinLines(rows)
    requires 1 <= |rows| <= h && WellFormedRows(rows, w)
    ensures RowStarts(bytes, w, h, p) == Ok(Offsets(p, w, |rows|))
  {
    JoinedLayout(bytes, p, rows, w);
    LayoutRowStarts(bytes, p, w, |rows|, h);
  }

  /**
    ... and the x-th byte read for row i is that row's x-th byte, or the
    end-of-stream marker -1 where the last row is short.
   */
  lemma {:induction false} JoinedReads(bytes: seq<byte>, p: nat, rows: seq<seq<byte>>, w: nat)
    requires p <= |bytes| && bytes[p..] == JoinLines(rows)
    requires 1 <= |rows| && WellFormedRows(rows, w)
    ensures ReadsRows(bytes, Offsets(p, w, |rows|), rows, w)
    decreases |rows|
  {
    if |rows| == 1 {
      LastRow(bytes, p, rows[0], w);
      assert Offsets(p, w, 1) == [p];
    } else {
      InnerRow(bytes, p, rows, w);
      InnerRowReads(bytes, p, rows, w);
      WellFormedTail(rows, w);
      JoinedReads(bytes, p + w + 1, rows[1..], w);
      ConsRows(bytes, p, Offsets(p + w + 1, w, |rows| - 1), rows, w);
    }
  }

  /**
    The loaded frame of a file of at most h rows with no newline after the
    last: row y holds row y's bytes in the default colours, filled with
    0xFFFF past the end of a short last row, and the rows after the file's
    last keep untouched cells.
   */
  lemma RaggedFileLoads(rows: seq<seq<byte>>, w: nat, h: nat, fg: Color, bg: Color, x: nat, y: nat)
    requires 1 <= |rows| <= h && WellFormedRows(rows, w) && x < w && y < h
    ensures RowStarts(JoinLines(rows), w, h, 0).Ok?
    ensures LoadedCell(JoinLines(rows), RowStarts(JoinLines(rows), w, h, 0).value, x, y, fg, bg) ==
      if y >= |rows| then EmptyChar
      else if x < |rows[y]| then ConsoleChar(rows[y][x] as CodeUnit, fg, bg)
      else ConsoleChar(0xFFFF, fg, bg)
  {
    var bytes := JoinLines(rows);
    assert bytes[0..] == bytes;
    JoinedRowStarts(bytes, 0, rows, w, h);
    JoinedReads(bytes, 0, rows, w);
    var s := Offsets(0, w, |rows|);
    if y < |rows| {
      var b := ReadAt(bytes, s[y], x);
      if x < |rows[y]| {
        assert b == rows[y][x] as int;
        assert CharCast(b) == rows[y][x] as CodeUnit;
      } else {
        assert b == -1;
      }
    }
  }

  /**
    A file with a newline after its last full row, and fewer rows than h,
    gets one more row: it is read entirely past the end of the stream, so
    every cell of it is 0xFFFF, and only the rows after it are untouched.
   */
  lemma TrailingNewlineReadsOneMoreRow(rows: seq<seq<byte>>, w: nat, h: nat, fg: Color, bg: Color, x: nat)
    requires 1 <= |rows| < h && WellFormedRows(rows, w) && |rows[|rows| - 1]| == w && x < w
    ensures RowStarts(JoinLines(rows) + [10], w, h, 0).Ok?
    ensures var s := RowStarts(JoinLines(rows) + [10], w, h, 0).value;
      |s| == |rows| + 1 &&
      LoadedCell(JoinLines(rows) + [10], s, x, |rows|, fg, bg) == ConsoleChar(0xFFFF, fg, bg)
  {
    var padded := rows + [[]];
    assert JoinLines(padded) == JoinLines(rows) + [10] by {
      JoinAppendEmpty(rows);
    }
    assert WellFormedRows(padded, w) by {
      assert forall i :: 0 <= i < |rows| ==> padded[i] == rows[i];
    }
    var bytes := JoinLines(rows) + [10];
    assert bytes[0..] == bytes;
    JoinedRowStarts(bytes, 0, padded, w, h);
    JoinedReads(bytes, 0, padded, w);
    var s := Offsets(0, w, |padded|);
    assert |padded[|rows|]| == 0;
    assert ReadAt(bytes, s[|rows|], x) == RowByte(padded[|rows|], x) == -1;
  }

  /**
    A file whose short last row is followed by a newline reads that newline
    into the cell after the row's bytes: the loader is then at the end of
    the stream and stops, and only the cells after the newline get 0xFFFF.
    No further row is read.
   */
  lemma NewlineAfterShortRowIsRead(rows: seq<seq<byte>>, w: nat, h: nat, fg: Color, bg: Color, x: nat)
    requires 1 <= |rows| <= h && WellFormedRows(rows, w) && |rows[|rows| - 1]| < w && x < w
    ensures RowStarts(JoinLines(rows) + [10], w, h, 0).Ok?
    ensures var s := RowStarts(JoinLines(rows) + [10], w, h, 0).value;
      var last := rows[|rows| - 1];
      |s| == |rows| &&
      LoadedCell(JoinLines(rows) + [10], s, x, |rows| - 1, fg, bg) ==
        if x < |last| then ConsoleChar(last[x] as CodeUnit, fg, bg)
        else if x == |last| then ConsoleChar(Newline, fg, bg)
        else ConsoleChar(0xFFFF, fg, bg)
  {
    var n := |rows|;
    var last := rows[n - 1];
    var extended := rows[..n - 1] + [last + [10]];
    JoinExtendLast(rows, 10);
    assert WellFormedRows(extended, w) by {
      assert forall i :: 0 <= i < n - 1 ==> extended[i] == rows[i];
    }
    var bytes := JoinLines(rows) + [10];
    assert bytes[0..] == bytes;
    JoinedRowStarts(bytes, 0, extended, w, h);
    RaggedFileLoads(extended, w, h, fg, bg, x, n - 1);
    if x < |last| {
      assert extended[n - 1][x] == last[x];
    } else if x == |last| {
      assert extended[n - 1][x] == 10;
    }
  }

  /** Appending a byte to the last row appends it to the joined file. */
  lemma {:induction false} JoinExtendLast(rows: seq<seq<byte>>, b: byte)
    requires |rows| >= 1
    ensures JoinLines(rows[..|rows| - 1] + [rows[|rows| - 1] + [b]]) == JoinLines(rows) + [b]
    decreases |rows|
  {
    var n := |rows|;
    var extended := rows[..n - 1] + [rows[n - 1] + [b]];
    if n > 1 {
      var tail := rows[1..];
      assert extended[0] == rows[0];
      assert extended[1..] == tail[..|tail| - 1] + [tail[|tail| - 1] + [b]];
      JoinExtendLast(tail, b);
    }
  }

  lemma {:induction false} JoinAppendEmpty(rows: seq<seq<byte>>)
    requires |rows| >= 1
    ensures JoinLines(rows + [[]]) == JoinLines(rows) + [10]
    decreases |rows|
  {
    var padded := rows + [[]];
    if |rows| == 1 {
      assert padded[1..] == [[]];
    } else {
      assert padded[1..] == rows[1..] + [[]];
      JoinAppendEmpty(rows[1..]);
    }
  }
}
