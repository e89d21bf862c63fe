/**
  The render engine. It keeps the last rendered frame as its baseline,
  writes a new frame either cell by cell where it differs from the
  baseline or completely, and then copies the new frame into the baseline.
  The console calls are recorded as a ghost trace of write and park events.
 */
module GameBuffer {
  import opened Structs
  import opened Outcomes
  import opened Frames
  import opened BufferFile

  class GameBuffer {
    const width: nat
    const height: nat
    const defaultForeground: Color
    const defaultBackground: Color

    /** The last rendered frame, indexed [x, y]. */
    const last: array2<ConsoleChar>

    /** The console calls issued so far. */
    ghost var trace: seq<Event>

    ghost predicate Valid()
    {
      last.Length0 == width && last.Length1 == height
    }

    ghost function Baseline(): Grid
      reads last
    {
      Contents(last)
    }

    /** Where the cursor is put between writes: the spare row under the area, in the default colours. */
    function ParkEvent(): Event {
      Park(Vector2(0, height), defaultForeground, defaultBackground)
    }

    /** The terminal, as far as the trace says, shows the baseline on the whole area. */
    ghost predicate TerminalInSync()
      reads this, last
    {
      Shows(Apply(map[], trace), Baseline(), width, height)
    }

    /** A grid that fits the area; only these pass the first two checks of a render. */
    predicate Fits(a: array2<ConsoleChar>) {
      a.Length0 <= width && a.Length1 <= height
    }

    predicate Exact(a: array2<ConsoleChar>) {
      a.Length0 == width && a.Length1 == height
    }

    /**
      The setup of an engine of width x height. The baseline holds untouched
      cells (character 0, colour value 0); the default colours are white on
      black.
     */
    constructor (width: int, height: int)
      requires width >= 0 && height >= 0
      ensures this.width == width && this.height == height && Valid()
      ensures defaultForeground == White && defaultBackground == Black
      ensures fresh(last) && trace == []
      ensures forall x, y :: 0 <= x < width && 0 <= y < height ==> last[x, y] == EmptyChar
    {
      this.width := width;
      this.height := height;
      last := new ConsoleChar[width, height]((_, _) => EmptyChar);
      defaultForeground := White;
      defaultBackground := Black;
      trace := [];
    }

    /** The setup from a size vector. */
    constructor FromSize(size: Vector2)
      requires size.x >= 0 && size.y >= 0
      ensures width == size.x && height == size.y && Valid()
      ensures defaultForeground == White && defaultBackground == Black
      ensures fresh(last) && trace == []
      ensures forall x, y :: 0 <= x < width && 0 <= y < height ==> last[x, y] == EmptyChar
    {
      width := size.x;
      height := size.y;
      last := new ConsoleChar[size.x, size.y]((_, _) => EmptyChar);
      defaultForeground := White;
      defaultBackground := Black;
      trace := [];
    }

    /** Parks the cursor and restores the default colours. */
    method ResetCursor()
      modifies this
      ensures trace == old(trace) + [ParkEvent()]
    {
      trace := trace + [ParkEvent()];
    }

    /**
      Writes one cell at a position, then parks the cursor. Only the upper
      bounds are checked; the console itself rejects negative coordinates.
     */
    method WriteCharToPosition(writeChar: ConsoleChar, position: Vector2) returns (o: Outcome)
      requires position.x >= 0 && position.y >= 0
      modifies this
      ensures position.x >= width ==> o == Fail(XOutOfRange) && trace == old(trace)
      ensures position.x < width && position.y >= height ==> o == Fail(YOutOfRange) && trace == old(trace)
      ensures InRegion(position, width, height) ==>
        o == Pass && trace == old(trace) + [Put(position, writeChar), ParkEvent()]
    {
      if position.x >= width {
        return Fail(XOutOfRange);
      }
      if position.y >= height {
        return Fail(YOutOfRange);
      }
      trace := trace + [Put(position, writeChar)];
      ResetCursor();
      o := Pass;
    }

    /** The scan of the area hits an index outside one of the two arrays. */
    predicate ScanFaults(next: array2<ConsoleChar>, lastArray: array2<ConsoleChar>) {
      width > 0 && height > 0 &&
      (next.Length0 < width || next.Length1 < height || lastArray.Length0 < width || lastArray.Length1 < height)
    }

    /**
      Compares two frames over the whole width x height area, column by
      column, and returns the positions whose cells differ, in scan order. An
      array smaller than the area makes the scan fail on its first index
      outside it.
     */
    method CheckBufferAgainstLast(next: array2<ConsoleChar>, lastArray: array2<ConsoleChar>)
        returns (r: Result<seq<Vector2>>)
      ensures r.Err? <==> ScanFaults(next, lastArray)
      ensures r.Err? ==> r.error == IndexOutOfRange
      ensures r.Ok? ==> r.value == Changes(Contents(next), Contents(lastArray), width, height)
    {
      ghost var n, l := Contents(next), Contents(lastArray);
      var changepoints: seq<Vector2> := [];
      var x := 0;
      while x < width
        invariant 0 <= x <= width
        invariant x > 0 && height > 0 ==>
          x <= next.Length0 && x <= lastArray.Length0 && height <= next.Length1 && height <= lastArray.Length1
        invariant changepoints == Filter(ScanOrder(x, height), n, l)
      {
        var y := 0;
        assert ScanOrder(x, height) + Column(x, 0) == ScanOrder(x, height);
        while y < height
          invariant 0 <= y <= height
          invariant y > 0 ==> x < next.Length0 && x < lastArray.Length0 && y <= next.Length1 && y <= lastArray.Length1
          invariant changepoints == Filter(ScanOrder(x, height) + Column(x, y), n, l)
        {
          if x >= next.Length0 || y >= next.Length1 || x >= lastArray.Length0 || y >= lastArray.Length1 {
            return Err(IndexOutOfRange);
          }
          var p := Vector2(x, y);
          FilterAppend(ScanOrder(x, height) + Column(x, y), [p], n, l);
          assert ScanOrder(x, height) + Column(x, y + 1) == ScanOrder(x, height) + Column(x, y) + [p];
          if NotEqual(next[x, y], lastArray[x, y]) {
            changepoints := changepoints + [p];
          }
          y := y + 1;
        }
        x := x + 1;
      }
      r := Ok(changepoints);
    }

    /**
      Copies source into destination cell by cell. Arrays of different
      dimensions are refused before anything is copied.
     */
    static method CopyBufferArray(source: array2<ConsoleChar>, destination: array2<ConsoleChar>) returns (o: Outcome)
      modifies destination
      ensures o.Fail? <==> source.Length0 != destination.Length0 || source.Length1 != destination.Length1
      ensures o.Fail? ==> o.error == LengthMismatch && Contents(destination) == old(Contents(destination))
      ensures o.Pass? ==> Contents(destination) == old(Contents(source))
      ensures Contents(source) == old(Contents(source))
    {
      if source.Length0 != destination.Length0 {
        return Fail(LengthMismatch);
      }
      if source.Length1 != destination.Length1 {
        return Fail(LengthMismatch);
      }
      var x := 0;
      while x < source.Length0
        invariant 0 <= x <= source.Length0
        invariant forall i, j :: 0 <= i < x && 0 <= j < source.Length1 ==> destination[i, j] == old(source[i, j])
        invariant forall i, j :: x <= i < source.Length0 && 0 <= j < source.Length1 ==>
          destination[i, j] == old(destination[i, j])
        invariant forall i, j :: 0 <= i < source.Length0 && 0 <= j < source.Length1 ==> source[i, j] == old(source[i, j])
      {
        var y := 0;
        while y < source.Length1
          invariant 0 <= y <= source.Length1
          invariant forall i, j :: 0 <= i < x && 0 <= j < source.Length1 ==> destination[i, j] == old(source[i, j])
          invariant forall j :: 0 <= j < y ==> destination[x, j] == old(source[x, j])
          invariant forall j :: y <= j < source.Length1 ==> destination[x, j] == old(destination[x, j])
          invariant forall i, j :: x < i < source.Length0 && 0 <= j < source.Length1 ==>
            destination[i, j] == old(destination[i, j])
          invariant forall i, j :: 0 <= i < source.Length0 && 0 <= j < source.Length1 ==> source[i, j] == old(source[i, j])
        {
          destination[x, y] := source[x, y];
          y := y + 1;
        }
        x := x + 1;
      }
      o := Pass;
      assert Contents(destination) == old(Contents(source)) by {
        var d, s := Contents(destination), old(Contents(source));
        forall i | 0 <= i < |d| ensures d[i] == s[i] {
          assert |d[i]| == |s[i]|;
        }
      }
      assert Contents(source) == old(Contents(source)) by {
        var c, s := Contents(source), old(Contents(source));
        forall i | 0 <= i < |c| ensures c[i] == s[i] {
          assert |c[i]| == |s[i]|;
        }
      }
    }

    /**
      The incremental render: writes the cells where the new frame differs
      from the baseline, in scan order, then copies the frame into the
      baseline. A frame larger than the area is refused before any write; a
      smaller one fails in the scan (or, when the area is empty, in the copy),
      also before any write, and leaves the baseline as it was.
     */
    method WriteBuffer(buffer: array2<ConsoleChar>) returns (o: Outcome)
      requires Valid()
      modifies this, last
      ensures Valid() && Contents(buffer) == old(Contents(buffer))
      ensures buffer.Length0 > width ==>
        o == Fail(WidthTooLarge) && trace == old(trace) && Baseline() == old(Baseline())
      ensures buffer.Length0 <= width && buffer.Length1 > height ==>
        o == Fail(HeightTooLarge) && trace == old(trace) && Baseline() == old(Baseline())
      ensures Fits(buffer) && !Exact(buffer) ==>
        o == Fail(if width > 0 && height > 0 then IndexOutOfRange else LengthMismatch) &&
        trace == old(trace) && Baseline() == old(Baseline())
      ensures Exact(buffer) ==>
        o == Pass && Baseline() == old(Contents(buffer)) &&
        trace == old(trace) + WriteEvents(Changes(old(Contents(buffer)), old(Baseline()), width, height),
                                          old(Contents(buffer)), ParkEvent())
      ensures Exact(buffer) && old(TerminalInSync()) ==> TerminalInSync()
    {
      if buffer.Length0 > width {
        return Fail(WidthTooLarge);
      }
      if buffer.Length1 > height {
        return Fail(HeightTooLarge);
      }
      ghost var g, b := Contents(buffer), Baseline();
      var scan := CheckBufferAgainstLast(buffer, last);
      if scan.Err? {
        return Fail(scan.error);
      }
      var changepoints := scan.value;
      forall i | 0 <= i < |changepoints|
        ensures InRegion(changepoints[i], width, height) && InRegion(changepoints[i], buffer.Length0, buffer.Length1)
      {
        ChangesExact(g, b, width, height, changepoints[i]);
      }
      WriteChanges(buffer, changepoints);
      if changepoints != [] {
        ChangesExact(g, b, width, height, changepoints[0]);
      }
      o := CopyBufferArray(buffer, last);
      if o.Pass? && old(TerminalInSync()) {
        ApplyAppend(map[], old(trace), WriteEvents(changepoints, g, ParkEvent()));
        IncrementalConverges(Apply(map[], old(trace)), g, b, width, height, ParkEvent());
      }
    }

    /** The write loop of the incremental render: writes the frame's cell at each position of ps, in order. */
    method WriteChanges(buffer: array2<ConsoleChar>, ps: seq<Vector2>)
      requires forall i | 0 <= i < |ps| :: InRegion(ps[i], width, height) && InRegion(ps[i], buffer.Length0, buffer.Length1)
      modifies this
      ensures trace == old(trace) + WriteEvents(ps, Contents(buffer), ParkEvent())
    {
      ghost var g := Contents(buffer);
      var i := 0;
      while i < |ps|
        invariant 0 <= i <= |ps|
        invariant trace == old(trace) + WriteEvents(ps[..i], g, ParkEvent())
      {
        var p := ps[i];
        var _ := WriteCharToPosition(buffer[p.x, p.y], p);
        WriteEventsAppend(ps[..i], [p], g, ParkEvent());
        assert ps[..i + 1] == ps[..i] + [p];
        i := i + 1;
      }
      assert ps[..i] == ps;
    }

    /**
      The full render: writes every cell of the area in scan order, whatever
      the baseline holds, then copies the frame into the baseline. A frame
      smaller than the area is written up to its first index outside it and
      then fails, with those writes issued and the baseline as it was.
     */
    method CompleteWriteBuffer(buffer: array2<ConsoleChar>) returns (o: Outcome)
      requires Valid()
      modifies this, last
      ensures Valid() && Contents(buffer) == old(Contents(buffer))
      ensures buffer.Length0 > width ==>
        o == Fail(WidthTooLarge) && trace == old(trace) && Baseline() == old(Baseline())
      ensures buffer.Length0 <= width && buffer.Length1 > height ==>
        o == Fail(HeightTooLarge) && trace == old(trace) && Baseline() == old(Baseline())
      ensures Fits(buffer) && !Exact(buffer) ==>
        o == Fail(if width > 0 && height > 0 then IndexOutOfRange else LengthMismatch) &&
        Baseline() == old(Baseline()) &&
        trace == old(trace) + WriteEvents(WrittenBeforeFault(buffer.Length0, buffer.Length1, width, height),
                                          old(Contents(buffer)), ParkEvent())
      ensures Exact(buffer) ==>
        o == Pass && Baseline() == old(Contents(buffer)) &&
        trace == old(trace) + WriteEvents(ScanOrder(width, height), old(Contents(buffer)), ParkEvent())
      ensures Exact(buffer) ==> TerminalInSync()
    {
      if buffer.Length0 > width {
        return Fail(WidthTooLarge);
      }
      if buffer.Length1 > height {
        return Fail(HeightTooLarge);
      }
      var complete := WriteScan(buffer);
      if !complete {
        return Fail(IndexOutOfRange);
      }
      o := CopyBufferArray(buffer, last);
      if Exact(buffer) {
        ApplyAppend(map[], old(trace), WriteEvents(ScanOrder(width, height), old(Contents(buffer)), ParkEvent()));
        FullConverges(Apply(map[], old(trace)), old(Contents(buffer)), width, height, ParkEvent());
      } else {
        // Only an empty area lets a smaller frame through both loops.
        ScanOrderLength(width, height);
        assert ScanOrder(width, height) == [] == WrittenBeforeFault(buffer.Length0, buffer.Length1, width, height);
      }
    }

    /**
      The two loops of the full render: write every cell of the area in scan
      order, and stop at the first index outside a smaller frame.
     */
    method WriteScan(buffer: array2<ConsoleChar>) returns (complete: bool)
      requires buffer.Length0 <= width && buffer.Length1 <= height
      modifies this
      ensures complete <==> Exact(buffer) || width == 0 || height == 0
      ensures complete ==> trace == old(trace) + WriteEvents(ScanOrder(width, height), Contents(buffer), ParkEvent())
      ensures !complete ==>
        trace == old(trace) + WriteEvents(WrittenBeforeFault(buffer.Length0, buffer.Length1, width, height),
                                          Contents(buffer), ParkEvent())
    {
      ghost var g := Contents(buffer);
      ghost var park := ParkEvent();
      var x := 0;
      while x < width
        invariant 0 <= x <= width
        invariant x > 0 && height > 0 ==> x <= buffer.Length0 && height <= buffer.Length1
        invariant trace == old(trace) + WriteEvents(ScanOrder(x, height), g, park)
      {
        var y := 0;
        assert ScanOrder(x, height) + Column(x, 0) == ScanOrder(x, height);
        while y < height
          invariant 0 <= y <= height
          invariant y > 0 ==> x < buffer.Length0 && y <= buffer.Length1
          invariant trace == old(trace) + WriteEvents(ScanOrder(x, height) + Column(x, y), g, park)
        {
          if x >= buffer.Length0 || y >= buffer.Length1 {
            FaultPrefix(buffer.Length0, buffer.Length1, width, height, x, y);
            return false;
          }
          ghost var before := trace;
          var _ := WriteCharToPosition(buffer[x, y], Vector2(x, y));
          WriteStep(before, old(trace), ScanOrder(x, height) + Column(x, y), Vector2(x, y), g, park);
          ScanStep(x, y, height);
          y := y + 1;
        }
        x := x + 1;
      }
      return true;
    }

    /**
      Reads row y of a from the bytes at cursor start, one byte per cell in
      the colours fg and bg; returns the cursor after the row.
     */
    static method ReadRow(a: array2<ConsoleChar>, bytes: seq<byte>, start: nat, y: nat, fg: Color, bg: Color)
      returns (position: nat)
      requires start <= |bytes| && y < a.Length1
      modifies a
      ensures position == RowEnd(bytes, a.Length0, start)
      ensures forall i, j :: 0 <= i < a.Length0 && 0 <= j < a.Length1 ==>
        a[i, j] == if j == y then ConsoleChar(CharCast(ReadAt(bytes, start, i)), fg, bg) else old(a[i, j])
    {
      position := start;
      var x := 0;
      while x < a.Length0
        invariant 0 <= x <= a.Length0
        invariant position == RowEnd(bytes, x, start)
        invariant forall i, j :: 0 <= i < a.Length0 && 0 <= j < a.Length1 ==>
          a[i, j] == if j == y && i < x then ConsoleChar(CharCast(ReadAt(bytes, start, i)), fg, bg) else old(a[i, j])
      {
        var b := ByteAt(bytes, position);
        assert b == ReadAt(bytes, start, x);
        a[x, y] := ConsoleChar(CharCast(b), fg, bg);
        if position < |bytes| {
          position := position + 1;
        }
        x := x + 1;
      }
    }

    /**
      Reads bytes from the cursor through the next newline and returns the
      cursor after it, or None when the bytes end first.
     */
    static method SkipLine(bytes: seq<byte>, from: nat) returns (next: Option<nat>)
      requires from <= |bytes|
      ensures NextNewline(bytes, from).None? ==> next.None?
      ensures NextNewline(bytes, from).Some? ==> next == Some(NextNewline(bytes, from).value + 1)
    {
      var position := from;
      while true
        invariant from <= position <= |bytes|
        invariant forall k :: from <= k < position ==> bytes[k] != 10
        decreases |bytes| - position
      {
        if position == |bytes| {
          NextNewlineNone(bytes, from);
          return None;
        }
        var b := bytes[position];
        position := position + 1;
        if CharCast(b as int) == Newline {
          NextNewlineAt(bytes, from, position - 1);
          return Some(position);
        }
      }
    }

    /**
      Loads a size.x x size.y frame from the bytes of a text file. Row y
      takes the next size.x bytes, in the default colours; after a row the
      loader stops if it is at the end of the bytes and otherwise skips
      through the next newline. Rows not reached keep untouched cells.
     */
    method LoadBufferArrayFromFile(bytes: seq<byte>, size: Vector2) returns (r: Result<array2<ConsoleChar>>)
      ensures size.x < 0 || size.y < 0 ==> r == Err(NegativeSize)
      ensures size.x >= 0 && size.y >= 0 && RowStarts(bytes, size.x, size.y, 0).Err? ==>
        r == Err(RowStarts(bytes, size.x, size.y, 0).error)
      ensures size.x >= 0 && size.y >= 0 && RowStarts(bytes, size.x, size.y, 0).Ok? ==>
        r.Ok? && fresh(r.value) && r.value.Length0 == size.x && r.value.Length1 == size.y &&
        forall x, y :: 0 <= x < size.x && 0 <= y < size.y ==>
          r.value[x, y] ==
            LoadedCell(bytes, RowStarts(bytes, size.x, size.y, 0).value, x, y, defaultForeground, defaultBackground)
    {
      if size.x < 0 || size.y < 0 {
        return Err(NegativeSize);
      }
      var w: nat, h: nat := size.x, size.y;
      ghost var spec := RowStarts(bytes, w, h, 0);
      var a := new ConsoleChar[w, h]((_, _) => EmptyChar);
      var position: nat := 0;
      ghost var starts: seq<nat> := [];
      var y := 0;
      PrependNothing(spec);
      while y < h
        invariant 0 <= y <= h && position <= |bytes| && |starts| == y
        invariant spec == Prepend(starts, RowStarts(bytes, w, h - y, position))
        invariant fresh(a) && a.Length0 == w && a.Length1 == h
        invariant forall i, j :: 0 <= i < w && 0 <= j < h ==>
          a[i, j] == LoadedCell(bytes, starts, i, j, defaultForeground, defaultBackground)
      {
        ghost var rowStart := position;
        ghost var row := starts + [rowStart];
        position := ReadRow(a, bytes, position, y, defaultForeground, defaultBackground);
        forall i, j | 0 <= i < w && 0 <= j < h
          ensures a[i, j] == LoadedCell(bytes, row, i, j, defaultForeground, defaultBackground)
        {
          LoadedCellNextRow(bytes, starts, rowStart, i, j, defaultForeground, defaultBackground);
        }
        if position == |bytes| {
          RowStartsStop(bytes, w, h - y, rowStart);
          assert spec == Ok(row);
          return Ok(a);
        }
        var next := SkipLine(bytes, position);
        if next.None? {
          // From here on ReadByte yields -1, which is never a newline: the source loops forever.
          RowStartsEndless(bytes, w, h - y, rowStart);
          assert spec == Err(EndlessSkip);
          return Err(EndlessSkip);
        }
        RowStartsSkip(bytes, w, h - y, rowStart, next.value - 1);
        position := next.value;
        PrependPrepend(starts, [rowStart], RowStarts(bytes, w, h - y - 1, position));
        starts := row;
        y := y + 1;
      }
      assert spec == Ok(starts) by {
        assert starts + [] == starts;
      }
      r := Ok(a);
    }
  }
}
