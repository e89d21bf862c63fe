# VisualConsole render engine in Dafny

This project models the frame-diffing render engine of VisualConsole, `GameBuffer`, and the two value types it draws with, `ConsoleChar` and `Vector2`. It proves properties of the model.

The engine owns a fixed `width x height` area of the console. It keeps the last frame it rendered as a baseline, a `ConsoleChar[x, y]` array. It offers:

- **Incremental render** (`WriteBuffer`): scans the area column by column, lists the positions where the new frame differs from the baseline, writes only those cells, and copies the frame into the baseline.
- **Full render** (`CompleteWriteBuffer`): writes every cell of the area in the same scan order, then copies the frame.
- **Single-cell write** (`WriteCharToPosition`): writes one cell, then parks the cursor on the spare row under the area (`(0, height)`) in the default colours (`ResetCursor`).
- **Loader** (`LoadBufferArrayFromFile`): reads a frame from the bytes of a text file.

## How the model is built

**Console calls.** The engine's console calls are a ghost trace of events: `Put(position, cell)` for a character write and `Park(position, fg, bg)` for the cursor reset. `Apply` replays a trace on a map from positions to cells, which is the terminal. `Shows(screen, frame, w, h)` says the terminal shows a frame on the area. In this terminal a write of a cell at a position makes that position show the cell, whatever its character. `TerminalInSync` says the replayed trace shows the baseline.

**Frames.** A frame is read as a value with `Contents`, as `seq<seq<ConsoleChar>>` indexed `[x][y]`.

**Specification functions and the two renders.**

- `ScanOrder` is the order of the nested `x`/`y` loops.
- `Changes` is the differing positions in that order.
- `WriteEvents` is the events of writing a list of positions.
- The methods of the class are proved against these functions.
- The lemmas prove what the two renders promise:
  - the change list has exactly the differing positions, in scan order, each once;
  - after an incremental render from an in-sync terminal, and after any full render, the terminal shows the new frame (on a terminal where each written character fills exactly its own cell);
  - both renders leave every cell of the area the same.

**Loader.** The loader is specified by `RowStarts`, the cursor at which each row is read, and `LoadedCell`, the cell the loader leaves at `(x, y)`. Lemmas state what it yields for a file of rows joined by newlines.

**Errors.** The exceptions of the source are `Outcome`/`Result` values:

| Error | Source of the exception |
|---|---|
| `XOutOfRange`, `YOutOfRange` | the position checks of the single-cell write |
| `WidthTooLarge`, `HeightTooLarge` | the frame-size checks of the two renders |
| `LengthMismatch` | the dimension checks of the copy |
| `IndexOutOfRange` | an index outside an array during a scan |
| `NegativeSize` | a negative size given to the loader's allocation |
| `EndlessSkip` | see below |

`EndlessSkip` stands for the loader's skip loop. At the end of the stream it never returns: `ReadByte` yields -1 there, and -1 cast to `char` is never `'\n'`.

## Behaviour of the code to be aware of

- **Initial baseline.** The baseline starts as default cells: character `'\0'`, Black on Black (Black is colour value 0).
- **Short last row.** It is not an error. When the file ends right after it, the cells past its end get `(char)-1`, which is `0xFFFF`. When a newline follows it, that newline is read into the cell after the row's bytes, and only the cells after that get `0xFFFF`.
- **Inner rows.** The loader reads each row positionally, width bytes from the cursor. An inner row shorter than width pulls its newline and the next row's bytes into its cells; for a row longer than width, the bytes past width are skipped up to the next newline.
- **Trailing newline.** A file whose full last row is followed by a newline, and that has fewer rows than the frame, yields one more row of `0xFFFF` cells.
- **Missing newline after a row.** A row that is not at the end of the stream and has no newline after it makes the loader loop forever.
- **Frame smaller than the area.** The renders do not refuse it up front:
  - the incremental render fails in the scan, before any write;
  - or in the copy, when the area is empty;
  - the full render writes the cells it reaches before the first index outside the frame, then fails.
- **Error kinds.** The errors are the exceptions the code raises (table above).

## Model

| member | source | states |
|---|---|---|
| Structs.CharCast | VisualConsole/GameBuffer.cs:109 | The `(char)` cast of a `ReadByte` result: a byte keeps its value, and -1 (end of stream) becomes 0xFFFF. |
| Structs.Equal | VisualConsole/Structs.cs:20-25 | The cell `==` holds exactly when character, text colour and background colour all agree, i.e. it is value equality. |
| Structs.NotEqual | VisualConsole/Structs.cs:27-32 | The cell `!=` is the negation of `==` and holds exactly when the two cells differ as values. |
| Structs.EqualIsEquivalence | VisualConsole/Structs.cs:20-32 | The cell `==` is reflexive, symmetric and transitive. |
| Structs.ConstructorsKeepArguments | VisualConsole/Structs.cs:12-18 | The `ConsoleChar` constructor keeps its three arguments, and the `Vector2` constructor (Structs.cs:57-62) keeps its two. |
| Frames.ColumnMembers | VisualConsole/GameBuffer.cs:163 | The inner loop visits h positions: exactly the rows 0..h-1 of its column. |
| Frames.ColumnOrdered | VisualConsole/GameBuffer.cs:163 | The inner loop visits the rows of a column top to bottom. |
| Frames.ScanOrderMembers | VisualConsole/GameBuffer.cs:161-163 | The nested loops visit a position exactly when it lies in the width x height area. |
| Frames.ScanOrderSound | VisualConsole/GameBuffer.cs:161-163 | Every position the nested loops visit lies in the area. |
| Frames.ScanOrderComplete | VisualConsole/GameBuffer.cs:161-163 | Every position of the area is visited by the nested loops. |
| Frames.ScanOrderLength | VisualConsole/GameBuffer.cs:84-86 | The nested loops visit width * height positions. |
| Frames.ScanOrderOrdered | VisualConsole/GameBuffer.cs:84-86 | The nested loops visit positions in strictly increasing column-major order, so none twice. |
| Frames.FilterAppend | VisualConsole/GameBuffer.cs:165-167 | Collecting the differing positions of two consecutive stretches of a scan gives the two collections one after the other. |
| Frames.FilterMembers | VisualConsole/GameBuffer.cs:165-167 | A position is collected exactly when it is scanned and the cells there compare unequal. |
| Frames.FilterOrdered | VisualConsole/GameBuffer.cs:165-167 | Collecting from an ordered scan keeps the order. |
| Frames.ChangesExact | VisualConsole/GameBuffer.cs:155-178 | A position is in the change list exactly when it lies in the area and the new frame's cell there differs from the baseline's. |
| Frames.ChangesOrdered | VisualConsole/GameBuffer.cs:155-178 | The change list is in column-major order and has no repeated position. |
| Frames.DistinctSetSize | VisualConsole/GameBuffer.cs:155-178 | Proof helper for ChangesCount: a list without repeats has as many elements as its set of positions. |
| Frames.ChangesCount | VisualConsole/GameBuffer.cs:155-178 | The change list is as long as the set of differing positions of the area. |
| Frames.ChangesEmptyIffAgree | VisualConsole/GameBuffer.cs:155-178 | The change list is empty exactly when the two frames agree on every cell of the area. |
| Frames.RepeatHasNoChanges | VisualConsole/GameBuffer.cs:63-71 | Comparing a frame with itself yields no changes, so rendering the baseline again writes nothing. |
| Frames.WriteEventsAppend | VisualConsole/GameBuffer.cs:65-69 | Writing two lists of positions one after the other issues the events of their concatenation. |
| Frames.WriteStep | VisualConsole/GameBuffer.cs:88 | One more cell write and park extends the events of the positions written so far by that position. |
| Frames.WriteEventsInterleave | VisualConsole/GameBuffer.cs:65-69 | A render's events alternate: event 2i writes the frame's cell at the i-th listed position and event 2i+1 is the park of `ResetCursor` (line 50) after it. |
| Frames.WritesOfWriteEvents | VisualConsole/GameBuffer.cs:65-69 | The writes of a render are exactly one write per listed position, in list order, carrying the frame's cell there, and each is directly followed by one park (event 2i is the write of position i, event 2i+1 the park). |
| Frames.WriteCount | VisualConsole/GameBuffer.cs:63-69 | The incremental render writes as many characters as there are differing cells. |
| Frames.ApplyAppend | VisualConsole/GameBuffer.cs:45-48 | The terminal after two event runs is the terminal after the first, updated by the second. |
| Frames.ApplyWriteEvents | VisualConsole/GameBuffer.cs:45-50 | After writing a list of positions the terminal shows the frame's cell at each of them and is unchanged everywhere else (parks write nothing). |
| Frames.IncrementalConverges | VisualConsole/GameBuffer.cs:54-73 | If the terminal showed the baseline, then after writing only the changes it shows the new frame on the whole area. |
| Frames.FullConverges | VisualConsole/GameBuffer.cs:75-96 | After writing every position of the area the terminal shows the new frame, whatever it showed before. |
| Frames.FullAndIncrementalAgree | VisualConsole/GameBuffer.cs:54-96 | From a terminal in sync with the baseline, the full and the incremental render leave the same cell at every position of the area: the new frame's. |
| Frames.ScanStep | VisualConsole/GameBuffer.cs:86-88 | One more inner-loop step extends the scan so far by the position (x, y). |
| Frames.FaultPrefix | VisualConsole/GameBuffer.cs:84-88 | When the full render's loops first index outside a smaller frame, the positions written so far are exactly `WrittenBeforeFault`. |
| Frames.WrittenBeforeFaultInFrame | VisualConsole/GameBuffer.cs:84-88 | Every position the full render writes before failing lies inside the smaller frame. |
| BufferFile.ByteAt | VisualConsole/GameBuffer.cs:109 | `ReadByte` yields a value in -1..255, and -1 exactly at the end of the stream. |
| BufferFile.NextNewline | VisualConsole/GameBuffer.cs:116 | A found newline lies at or after the cursor, inside the stream, and is a newline byte. |
| BufferFile.NextNewlineFirst | VisualConsole/GameBuffer.cs:116 | The found newline is the first one after the cursor; if none is found there is no newline after the cursor. |
| BufferFile.NextNewlineAt | VisualConsole/GameBuffer.cs:116 | The skip stops at a newline byte that is preceded by no newline since the cursor. |
| BufferFile.NextNewlineNone | VisualConsole/GameBuffer.cs:116 | A stream with no newline after the cursor gives the skip nothing to stop at. |
| BufferFile.PrependPrepend | VisualConsole/GameBuffer.cs:105-118 | Proof helper for the loader's loop invariant (`RowStarts` as cursors so far plus the rest): collecting row cursors in two steps is collecting them in one. |
| BufferFile.PrependNothing | VisualConsole/GameBuffer.cs:105-118 | Proof helper for the loader's loop invariant on entry: before the first row nothing has been collected. |
| BufferFile.RowStartsStop | VisualConsole/GameBuffer.cs:113-114 | A row that ends at the end of the stream is the last row read. |
| BufferFile.RowStartsSkip | VisualConsole/GameBuffer.cs:116-117 | After a row not at the end of the stream, the next row starts just past the next newline. |
| BufferFile.RowStartsEndless | VisualConsole/GameBuffer.cs:116 | After a row not at the end of the stream with no newline left, the loader never returns. |
| BufferFile.PrependFound | VisualConsole/GameBuffer.cs:105-118 | Proof helper for LayoutRowStarts: a row cursor put in front of a completed collection yields the joined collection. |
| BufferFile.LoadedCellNextRow | VisualConsole/GameBuffer.cs:107-111 | Reading one more row fills that row from its cursor, keeps the rows before it, and leaves the later rows untouched. |
| BufferFile.RowStartsShape | VisualConsole/GameBuffer.cs:105-118 | At most height rows are read. The first starts at the cursor, and each later one starts past the previous row's width. The loader stops early only when a row reaches the end of the stream. |
| BufferFile.OffsetsCons | VisualConsole/GameBuffer.cs:105-118 | Proof helper for JoinedReads and LayoutRowStarts: the cursors of n+1 rows are the first cursor followed by the cursors of n rows one row and a newline later. |
| BufferFile.LastRow | VisualConsole/GameBuffer.cs:107-114 | The final row of a file, at most width bytes, reads its bytes and then -1, and leaves the cursor at the end of the stream. |
| BufferFile.InnerRow | VisualConsole/GameBuffer.cs:107-116 | After a full inner row the next byte is the newline, and the rest of the stream holds the remaining rows. |
| BufferFile.InnerRowReads | VisualConsole/GameBuffer.cs:107-111 | A full inner row reads exactly its bytes. |
| BufferFile.WellFormedTail | VisualConsole/GameBuffer.cs:105-118 | Proof helper for JoinedLayout and JoinedReads: dropping the first row of a well-formed file leaves a well-formed file. |
| BufferFile.ConsRows | VisualConsole/GameBuffer.cs:105-111 | Proof helper for JoinedReads: a row read at the first cursor and the remaining rows read at their cursors make all rows read. |
| BufferFile.LayoutRowStarts | VisualConsole/GameBuffer.cs:105-118 | A stream laid out as n rows, each with a newline after it except the last, which reaches the end, is read from the n row cursors `Offsets`, whatever height >= n. |
| BufferFile.JoinedLayout | VisualConsole/GameBuffer.cs:105-118 | The rows of a well-formed file joined by newlines are laid out that way. |
| BufferFile.JoinedRowStarts | VisualConsole/GameBuffer.cs:105-118 | The loader reads a well-formed file of at most height rows from the cursors `Offsets`, one per row. |
| BufferFile.JoinedReads | VisualConsole/GameBuffer.cs:107-111 | Reading from those cursors yields each file row, then -1 past a short last row. |
| BufferFile.RaggedFileLoads | VisualConsole/GameBuffer.cs:100-122 | A file of at most height rows with no newline after the last, each row but the last exactly width bytes and the last at most width, loads without error. Cell (x, y) is the file's byte within a row, 0xFFFF past the end of a short last row, and an untouched cell in rows the file does not reach. |
| BufferFile.TrailingNewlineReadsOneMoreRow | VisualConsole/GameBuffer.cs:109-116 | For a file of fewer rows than height, each row exactly width bytes, a newline after the last row makes the loader read one more row, whose cells are all 0xFFFF. |
| BufferFile.NewlineAfterShortRowIsRead | VisualConsole/GameBuffer.cs:107-114 | For a file of at most height rows whose inner rows are exactly width bytes and whose last row is shorter, a newline after the last row is read into the cell after its bytes; only the cells after it get 0xFFFF, and no further row is read. |
| BufferFile.JoinExtendLast | VisualConsole/GameBuffer.cs:107-114 | Proof helper for NewlineAfterShortRowIsRead: appending a byte to the last row appends it to the joined file. |
| BufferFile.JoinAppendEmpty | VisualConsole/GameBuffer.cs:116 | A trailing newline is the same as one more, empty, row. |
| GameBuffer.GameBuffer.constructor | VisualConsole/GameBuffer.cs:200-207 | The area is width x height, the defaults are white on black, the trace is empty, and the baseline is a fresh width x height array of untouched cells. |
| GameBuffer.GameBuffer.FromSize | VisualConsole/GameBuffer.cs:209-216 | The same setup with the area taken from a size vector. |
| GameBuffer.GameBuffer.ResetCursor | VisualConsole/GameBuffer.cs:184-188 | Issues one park at (0, height) in the default colours and nothing else. |
| GameBuffer.GameBuffer.WriteCharToPosition | VisualConsole/GameBuffer.cs:36-52 | Refuses x >= width, then y >= height, with no console call. Inside the area it issues the write of the cell at the position, then one park. |
| GameBuffer.GameBuffer.CheckBufferAgainstLast | VisualConsole/GameBuffer.cs:155-178 | Fails exactly when the area is non-empty and an array is smaller than it. Otherwise it returns the change list `Changes` of the two frames. |
| GameBuffer.GameBuffer.CopyBufferArray | VisualConsole/GameBuffer.cs:130-149 | Refuses arrays of different dimensions, leaving the destination alone. Otherwise the destination becomes a copy of the source. The source is unchanged. |
| GameBuffer.GameBuffer.WriteBuffer | VisualConsole/GameBuffer.cs:54-73 | Refuses too wide, then too tall; a smaller frame fails with no write. An exact frame passes, writes exactly its `Changes` against the old baseline in scan order, becomes the baseline, and keeps an in-sync terminal in sync. |
| GameBuffer.GameBuffer.WriteChanges | VisualConsole/GameBuffer.cs:65-69 | Issues, for each listed position in order, the write of the frame's cell there and a park. |
| GameBuffer.GameBuffer.CompleteWriteBuffer | VisualConsole/GameBuffer.cs:75-96 | Refuses too wide, then too tall. A smaller frame is written up to its first missing index and then fails, keeping the baseline. An exact frame writes every position in scan order, becomes the baseline, and leaves the terminal in sync. |
| GameBuffer.GameBuffer.WriteScan | VisualConsole/GameBuffer.cs:84-92 | Completes exactly when the frame fills the area or the area is empty, writing the whole scan. Otherwise it writes `WrittenBeforeFault` and fails. |
| GameBuffer.GameBuffer.ReadRow | VisualConsole/GameBuffer.cs:107-111 | Fills row y with the next width `ReadByte` results cast to characters in the given colours, leaves every other row alone, and advances the cursor to the row's end. |
| GameBuffer.GameBuffer.SkipLine | VisualConsole/GameBuffer.cs:116 | Returns the cursor just past the next newline, or nothing when the stream has none. |
| GameBuffer.GameBuffer.LoadBufferArrayFromFile | VisualConsole/GameBuffer.cs:98-124 | Refuses a negative size, and reports the endless skip when it happens. Otherwise it returns a fresh size.x x size.y frame whose every cell is `LoadedCell` of the row cursors `RowStarts`, in the default colours. |
| Scenarios.RenderTwice | VisualConsole/GameBuffer.cs:63-71 | Rendering the same exact frame twice passes both times. The second render adds no console call and the baseline is the frame. |
| Scenarios.ChangeAfterRender | VisualConsole/GameBuffer.cs:130-149 | Because the baseline is a copy, changing the rendered array afterwards leaves the baseline as it was rendered. |

## Left out

- **Console setup** (GameBuffer.cs:218-243): clearing the console, hiding the cursor, saving and setting the window and buffer sizes. These are console I/O outside the model.
  - The cursor park made during setup (line 242) is not in the trace either, so the trace starts empty.
- **WaitForKey** (GameBuffer.cs:190-194): it reads a key from the console, which is I/O. Its `ResetCursor` call is modelled by ResetCursor.
- **Finaliser** (GameBuffer.cs:252-264): it restores the console sizes and clears the console, which is I/O at garbage collection.
- **Opening the file** (GameBuffer.cs:102): LoadBufferArrayFromFile takes the file's bytes as a parameter. Missing files and I/O errors are not modelled.
- **The `BufferArray` struct** (Structs.cs:36-50): nothing in the engine uses it.
- **Console colours**: `ConsoleColor` is an enumeration of its 16 values, not an integer type; only equality and the value-0 default matter here.
- **WriteCharToPosition**: negative coordinates are a precondition. The source passes them to the console, which rejects them.
- **Constructors**: a negative width or height is a precondition. The source fails in the console and array setup.
- **Concurrency**: the engine is single-threaded, and the model assumes no other writer to the console or to the arrays during a call.
- **LoadBufferArrayFromFile**: the endless skip is reported as `Err(EndlessSkip)` rather than as a loop that never returns.
- **IncrementalConverges, FullConverges, FullAndIncrementalAgree**: the terminal model assumes each written character fills exactly its own cell (GameBuffer.cs:48). Control characters such as `'\n'`, `'\r'`, `'\t'` and `'\b'`, which the loader can put into a frame, move the cursor instead, and double-width characters take two cells; neither is modelled, so "the terminal shows the new frame" holds for this idealised terminal only.
- **Access from outside**: the model does not capture other code writing the baseline array.
