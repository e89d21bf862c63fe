/**
  The pure specification of the render engine: frames as values, the
  column-major scan order, the change set two frames give, the write events
  a render emits, and what those events leave on the terminal.
 */
module Frames {
  import opened Structs

  /** A frame as the engine indexes it: g[x][y] is the cell in column x, row y. */
  type Grid = seq<seq<ConsoleChar>>

  /** The visible terminal: the cell last written at each position. */
  type Screen = map<Vector2, ConsoleChar>

  /**
    The console calls of one render step. Put(p, c) moves the cursor to p,
    selects c's colours and writes c's character; Park(p, fg, bg) moves the
    cursor to p and selects the two colours, writing nothing.
   */
  datatype Event =
    | Put(at: Vector2, cell: ConsoleChar)
    | Park(at: Vector2, foreground: Color, background: Color)

  /** The frame an array of cells holds. */
  ghost function Contents(a: array2<ConsoleChar>): (g: Grid)
    reads a
    ensures |g| == a.Length0
    ensures forall x :: 0 <= x < a.Length0 ==> |g[x]| == a.Length1
    ensures forall x, y :: 0 <= x < a.Length0 && 0 <= y < a.Length1 ==> g[x][y] == a[x, y]
  {
    seq(a.Length0, x requires 0 <= x < a.Length0 reads a =>
      seq(a.Length1, y requires 0 <= y < a.Length1 reads a => a[x, y]))
  }

  predicate InBounds(g: Grid, p: Vector2) {
    0 <= p.x < |g| && 0 <= p.y < |g[p.x]|
  }

  /** The cell at p; the lemmas apply it only inside the frame. */
  function CellAt(g: Grid, p: Vector2): ConsoleChar {
    if InBounds(g, p) then g[p.x][p.y] else EmptyChar
  }

  /** p lies in the engine's area [0, w) x [0, h). */
  predicate InRegion(p: Vector2, w: int, h: int) {
    0 <= p.x < w && 0 <= p.y < h
  }

  /** The comparison the scan makes at p, with the cell type's `!=`. */
  predicate Differs(next: Grid, last: Grid, p: Vector2) {
    NotEqual(CellAt(next, p), CellAt(last, p))
  }

  /** Column-major order: by column first, then by row. */
  predicate Before(p: Vector2, q: Vector2) {
    p.x < q.x || (p.x == q.x && p.y < q.y)
  }

  /** No position occurs twice. */
  predicate Distinct(s: seq<Vector2>) {
    forall i, j :: 0 <= i < j < |s| ==> s[i] != s[j]
  }

  predicate Ordered(ps: seq<Vector2>) {
    forall i, j :: 0 <= i < j < |ps| ==> Before(ps[i], ps[j])
  }

  /** The rows 0 .. h-1 of column x, top to bottom. */
  function Column(x: int, h: nat): seq<Vector2> {
    if h == 0 then [] else Column(x, h - 1) + [Vector2(x, h - 1)]
  }

  /** Every position of the w x h area in the order of the nested x/y loops. */
  function ScanOrder(w: nat, h: nat): seq<Vector2> {
    if w == 0 then [] else ScanOrder(w - 1, h) + Column(w - 1, h)
  }

  /** The positions of ps, in order, at which next and last differ. */
  function Filter(ps: seq<Vector2>, next: Grid, last: Grid): seq<Vector2> {
    if ps == [] then []
    else (if Differs(next, last, ps[0]) then [ps[0]] else []) + Filter(ps[1..], next, last)
  }

  /** The change set: the differing positions of the w x h area in scan order. */
  function Changes(next: Grid, last: Grid, w: nat, h: nat): seq<Vector2> {
    Filter(ScanOrder(w, h), next, last)
  }

  /** The set of differing positions, independent of any order. */
  ghost function DiffSet(next: Grid, last: Grid, w: nat, h: nat): set<Vector2> {
    set x, y | 0 <= x < w && 0 <= y < h && Differs(next, last, Vector2(x, y)) :: Vector2(x, y)
  }

  /** The events of writing g's cell at each position of ps, each write followed by park. */
  function WriteEvents(ps: seq<Vector2>, g: Grid, park: Event): seq<Event> {
    if ps == [] then []
    else [Put(ps[0], CellAt(g, ps[0])), park] + WriteEvents(ps[1..], g, park)
  }

  /** The character writes among the events, in order. */
  function Writes(events: seq<Event>): seq<Event> {
    if events == [] then []
    else (if events[0].Put? then [events[0]] else []) + Writes(events[1..])
  }

  function Step(s: Screen, e: Event): Screen {
    match e
    case Put(p, c) => s[p := c]
    case Park(_, _, _) => s
  }

  /** The terminal after the events, starting from s. */
  function Apply(s: Screen, events: seq<Event>): Screen
    decreases events
  {
    if events == [] then s else Apply(Step(s, events[0]), events[1..])
  }

  /** The terminal shows g on the w x h area. */
  ghost predicate Shows(s: Screen, g: Grid, w: int, h: int) {
    forall p :: InRegion(p, w, h) ==> p in s && s[p] == CellAt(g, p)
  }

  /**
    The positions a full render writes before it indexes a frame of
    gw x gh cells out of bounds, on an engine of w x h with gw <= w, gh <= h:
    a frame that is too short fails in column 0 after its gh rows, one that
    is too narrow fails at the top of column gw.
   */
  function WrittenBeforeFault(gw: nat, gh: nat, w: nat, h: nat): seq<Vector2> {
    if w == 0 || h == 0 || gw == 0 then []
    else if gh < h then Column(0, gh)
    else ScanOrder(gw, h)
  }

  // ---------------------------------------------------------------------
  // The scan order

  lemma {:induction false} ColumnMembers(x: int, h: nat, p: Vector2)
    ensures |Column(x, h)| == h
    ensures p in Column(x, h) <==> p.x == x && 0 <= p.y < h
  {
    if h > 0 {
      ColumnMembers(x, h - 1, p);
    }
  }

  lemma {:induction false} ColumnOrdered(x: int, h: nat)
    ensures Ordered(Column(x, h))
  {
    if h > 0 {
      ColumnOrdered(x, h - 1);
      var c := Column(x, h - 1);
      forall i | 0 <= i < |c| ensures Before(c[i], Vector2(x, h - 1)) {
        ColumnMembers(x, h - 1, c[i]);
      }
    }
  }

  /** The scan visits exactly the positions of the area ... */
  lemma {:induction false} ScanOrderMembers(w: nat, h: nat, p: Vector2)
    ensures p in ScanOrder(w, h) <==> InRegion(p, w, h)
  {
    if p in ScanOrder(w, h) {
      ScanOrderSound(w, h, p);
    }
    if InRegion(p, w, h) {
      ScanOrderComplete(w, h, p);
    }
  }

  /** The scan stays inside the area ... */
  lemma {:induction false} ScanOrderSound(w: nat, h: nat, p: Vector2)
    requires p in ScanOrder(w, h)
    ensures InRegion(p, w, h)
  {
    var a, b := ScanOrder(w - 1, h), Column(w - 1, h);
    if p in a {
      ScanOrderSound(w - 1, h, p);
    } else {
      ColumnMembers(w - 1, h, p);
    }
  }

  /** ... and reaches all of it. */
  lemma {:induction false} ScanOrderComplete(w: nat, h: nat, p: Vector2)
    requires InRegion(p, w, h)
    ensures p in ScanOrder(w, h)
  {
    var a, b := ScanOrder(w - 1, h), Column(w - 1, h);
    if p.x < w - 1 {
      ScanOrderComplete(w - 1, h, p);
      assert p in a;
    } else {
      ColumnMembers(w - 1, h, p);
      assert p in b;
    }
  }

  /** ... each once, w * h of them ... */
  lemma {:induction false} ScanOrderLength(w: nat, h: nat)
    ensures |ScanOrder(w, h)| == w * h
  {
    if w > 0 {
      ScanOrderLength(w - 1, h);
      ColumnMembers(w - 1, h, Vector2(0, 0));
      assert w * h == (w - 1) * h + h;
    }
  }

  /** ... in column-major order. */
  lemma {:induction false} ScanOrderOrdered(w: nat, h: nat)
    ensures Ordered(ScanOrder(w, h))
  {
    if w > 0 {
      ScanOrderOrdered(w - 1, h);
      ColumnOrdered(w - 1, h);
      ColumnFollowsScan(w - 1, h);
      OrderedConcat(ScanOrder(w - 1, h), Column(w - 1, h));
    }
  }

  /** Column x comes after every position of the first x columns. */
  lemma ColumnFollowsScan(x: nat, h: nat)
    ensures forall i, j :: 0 <= i < |ScanOrder(x, h)| && 0 <= j < |Column(x, h)| ==>
      Before(ScanOrder(x, h)[i], Column(x, h)[j])
  {
    var a, b := ScanOrder(x, h), Column(x, h);
    forall i, j | 0 <= i < |a| && 0 <= j < |b| ensures Before(a[i], b[j]) {
      ScanOrderMembers(x, h, a[i]);
      ColumnMembers(x, h, b[j]);
    }
  }

  lemma OrderedConcat(a: seq<Vector2>, b: seq<Vector2>)
    requires Ordered(a) && Ordered(b)
    requires forall i, j :: 0 <= i < |a| && 0 <= j < |b| ==> Before(a[i], b[j])
    ensures Ordered(a + b)
  {
    forall i, j | 0 <= i < j < |a + b| ensures Before((a + b)[i], (a + b)[j]) {
      if j < |a| {
      } else if i < |a| {
        assert (a + b)[j] == b[j - |a|];
      } else {
        assert (a + b)[i] == b[i - |a|] && (a + b)[j] == b[j - |a|];
      }
    }
  }

  // ---------------------------------------------------------------------
  // Filtering a sequence of positions

  lemma {:induction false} FilterAppend(a: seq<Vector2>, b: seq<Vector2>, next: Grid, last: Grid)
    ensures Filter(a + b, next, last) == Filter(a, next, last) + Filter(b, next, last)
  {
    if a == [] {
      assert a + b == b;
    } else {
      assert (a + b)[0] == a[0] && (a + b)[1..] == a[1..] + b;
      FilterAppend(a[1..], b, next, last);
    }
  }

  lemma {:induction false} FilterMembers(ps: seq<Vector2>, next: Grid, last: Grid, p: Vector2)
    ensures p in Filter(ps, next, last) <==> p in ps && Differs(next, last, p)
  {
    if ps != [] {
      FilterMembers(ps[1..], next, last, p);
      assert ps == [ps[0]] + ps[1..];
    }
  }

  lemma {:induction false} FilterOrdered(ps: seq<Vector2>, next: Grid, last: Grid)
    requires Ordered(ps)
    ensures Ordered(Filter(ps, next, last))
  {
    if ps != [] {
      var rest := ps[1..];
      assert Ordered(rest) by {
        forall i, j | 0 <= i < j < |rest| ensures Before(rest[i], rest[j]) {
          assert rest[i] == ps[i + 1] && rest[j] == ps[j + 1];
        }
      }
      FilterOrdered(rest, next, last);
      var head := if Differs(next, last, ps[0]) then [ps[0]] else [];
      var tail := Filter(rest, next, last);
      forall j | 0 <= j < |tail| ensures Before(ps[0], tail[j]) {
        FilterMembers(rest, next, last, tail[j]);
        var k :| 0 <= k < |rest| && rest[k] == tail[j];
        assert ps[k + 1] == tail[j];
      }
      forall i, j | 0 <= i < j < |head + tail| ensures Before((head + tail)[i], (head + tail)[j]) {
        if i < |head| {
          assert (head + tail)[j] == tail[j - |head|];
        } else {
          assert (head + tail)[i] == tail[i - |head|] && (head + tail)[j] == tail[j - |head|];
        }
      }
    }
  }

  // ---------------------------------------------------------------------
  // The change set

  /** A position is in the change set exactly when it lies in the area and the two cells differ. */
  lemma ChangesExact(next: Grid, last: Grid, w: nat, h: nat, p: Vector2)
    ensures p in Changes(next, last, w, h) <==> InRegion(p, w, h) && CellAt(next, p) != CellAt(last, p)
  {
    FilterMembers(ScanOrder(w, h), next, last, p);
    ScanOrderMembers(w, h, p);
  }

  /** The change set is in column-major order, so no position occurs twice. */
  lemma ChangesOrdered(next: Grid, last: Grid, w: nat, h: nat)
    ensures Ordered(Changes(next, last, w, h))
    ensures Distinct(Changes(next, last, w, h))
  {
    ScanOrderOrdered(w, h);
    FilterOrdered(ScanOrder(w, h), next, last);
  }

  lemma {:induction false} DistinctSetSize(s: seq<Vector2>)
    requires Distinct(s)
    ensures |set p | p in s| == |s|
  {
    if s != [] {
      DistinctTail(s);
      DistinctSetSize(s[1..]);
      SetOfCons(s);
    }
  }

  lemma DistinctTail(s: seq<Vector2>)
    requires s != [] && Distinct(s)
    ensures Distinct(s[1..]) && s[0] !in s[1..]
  {
    var rest := s[1..];
    forall i, j | 0 <= i < j < |rest| ensures rest[i] != rest[j] {
      assert rest[i] == s[i + 1] && rest[j] == s[j + 1];
    }
    forall k | 0 <= k < |rest| ensures rest[k] != s[0] {
      assert rest[k] == s[k + 1];
    }
  }

  lemma SetOfCons(s: seq<Vector2>)
    requires s != []
    ensures (set p | p in s) == {s[0]} + (set p | p in s[1..])
  {
    assert s == [s[0]] + s[1..];
  }

  /** As many positions are written as there are differing cells. */
  lemma ChangesCount(next: Grid, last: Grid, w: nat, h: nat)
    ensures |Changes(next, last, w, h)| == |DiffSet(next, last, w, h)|
  {
    var c := Changes(next, last, w, h);
    ChangesOrdered(next, last, w, h);
    DistinctSetSize(c);
    forall p ensures p in DiffSet(next, last, w, h) <==> p in c {
      ChangesExact(next, last, w, h, p);
      assert p == Vector2(p.x, p.y);
    }
    assert DiffSet(next, last, w, h) == set p | p in c;
  }

  /** The change set is empty exactly when the two frames agree on the whole area. */
  lemma ChangesEmptyIffAgree(next: Grid, last: Grid, w: nat, h: nat)
    ensures Changes(next, last, w, h) == [] <==>
      forall p :: InRegion(p, w, h) ==> CellAt(next, p) == CellAt(last, p)
  {
    var c := Changes(next, last, w, h);
    if c == [] {
      forall p | InRegion(p, w, h) ensures CellAt(next, p) == CellAt(last, p) {
        ChangesExact(next, last, w, h, p);
      }
    } else {
      ChangesExact(next, last, w, h, c[0]);
    }
  }

  /** Rendering a frame against itself changes nothing. */
  lemma RepeatHasNoChanges(g: Grid, w: nat, h: nat)
    ensures Changes(g, g, w, h) == []
  {
    ChangesEmptyIffAgree(g, g, w, h);
  }

  // ---------------------------------------------------------------------
  // Write events

  lemma {:induction false} WriteEventsAppend(a: seq<Vector2>, b: seq<Vector2>, g: Grid, park: Event)
    ensures WriteEvents(a + b, g, park) == WriteEvents(a, g, park) + WriteEvents(b, g, park)
  {
    if a == [] {
      assert a + b == b;
    } else {
      assert (a + b)[0] == a[0] && (a + b)[1..] == a[1..] + b;
      WriteEventsAppend(a[1..], b, g, park);
    }
  }

  /** Appending the events of one more write to a trace. */
  lemma WriteStep(t: seq<Event>, t0: seq<Event>, done: seq<Vector2>, p: Vector2, g: Grid, park: Event)
    requires t == t0 + WriteEvents(done, g, park)
    ensures t + [Put(p, CellAt(g, p)), park] == t0 + WriteEvents(done + [p], g, park)
  {
    WriteEventsAppend(done, [p], g, park);
  }

  /** Event 2i writes g's cell at ps[i] and event 2i+1 is the park after it. */
  lemma {:induction false} WriteEventsInterleave(ps: seq<Vector2>, g: Grid, park: Event)
    ensures |WriteEvents(ps, g, park)| == 2 * |ps|
    ensures forall i :: 0 <= i < |ps| ==>
      WriteEvents(ps, g, park)[2 * i] == Put(ps[i], CellAt(g, ps[i])) && WriteEvents(ps, g, park)[2 * i + 1] == park
  {
    if ps != [] {
      var e, rest := WriteEvents(ps, g, park), WriteEvents(ps[1..], g, park);
      WriteEventsInterleave(ps[1..], g, park);
      forall i | 0 <= i < |ps|
        ensures e[2 * i] == Put(ps[i], CellAt(g, ps[i])) && e[2 * i + 1] == park
      {
        if i > 0 {
          assert e[2 * i] == rest[2 * (i - 1)] && e[2 * i + 1] == rest[2 * (i - 1) + 1];
        }
      }
    }
  }

  /**
    The events hold one character write per position, in order, each of g's
    cell there, and each write is directly followed by the park.
   */
  lemma {:induction false} WritesOfWriteEvents(ps: seq<Vector2>, g: Grid, park: Event)
    requires park.Park?
    ensures var ws := Writes(WriteEvents(ps, g, park));
      |ws| == |ps| && forall i :: 0 <= i < |ps| ==> ws[i] == Put(ps[i], CellAt(g, ps[i]))
    ensures |WriteEvents(ps, g, park)| == 2 * |ps|
    ensures forall i :: 0 <= i < |ps| ==>
      WriteEvents(ps, g, park)[2 * i] == Put(ps[i], CellAt(g, ps[i])) && WriteEvents(ps, g, park)[2 * i + 1] == park
  {
    WriteEventsInterleave(ps, g, park);
    if ps != [] {
      var e := WriteEvents(ps, g, park);
      var rest := WriteEvents(ps[1..], g, park);
      WritesOfWriteEvents(ps[1..], g, park);
      assert e[1..] == [park] + rest;
      assert e[1..][1..] == rest;
      var ws := Writes(e);
      assert Writes(e[1..]) == Writes(rest);
      assert ws == [Put(ps[0], CellAt(g, ps[0]))] + Writes(rest);
      forall i | 0 <= i < |ps| ensures ws[i] == Put(ps[i], CellAt(g, ps[i])) {
        if i > 0 {
          assert ws[i] == Writes(rest)[i - 1];
        }
      }
    }
  }

  /** The incremental render issues one character write per differing cell. */
  lemma WriteCount(next: Grid, last: Grid, w: nat, h: nat, park: Event)
    requires park.Park?
    ensures |Writes(WriteEvents(Changes(next, last, w, h), next, park))| == |DiffSet(next, last, w, h)|
  {
    WritesOfWriteEvents(Changes(next, last, w, h), next, park);
    ChangesCount(next, last, w, h);
  }

  // ---------------------------------------------------------------------
  // What the terminal shows

  lemma {:induction false} ApplyAppend(s: Screen, a: seq<Event>, b: seq<Event>)
    ensures Apply(s, a + b) == Apply(Apply(s, a), b)
    decreases a
  {
    if a == [] {
      assert a + b == b;
    } else {
      assert (a + b)[0] == a[0] && (a + b)[1..] == a[1..] + b;
      ApplyAppend(Step(s, a[0]), a[1..], b);
    }
  }

  /** After the write events for ps, each position of ps shows g's cell and every other position is as before. */
  lemma {:induction false} ApplyWriteEvents(s: Screen, ps: seq<Vector2>, g: Grid, park: Event, p: Vector2)
    requires park.Park?
    ensures var t := Apply(s, WriteEvents(ps, g, park));
      (p in ps ==> p in t && t[p] == CellAt(g, p)) &&
      (p !in ps ==> (p in t <==> p in s) && (p in s ==> t[p] == s[p]))
    decreases ps
  {
    if ps != [] {
      var e := WriteEvents(ps, g, park);
      var rest := WriteEvents(ps[1..], g, park);
      var s1 := s[ps[0] := CellAt(g, ps[0])];
      assert e[1..] == [park] + rest;
      assert e[1..][1..] == rest;
      assert Apply(s, e) == Apply(s1, rest);
      ApplyWriteEvents(s1, ps[1..], g, park, p);
      assert ps == [ps[0]] + ps[1..];
    }
  }

  /**
    Convergence of the incremental render: a terminal that showed the
    baseline shows the new frame after the writes of the change set.
   */
  lemma IncrementalConverges(s: Screen, next: Grid, last: Grid, w: nat, h: nat, park: Event)
    requires park.Park? && Shows(s, last, w, h)
    ensures Shows(Apply(s, WriteEvents(Changes(next, last, w, h), next, park)), next, w, h)
  {
    var c := Changes(next, last, w, h);
    forall p | InRegion(p, w, h)
      ensures var t := Apply(s, WriteEvents(c, next, park)); p in t && t[p] == CellAt(next, p)
    {
      ApplyWriteEvents(s, c, next, park, p);
      ChangesExact(next, last, w, h, p);
    }
  }

  /** Convergence of the full render: whatever the terminal showed, it shows the new frame afterwards. */
  lemma FullConverges(s: Screen, next: Grid, w: nat, h: nat, park: Event)
    requires park.Park?
    ensures Shows(Apply(s, WriteEvents(ScanOrder(w, h), next, park)), next, w, h)
  {
    forall p | InRegion(p, w, h)
      ensures var t := Apply(s, WriteEvents(ScanOrder(w, h), next, park)); p in t && t[p] == CellAt(next, p)
    {
      ApplyWriteEvents(s, ScanOrder(w, h), next, park, p);
      ScanOrderMembers(w, h, p);
    }
  }

  /** From a terminal in step with the baseline, both renders leave the same picture on the area. */
  lemma FullAndIncrementalAgree(s: Screen, next: Grid, last: Grid, w: nat, h: nat, park: Event, p: Vector2)
    requires park.Park? && Shows(s, last, w, h) && InRegion(p, w, h)
    ensures var full := Apply(s, WriteEvents(ScanOrder(w, h), next, park));
      var incr := Apply(s, WriteEvents(Changes(next, last, w, h), next, park));
      p in full && p in incr && full[p] == incr[p] == CellAt(next, p)
  {
    IncrementalConverges(s, next, last, w, h, park);
    FullConverges(s, next, w, h, park);
  }

  /** One more step of the inner scan loop. */
  lemma ScanStep(x: nat, y: nat, h: nat)
    ensures ScanOrder(x, h) + Column(x, y + 1) == ScanOrder(x, h) + Column(x, y) + [Vector2(x, y)]
  {
  }

  /**
    Where the full render stops on a frame of gw x gh: at (x, y), the first
    index of the scan outside the frame, having written the positions
    WrittenBeforeFault names.
   */
  lemma FaultPrefix(gw: nat, gh: nat, w: nat, h: nat, x: nat, y: nat)
    requires gw <= w && gh <= h && x < w && y < h
    requires x > 0 ==> x <= gw && h <= gh
    requires y > 0 ==> x < gw && y <= gh
    requires x >= gw || y >= gh
    ensures ScanOrder(x, h) + Column(x, y) == WrittenBeforeFault(gw, gh, w, h)
  {
    assert ScanOrder(0, h) == [] && Column(x, 0) == [];
  }

  /** The positions written before a fault lie inside the frame, so the written cells are the frame's. */
  lemma WrittenBeforeFaultInFrame(gw: nat, gh: nat, w: nat, h: nat, p: Vector2)
    requires gw <= w && gh <= h
    requires p in WrittenBeforeFault(gw, gh, w, h)
    ensures 0 <= p.x < gw && 0 <= p.y < gh
  {
    if w > 0 && h > 0 && gw > 0 {
      if gh < h {
        ColumnMembers(0, gh, p);
      } else {
        ScanOrderMembers(gw, h, p);
      }
    }
  }
}
