/**
  Two uses of the engine that follow from the contracts of its operations:
  a repeated render and a change to a frame after it was rendered.
 */
module Scenarios {
  import opened Structs
  import opened Outcomes
  import opened Frames
  import opened GameBuffer

  /** Rendering the same frame twice: the second render finds no changes and issues no console calls. */
  method RenderTwice(e: GameBuffer, buffer: array2<ConsoleChar>) returns (first: Outcome, second: Outcome)
    requires e.Valid() && e.Exact(buffer)
    modifies e, e.last
    ensures first == Pass && second == Pass
    ensures e.Baseline() == old(Contents(buffer))
    ensures e.trace ==
      old(e.trace) + WriteEvents(Changes(old(Contents(buffer)), old(e.Baseline()), e.width, e.height),
                                 old(Contents(buffer)), e.ParkEvent())
  {
    first := e.WriteBuffer(buffer);
    ghost var afterFirst := e.trace;
    second := e.WriteBuffer(buffer);
    RepeatHasNoChanges(old(Contents(buffer)), e.width, e.height);
    assert e.trace == afterFirst + [];
  }

  /** The baseline is a copy: changing the rendered array afterwards leaves it as rendered. */
  method ChangeAfterRender(e: GameBuffer, buffer: array2<ConsoleChar>, p: Vector2, c: ConsoleChar) returns (o: Outcome)
    requires e.Valid() && e.Exact(buffer) && buffer != e.last && InRegion(p, e.width, e.height)
    modifies e, e.last, buffer
    ensures o == Pass && e.Baseline() == old(Contents(buffer))
    ensures buffer[p.x, p.y] == c && e.Baseline()[p.x][p.y] == old(buffer[p.x, p.y])
  {
    o := e.WriteBuffer(buffer);
    buffer[p.x, p.y] := c;
  }
}
