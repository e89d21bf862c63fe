/**
  The value types of the console library: a colour, a coloured character
  (ConsoleChar) and an integer position (Vector2).
 */
module Structs {

  /** The sixteen console colours, in the order of their numeric values (Black is 0). */
  datatype Color =
    | Black | DarkBlue | DarkGreen | DarkCyan | DarkRed | DarkMagenta | DarkYellow | Gray
    | DarkGray | Blue | Green | Cyan | Red | Magenta | Yellow | White

  /** A UTF-16 code unit, the range of a C# `char`. */
  newtype CodeUnit = c: int | 0 <= c < 0x1_0000

  /** The line terminator the file loader searches for. */
  const Newline: CodeUnit := 10

  /** The cell value type: a character with its text and background colours. */
  datatype ConsoleChar = ConsoleChar(character: CodeUnit, textColor: Color, bgColor: Color)

  /** A position: x is the column, y the row. */
  datatype Vector2 = Vector2(x: int, y: int)

  /** What a newly allocated cell array holds: character 0 and colour value 0 for both colours. */
  const EmptyChar: ConsoleChar := ConsoleChar(0, Black, Black)

  /**
    The unchecked C# conversion `(char)v` of an integer: it keeps the low
    16 bits of the two's-complement value, so the end-of-stream marker -1
    becomes 0xFFFF and every byte value stays itself.
   */
  function CharCast(v: int): (c: CodeUnit)
    ensures 0 <= v < 0x1_0000 ==> c as int == v
    ensures v == -1 ==> c == 0xFFFF
  {
    (v % 0x1_0000) as CodeUnit
  }

  /** The `==` operator of ConsoleChar: a field-wise comparison, which is structural equality. */
  function Equal(a: ConsoleChar, b: ConsoleChar): (r: bool)
    ensures r <==> a == b
  {
    a.character == b.character && a.textColor == b.textColor && a.bgColor == b.bgColor
  }

  /** The `!=` operator of ConsoleChar, written out as the negated field-wise comparison. */
  function NotEqual(a: ConsoleChar, b: ConsoleChar): (r: bool)
    ensures r <==> !Equal(a, b)
    ensures r <==> a != b
  {
    !(a.character == b.character && a.textColor == b.textColor && a.bgColor == b.bgColor)
  }

  /** `==` on cells is an equivalence relation. */
  lemma EqualIsEquivalence()
    ensures forall a :: Equal(a, a)
    ensures forall a, b :: Equal(a, b) <==> Equal(b, a)
    ensures forall a, b, c :: Equal(a, b) && Equal(b, c) ==> Equal(a, c)
  {
  }

  /** Both constructors store their arguments unchanged. */
  lemma ConstructorsKeepArguments(character: CodeUnit, textColor: Color, bgColor: Color, x: int, y: int)
    ensures var c := ConsoleChar(character, textColor, bgColor);
      c.character == character && c.textColor == textColor && c.bgColor == bgColor
    ensures var v := Vector2(x, y); v.x == x && v.y == y
  {
  }
}
