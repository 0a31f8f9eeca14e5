// The growable array of text lines of helper/Grid/grid.c, which the file
// loader fills and InitBoard reads, and the character-to-digit map `encode`.

module LineGrid {

  /** Initial capacity of a Grid (INIT_CAPACITY). */
  const INIT_CAPACITY := 256

  /** One text line: the `count` characters of its buffer. The buffer itself is
      zero-filled (calloc) and INIT_CAPACITY bytes long, so reading past the text
      but inside the buffer yields '\0'. */
  datatype Line = Line(text: seq<char>)

  /** The byte at position j of a line's buffer. */
  function BufAt(line: Line, j: nat): (ch: char)
    ensures j < |line.text| ==> ch == line.text[j]
    ensures |line.text| <= j ==> ch == '\0'
  {
    if j < |line.text| then line.text[j] else '\0'
  }

  /** The number a character stands for: its code minus the code of '0'. */
  function Digit(ch: char): int {
    ch as int - '0' as int
  }

  /** A Grid: `items` holds `capacity` slots of which the first `count` are in use. */
  class Grid {
    var items: array<Line>
    var count: nat
    var capacity: nat

    ghost predicate Valid()
      reads this
    {
      0 < capacity && count <= capacity && items.Length == capacity
    }

    /** The lines appended so far, in order. */
    ghost function Contents(): seq<Line>
      reads this, items
      requires Valid()
    {
      items[..count]
    }

    /** grid_alloc */
    constructor ()
      ensures Valid() && fresh(items)
      ensures count == 0 && capacity == INIT_CAPACITY && Contents() == []
    {
      items := new Line[INIT_CAPACITY];
      count := 0;
      capacity := INIT_CAPACITY;
    }

    /** append_to_grid: a full grid first doubles its capacity, keeping its lines;
        then the line is stored after the last one. */
    method Append(line: Line)
      requires Valid()
      modifies this, items
      ensures Valid()
      ensures count == old(count) + 1
      ensures capacity == if old(count) == old(capacity) then 2 * old(capacity) else old(capacity)
      ensures old(count) < old(capacity) ==> items == old(items)
      ensures old(count) == old(capacity) ==> fresh(items)
      ensures Contents() == old(Contents()) + [line]
    {
      if count == capacity {
        capacity := capacity * 2;
        var grown := new Line[capacity];
        forall k | 0 <= k < count {
          grown[k] := items[k];
        }
        items := grown;
      }
      items[count] := line;
      count := count + 1;
    }
  }

  /** encode: one number per character of the line, each the character's Digit. */
  method Encode(line: Line) returns (encoded: array<int>)
    ensures fresh(encoded)
    ensures encoded.Length == |line.text|
    ensures forall i :: 0 <= i < |line.text| ==> encoded[i] == Digit(line.text[i])
  {
    encoded := new int[|line.text|];
    for i := 0 to |line.text|
      invariant forall k :: 0 <= k < i ==> encoded[k] == Digit(line.text[k])
    {
      encoded[i] := Digit(line.text[i]);
    }
  }
}
