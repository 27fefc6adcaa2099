// The cursor the human moves over the board with the w/a/s/d keys.
module Cursors {
  import opened Board

  /** A position on the board, clamped to columns and rows 0 .. 7. */
  class Cursor {
    var x: int
    var y: int

    ghost predicate Valid()
      reads this
    {
      0 <= x <= 7 && 0 <= y <= 7
    }

    /** A new cursor starts in the top-left corner. */
    constructor ()
      ensures Valid() && x == 0 && y == 0
    {
      x := 0;
      y := 0;
    }

    /** Back to the top-left corner. */
    method Reset()
      modifies this
      ensures Valid() && x == 0 && y == 0
    {
      x := 0;
      y := 0;
    }

    /** The cursor sits on (i, j); a valid cursor only ever sits on a board cell. */
    predicate Equals(i: int, j: int)
      reads this
      ensures Valid() && Equals(i, j) ==> InBounds(i, j)
    {
      (i, j) == (x, y)
    }

    /** One row up, unless already on the top row. */
    method Up()
      modifies this
      ensures x == old(x)
      ensures y == if old(y) > 0 then old(y) - 1 else old(y)
      ensures old(Valid()) ==> Valid()
    {
      if y > 0 {
        y := y - 1;
      }
    }

    /** One row down, unless already on the bottom row. */
    method Down()
      modifies this
      ensures x == old(x)
      ensures y == if old(y) < 7 then old(y) + 1 else old(y)
      ensures old(Valid()) ==> Valid()
    {
      if y < 7 {
        y := y + 1;
      }
    }

    /** One column right, unless already in the last column. */
    method Right()
      modifies this
      ensures y == old(y)
      ensures x == if old(x) < 7 then old(x) + 1 else old(x)
      ensures old(Valid()) ==> Valid()
    {
      if x < 7 {
        x := x + 1;
      }
    }

    /** One column left, unless already in the first column. */
    method Left()
      modifies this
      ensures y == old(y)
      ensures x == if old(x) > 0 then old(x) - 1 else old(x)
      ensures old(Valid()) ==> Valid()
    {
      if x > 0 {
        x := x - 1;
      }
    }
  }
}
