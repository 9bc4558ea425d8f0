/**
 The line canvas of the loop drawings (`canvas` in
 dashboard/src/components/LoopGraph/ascii-layout.ts, `drawing` in
 compact-layout.ts): cells and line masks written in place.
 */
module Canvas {

  /** The strokes that leave a cell; the code's mask has bits 1, 2, 4 and 8 for them. */
  datatype Mask = Mask(up: bool, right: bool, down: bool, left: bool)

  const BLANK := Mask(false, false, false, false)

  /** `a | b`. */
  function Or(a: Mask, b: Mask): Mask {
    Mask(a.up || b.up, a.right || b.right, a.down || b.down, a.left || b.left)
  }

  function Number(m: Mask): nat {
    (if m.up then 1 else 0) + (if m.right then 2 else 0) + (if m.down then 4 else 0) + (if m.left then 8 else 0)
  }

  /** The character of a mask; the first is never drawn. */
  const GLYPHS := [' ', '\U{2502}', '\U{2500}', '\U{2514}', '\U{2502}', '\U{2502}', '\U{250C}', '\U{251C}',
                   '\U{2500}', '\U{2518}', '\U{2500}', '\U{2534}', '\U{2510}', '\U{2524}', '\U{252C}', '\U{253C}']

  function Glyph(m: Mask): char {
    GLYPHS[Number(m)]
  }

  /** The strokes the box-drawing characters of Unicode (2500 to 257F) have. */
  function StrokesOf(c: char): Mask {
    match c
    case '\U{2500}' => Mask(false, true, false, true)
    case '\U{2502}' => Mask(true, false, true, false)
    case '\U{250C}' => Mask(false, true, true, false)
    case '\U{2510}' => Mask(false, false, true, true)
    case '\U{2514}' => Mask(true, true, false, false)
    case '\U{2518}' => Mask(true, false, false, true)
    case '\U{251C}' => Mask(true, true, true, false)
    case '\U{2524}' => Mask(true, false, true, true)
    case '\U{252C}' => Mask(false, true, true, true)
    case '\U{2534}' => Mask(true, true, false, true)
    case '\U{253C}' => Mask(true, true, true, true)
    case _ => BLANK
  }

  /** A glyph has the strokes of its mask; a single stroke is drawn through the whole cell. */
  lemma GlyphHasTheStrokes(m: Mask)
    ensures StrokesOf(Glyph(m))
         == if !m.left && !m.right then Mask(m.up || m.down, false, m.up || m.down, false)
            else if !m.up && !m.down then Mask(false, true, false, true)
            else m
  {
    assert Number(m) < 16;
    assert Glyph(BLANK) == ' ';
  }

  function Min(a: int, b: int): (least: int)
    ensures least <= a && least <= b && (least == a || least == b)
  {
    if a < b then a else b
  }

  function Max(a: int, b: int): (greatest: int)
    ensures a <= greatest && b <= greatest && (greatest == a || greatest == b)
  {
    if a < b then b else a
  }

  /** The strokes a horizontal line from `left` to `right` on row `y` gives a cell. */
  function HorizontalMask(left: int, right: int, y: int, row: int, column: int): Mask {
    if row == y && left <= column <= right then Mask(false, column < right, false, column > left) else BLANK
  }

  function VerticalMask(x: int, top: int, bottom: int, row: int, column: int): Mask {
    if column == x && top <= row <= bottom then Mask(row > top, false, row < bottom, false) else BLANK
  }

  class LineCanvas {
    const rows: nat
    const columns: nat
    const cells: array2<char>
    const masks: array2<Mask>
    /** The cells `put` ever wrote. */
    ghost var overwritten: set<(int, int)>

    ghost predicate Shaped() {
      masks.Length0 == rows && masks.Length1 == columns && cells.Length0 == rows && cells.Length1 == columns
    }

    predicate Inside(row: int, column: int) {
      0 <= row < rows && 0 <= column < columns
    }

    /** A cell with a stroke shows it. */
    ghost predicate Drawn(row: int, column: int)
      requires Shaped() && Inside(row, column)
      reads cells, masks
    {
      masks[row, column] != BLANK ==> cells[row, column] == Glyph(masks[row, column])
    }

    /** A stroke to the right meets a stroke to the left, unless `put` wrote over one of the two. */
    ghost predicate LinkedRight(row: int, column: int)
      requires Shaped() && Inside(row, column) && Inside(row, column + 1)
      reads this, masks
    {
      (row, column) !in overwritten && (row, column + 1) !in overwritten ==>
        (masks[row, column].right <==> masks[row, column + 1].left)
    }

    ghost predicate LinkedDown(row: int, column: int)
      requires Shaped() && Inside(row, column) && Inside(row + 1, column)
      reads this, masks
    {
      (row, column) !in overwritten && (row + 1, column) !in overwritten ==>
        (masks[row, column].down <==> masks[row + 1, column].up)
    }

    /** Lines never end in the air between two neighbouring cells, and every cell shows its strokes. */
    ghost predicate Valid()
      reads this, cells, masks
    {
      && Shaped()
      && (forall r, c :: Inside(r, c) ==> Drawn(r, c))
      && (forall r, c {:trigger LinkedRight(r, c)} :: Inside(r, c) && c + 1 < columns ==> LinkedRight(r, c))
      && (forall r, c {:trigger LinkedDown(r, c)} :: Inside(r, c) && r + 1 < rows ==> LinkedDown(r, c))
    }

    constructor (rows: nat, columns: nat)
      ensures Valid() && overwritten == {} && this.rows == rows && this.columns == columns
      ensures fresh(cells) && fresh(masks)
      ensures forall r, c :: 0 <= r < rows && 0 <= c < columns ==>
                cells[r, c] == ' ' && masks[r, c] == Mask(false, false, false, false)
    {
      this.rows, this.columns := rows, columns;
      cells := new char[rows, columns]((_, _) => ' ');
      masks := new Mask[rows, columns]((_, _) => BLANK);
      overwritten := {};
    }

    /** `connect`: strokes accumulate; nothing happens outside the canvas or without a stroke. */
    method Connect(x: int, y: int, mask: Mask)
      requires Shaped()
      modifies cells, masks
      ensures forall r, c :: 0 <= r < rows && 0 <= c < columns ==>
                masks[r, c] == if r == y && c == x then Or(old(masks[r, c]), mask) else old(masks[r, c])
      ensures forall r, c :: 0 <= r < rows && 0 <= c < columns ==>
                cells[r, c] == if r == y && c == x && mask != BLANK then Glyph(masks[r, c]) else old(cells[r, c])
    {
      if x < 0 || x >= columns || y < 0 || y >= rows || mask == BLANK { return; }
      masks[y, x] := Or(masks[y, x], mask);
      cells[y, x] := Glyph(masks[y, x]);
    }

    /** `horizontal`: strokes join the cells between the two ends, in either direction, and nothing else changes. */
    method Horizontal(from: int, to: int, y: int)
      requires Valid()
      modifies cells, masks
      ensures forall r, c :: 0 <= r < rows && 0 <= c < columns ==>
                && (masks[r, c].right <==> old(masks[r, c].right) || (r == y && (from <= c < to || to <= c < from)))
                && (masks[r, c].left <==> old(masks[r, c].left) || (r == y && (from < c <= to || to < c <= from)))
                && masks[r, c].up == old(masks[r, c].up) && masks[r, c].down == old(masks[r, c].down)
      ensures forall r, c :: 0 <= r < rows && 0 <= c < columns ==>
                cells[r, c] == old(cells[r, c]) || (r == y && (from <= c <= to || to <= c <= from))
      ensures Valid()
    {
      var left, right := Min(from, to), Max(from, to);
      for x := left to right + 1
        invariant forall r, c :: Inside(r, c) ==>
                    masks[r, c] == if c < x then Or(old(masks[r, c]), HorizontalMask(left, right, y, r, c))
                        else old(masks[r, c])
        invariant forall r, c :: Inside(r, c) ==> Drawn(r, c)
        invariant forall r, c ::
            Inside(r, c) && HorizontalMask(left, right, y, r, c) == BLANK
            ==> cells[r, c] == old(cells[r, c])
      {
        Connect(x, y, Mask(false, x < right, false, x > left));
      }
      forall r, c | Inside(r, c) && c + 1 < columns ensures LinkedRight(r, c) {
        assert old(LinkedRight(r, c)) && Inside(r, c + 1);
      }
      forall r, c | Inside(r, c) && r + 1 < rows ensures LinkedDown(r, c) {
        assert old(LinkedDown(r, c)) && Inside(r + 1, c);
      }
    }

    /** `vertical`. */
    method Vertical(x: int, from: int, to: int)
      requires Valid()
      modifies cells, masks
      ensures forall r, c :: 0 <= r < rows && 0 <= c < columns ==>
                && (masks[r, c].down <==> old(masks[r, c].down) || (c == x && (from <= r < to || to <= r < from)))
                && (masks[r, c].up <==> old(masks[r, c].up) || (c == x && (from < r <= to || to < r <= from)))
                && masks[r, c].left == old(masks[r, c].left) && masks[r, c].right == old(masks[r, c].right)
      ensures forall r, c :: 0 <= r < rows && 0 <= c < columns ==>
                cells[r, c] == old(cells[r, c]) || (c == x && (from <= r <= to || to <= r <= from))
      ensures Valid()
    {
      var top, bottom := Min(from, to), Max(from, to);
      for y := top to bottom + 1
        invariant forall r, c :: Inside(r, c) ==>
                    masks[r, c] == if r < y then Or(old(masks[r, c]), VerticalMask(x, top, bottom, r, c))
                        else old(masks[r, c])
        invariant forall r, c :: Inside(r, c) ==> Drawn(r, c)
        invariant forall r, c ::
            Inside(r, c) && VerticalMask(x, top, bottom, r, c) == BLANK
            ==> cells[r, c] == old(cells[r, c])
      {
        Connect(x, y, Mask(y > top, false, y < bottom, false));
      }
      forall r, c | Inside(r, c) && c + 1 < columns ensures LinkedRight(r, c) {
        assert old(LinkedRight(r, c)) && Inside(r, c + 1);
      }
      forall r, c | Inside(r, c) && r + 1 < rows ensures LinkedDown(r, c) {
        assert old(LinkedDown(r, c)) && Inside(r + 1, c);
      }
    }

    /** `put`: the character replaces whatever lines met in the cell. */
    method Put(x: int, y: int, value: char)
      requires Valid()
      modifies this`overwritten, cells, masks
      ensures Valid()
      ensures overwritten == old(overwritten) + {(y, x)}
      ensures forall r, c :: 0 <= r < rows && 0 <= c < columns ==>
                && cells[r, c] == (if r == y && c == x then value else old(cells[r, c]))
                && masks[r, c] == (if r == y && c == x then Mask(false, false, false, false) else old(masks[r, c]))
    {
      overwritten := overwritten + {(y, x)};
      if 0 <= x < columns && 0 <= y < rows {
        cells[y, x] := value;
        masks[y, x] := BLANK;
      }
      forall r, c | Inside(r, c) && c + 1 < columns ensures LinkedRight(r, c) {
        assert old(LinkedRight(r, c)) && Inside(r, c + 1);
      }
      forall r, c | Inside(r, c) && r + 1 < rows ensures LinkedDown(r, c) {
        assert old(LinkedDown(r, c)) && Inside(r + 1, c);
      }
    }

    /** `text`: one `put` per character. */
    method Text(x: int, y: int, value: string)
      requires Valid()
      modifies this`overwritten, cells, masks
      ensures Valid()
      ensures forall r, c :: 0 <= r < rows && 0 <= c < columns ==>
                cells[r, c] == if r == y && x <= c < x + |value| then value[c - x] else old(cells[r, c])
      ensures forall r, c :: (r, c) in overwritten <==> (r, c) in old(overwritten) || (r == y && x <= c < x + |value|)
    {
      for i := 0 to |value|
        invariant Valid()
        invariant forall r, c :: Inside(r, c) ==>
                    cells[r, c] == if r == y && x <= c < x + i then value[c - x] else old(cells[r, c])
        invariant forall r, c :: (r, c) in overwritten <==> (r, c) in old(overwritten) || (r == y && x <= c < x + i)
      {
        Put(x + i, y, value[i]);
      }
    }
  }
}
