/** The monochrome display (`bool display[32][64]`, indexed `[y][x]`) and the
    sprite drawing of instruction Dxyn, as values. */
module Screen {
  import opened Opcode

  const Rows := 32
  const Cols := 64
  /** Every sprite row is one byte, drawn as 8 pixels, most significant bit first. */
  const SpriteWidth := 8

  /** A display: row-major, `d[y][x]`. */
  type Display = seq<seq<bool>>

  ghost predicate IsDisplay(d: Display)
  {
    |d| == Rows && forall y :: 0 <= y < Rows ==> |d[y]| == Cols
  }

  /** The display with every pixel off, as `memset(display, 0, ...)` leaves it. */
  function Blank(): (d: Display)
    ensures IsDisplay(d)
    ensures forall y, x :: 0 <= y < Rows && 0 <= x < Cols ==> !d[y][x]
  {
    seq(Rows, _ => seq(Cols, _ => false))
  }

  /** Whether the nested loops of Dxyn, when they have reached row `i` and
      column `j` of the sprite drawn with its top-left corner at (`x`, `y`),
      have already toggled display cell (`r`, `c`): the cell lies under a set
      bit of the sprite, at a loop position before (`i`, `j`). */
  predicate Covers(sprite: seq<uint8>, x: int, y: int, i: int, j: int, r: int, c: int)
    requires 0 <= i <= |sprite| && 0 <= j <= SpriteWidth
    requires j > 0 ==> i < |sprite|
  {
    var ri, ci := r - y, c - x;
    0 <= ri && 0 <= ci < SpriteWidth && (ri < i || (ri == i && ci < j)) && SpriteBit(sprite[ri], ci)
  }

  /** Whether the whole sprite toggles display cell (`r`, `c`). */
  predicate Painted(sprite: seq<uint8>, x: int, y: int, r: int, c: int)
  {
    Covers(sprite, x, y, |sprite|, 0, r, c)
  }

  /** Every set bit of the sprite lands on the display. The code wraps only
      the start coordinates and indexes `display[y + i][x + j]` for every set
      bit, so this is what it needs to stay inside the array; unset bits are
      never looked at. */
  predicate Fits(sprite: seq<uint8>, x: int, y: int)
  {
    forall i, j :: 0 <= i < |sprite| && 0 <= j < SpriteWidth && SpriteBit(sprite[i], j) ==>
      0 <= y + i < Rows && 0 <= x + j < Cols
  }

  /** The display after XOR-drawing the sprite at (`x`, `y`). */
  function Draw(d: Display, sprite: seq<uint8>, x: int, y: int): (e: Display)
    requires IsDisplay(d)
    ensures IsDisplay(e)
    ensures forall r, c :: 0 <= r < Rows && 0 <= c < Cols && !Painted(sprite, x, y, r, c) ==> e[r][c] == d[r][c]
  {
    seq(Rows, r requires 0 <= r < Rows => seq(Cols, c requires 0 <= c < Cols => d[r][c] != Painted(sprite, x, y, r, c)))
  }

  /** Whether the loops of Dxyn, up to loop position (`i`, `j`), have met a
      set sprite bit over a pixel lit in `d`, the display before the draw. */
  predicate CollidesBefore(d: Display, sprite: seq<uint8>, x: int, y: int, i: int, j: int)
    requires IsDisplay(d)
    requires 0 <= i <= |sprite| && 0 <= j <= SpriteWidth
    requires j > 0 ==> i < |sprite|
  {
    exists r, c :: 0 <= r < Rows && 0 <= c < Cols && Covers(sprite, x, y, i, j, r, c) && d[r][c]
  }

  /** Whether drawing the sprite at (`x`, `y`) turns some lit pixel off. */
  predicate Collides(d: Display, sprite: seq<uint8>, x: int, y: int)
    requires IsDisplay(d)
    ensures |sprite| == 0 ==> !Collides(d, sprite, x, y)
    ensures d == Blank() ==> !Collides(d, sprite, x, y)
  {
    CollidesBefore(d, sprite, x, y, |sprite|, 0)
  }

  /** Drawing toggles exactly the cells under the set bits of the sprite,
      stated in the sprite's own coordinates, and leaves all other cells alone. */
  lemma DrawTogglesSpriteBits(d: Display, sprite: seq<uint8>, x: int, y: int)
    requires IsDisplay(d) && Fits(sprite, x, y)
    ensures forall i, j :: 0 <= i < |sprite| && 0 <= j < SpriteWidth && SpriteBit(sprite[i], j) ==>
      Draw(d, sprite, x, y)[y + i][x + j] == !d[y + i][x + j]
    ensures forall r, c ::
      (0 <= r < Rows && 0 <= c < Cols &&
       !(y <= r < y + |sprite| && x <= c < x + SpriteWidth && SpriteBit(sprite[r - y], c - x))) ==>
        Draw(d, sprite, x, y)[r][c] == d[r][c]
  {
  }

  /** Collision holds exactly when some set bit of the sprite falls on a lit pixel. */
  lemma CollidesIffSetBitOnLitPixel(d: Display, sprite: seq<uint8>, x: int, y: int)
    requires IsDisplay(d) && Fits(sprite, x, y)
    ensures Collides(d, sprite, x, y) <==>
      exists i, j :: 0 <= i < |sprite| && 0 <= j < SpriteWidth && SpriteBit(sprite[i], j) && d[y + i][x + j]
  {
    if Collides(d, sprite, x, y) {
      var r, c :| 0 <= r < Rows && 0 <= c < Cols && Covers(sprite, x, y, |sprite|, 0, r, c) && d[r][c];
      assert SpriteBit(sprite[r - y], c - x) && d[y + (r - y)][x + (c - x)];
    }
    if exists i, j :: 0 <= i < |sprite| && 0 <= j < SpriteWidth && SpriteBit(sprite[i], j) && d[y + i][x + j] {
      var i, j :| 0 <= i < |sprite| && 0 <= j < SpriteWidth && SpriteBit(sprite[i], j) && d[y + i][x + j];
      assert Painted(sprite, x, y, y + i, x + j);
    }
  }

  /** Drawing the same sprite twice at the same place restores the display. */
  lemma DrawTwiceRestores(d: Display, sprite: seq<uint8>, x: int, y: int)
    requires IsDisplay(d)
    ensures Draw(Draw(d, sprite, x, y), sprite, x, y) == d
  {
    var e := Draw(Draw(d, sprite, x, y), sprite, x, y);
    forall r | 0 <= r < Rows
      ensures e[r] == d[r]
    {
    }
  }

  /** The second of two identical draws collides exactly when the first one
      lit some pixel, that is, when some set bit fell on a dark pixel. */
  lemma SecondDrawCollides(d: Display, sprite: seq<uint8>, x: int, y: int)
    requires IsDisplay(d)
    ensures Collides(Draw(d, sprite, x, y), sprite, x, y) <==>
      exists r, c :: 0 <= r < Rows && 0 <= c < Cols && Painted(sprite, x, y, r, c) && !d[r][c]
  {
    var e := Draw(d, sprite, x, y);
    if Collides(e, sprite, x, y) {
      var r, c :| 0 <= r < Rows && 0 <= c < Cols && Covers(sprite, x, y, |sprite|, 0, r, c) && e[r][c];
      assert !d[r][c];
    }
    if exists r, c :: 0 <= r < Rows && 0 <= c < Cols && Painted(sprite, x, y, r, c) && !d[r][c] {
      var r, c :| 0 <= r < Rows && 0 <= c < Cols && Painted(sprite, x, y, r, c) && !d[r][c];
      assert e[r][c];
    }
  }
}
