// Values shared by the mosaic packer: cell colours, the fixed tile catalog,
// placed pieces, and the LDraw unit (LDU) <-> grid coordinate transform.

module Options {
  /** A grid cell: None is an empty cell, Some(c) a cell of LDraw colour c. */
  datatype Option<T> = None | Some(value: T)
}

module Catalog {

  /** Side length of the square mosaic grid. */
  const N: int := 32

  /** One catalog entry: width (along x), height (along z) and LDraw part number. */
  datatype Tile = Tile(w: int, h: int, part: string)

  /** The catalog, in the order the packer tries it: largest area first. */
  const Tiles: seq<Tile> := [
    Tile(2, 2, "3068b"),
    Tile(2, 1, "3069b"),
    Tile(1, 2, "3069b"),
    Tile(1, 1, "3070b")
  ]

  /** The two rotation matrices the writer emits, as opaque tags:
      Identity is "1 0 0 0 1 0 0 0 1", Quarter is "0 0 1 0 1 0 -1 0 0". */
  datatype Rotation = Identity | Quarter

  /** A placed piece, as the packer records it: colour, LDU centre (cx, cz),
      rotation, part number and the catalog width and height. */
  datatype Piece = Piece(color: int, cx: int, cz: int, rot: Rotation, part: string, w: int, h: int)

  /** LDU coordinate of the centre of a span of `size` cells starting at `cell`
      (20 LDU per cell). */
  function Centre(cell: int, size: int): (c: int)
    ensures 2 * c == 20 * cell + 20 * (cell + size)
  {
    cell * 20 + size * 10
  }

  /** Grid index of an LDU coordinate: Python's `(v - 10) // 20`, which floors;
      for the positive divisor 20 it agrees with Dafny's Euclidean division. */
  function GridCoord(ldu: int): (g: int)
    ensures 20 * g <= ldu - 10 < 20 * g + 20
  {
    (ldu - 10) / 20
  }

  /** Grid origin of a piece, recovered from its centre. */
  function OriginX(p: Piece): int { (p.cx - 10 * p.w) / 20 }
  function OriginZ(p: Piece): int { (p.cz - 10 * p.h) / 20 }

  /** The rotation the packer attaches to a shape. */
  function RotationFor(w: int, h: int): Rotation {
    if w == 1 && h == 2 then Quarter else Identity
  }

  /** The record the packer appends for tile `t` committed at origin (x, y). */
  function MakePiece(color: int, x: int, y: int, t: Tile): (p: Piece)
    ensures p.color == color && p.part == t.part && p.w == t.w && p.h == t.h
    ensures OriginX(p) == x && OriginZ(p) == y
    ensures p.cx == Centre(x, t.w) && p.cz == Centre(y, t.h)
    ensures p.rot == Quarter <==> t.w == 1 && t.h == 2
  {
    var p := Piece(color, Centre(x, t.w), Centre(y, t.h), RotationFor(t.w, t.h), t.part, t.w, t.h);
    assert p.cx - 10 * p.w == 20 * x;
    assert p.cz - 10 * p.h == 20 * y;
    p
  }

  /** Index in Tiles of the pass that places a piece of shape w x h: the
      shapes of Tiles, in its order (PassIndex keeps the two in step). */
  function PassOf(p: Piece): int {
    if p.w == 2 && p.h == 2 then 0
    else if p.w == 2 && p.h == 1 then 1
    else if p.w == 1 && p.h == 2 then 2
    else 3
  }

  /** Every catalog shape is placed by its own pass, and the shapes are
      distinct, so a piece's shape identifies its pass. */
  lemma PassOfTile(ti: int, color: int, x: int, y: int)
    requires 0 <= ti < |Tiles|
    ensures PassOf(MakePiece(color, x, y, Tiles[ti])) == ti
    ensures 1 <= Tiles[ti].w <= 2 && 1 <= Tiles[ti].h <= 2
  {
  }

  /** A catalog piece's pass is the index of its own entry in Tiles. */
  lemma PassIndex(p: Piece)
    requires Tile(p.w, p.h, p.part) in Tiles
    ensures 0 <= PassOf(p) < |Tiles| && Tiles[PassOf(p)] == Tile(p.w, p.h, p.part)
  {
  }

  /** A piece centre parses back to its origin cell, for every catalog size. */
  lemma CentreToCell(cell: int, size: int)
    requires 1 <= size <= 2
    ensures GridCoord(Centre(cell, size)) == cell
  {
  }
}
