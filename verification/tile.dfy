/** A numbered tile: the value-plus-position record of tile.py. Colours and
    drawing are not modelled. */
module Tiles {
  import opened Common

  datatype Pos = Pos(x: int, y: int)

  datatype Tile = Tile(number: int, pos: Pos)

  /** A matrix of optional tiles, indexed [row][column]; `None` is an empty cell. */
  type Row = seq<Option<Tile>>
  type Cells = seq<Row>

  /** The only value `np.random.choice([2])` can produce. */
  const InitialNumber: int := 2

  /** `Tile.__init__`: a fresh tile carries 2 and a copy of the given position. */
  function NewTile(p: Pos): (t: Tile)
    ensures t.number == InitialNumber
    ensures GetPosition(t) == p
  {
    Tile(InitialNumber, p)
  }

  /** `Tile.set_position`: the tile now stands at a copy of `p`; its number is kept. */
  function SetPosition(t: Tile, p: Pos): (r: Tile)
    ensures r.number == t.number
    ensures r.pos == p
  {
    t.(pos := p)
  }

  /** `Tile.get_position`: a copy of where the tile stands, which set back
      leaves the tile as it was. */
  function GetPosition(t: Tile): (p: Pos)
    ensures SetPosition(t, p) == t
  {
    t.pos
  }

  /** `Tile.move`: translate by (dx, dy); the number is untouched. */
  function Move(t: Tile, dx: int, dy: int): (r: Tile)
    ensures r.number == t.number
    ensures GetPosition(r).x - GetPosition(t).x == dx
    ensures GetPosition(r).y - GetPosition(t).y == dy
  {
    t.(pos := Pos(t.pos.x + dx, t.pos.y + dy))
  }

  /** Moves compose by adding their vectors, and a move is undone by its opposite. */
  lemma MoveComposes(t: Tile, dx1: int, dy1: int, dx2: int, dy2: int)
    ensures Move(Move(t, dx1, dy1), dx2, dy2) == Move(t, dx1 + dx2, dy1 + dy2)
    ensures Move(Move(t, dx1, dy1), -dx1, -dy1) == t
  {
  }

  /** Setting a position and reading it back is the identity on positions,
      and the last `SetPosition` wins. */
  lemma SetThenGet(t: Tile, p: Pos, q: Pos)
    ensures GetPosition(SetPosition(t, p)) == p
    ensures SetPosition(SetPosition(t, p), q) == SetPosition(t, q)
    ensures SetPosition(t, GetPosition(t)) == t
  {
  }
}
