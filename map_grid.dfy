/**
 * The room map of the console game, as values: rooms and their compass links,
 * the fixed 5 x 5 grid of 7-character cells, the label a room gets on it, the
 * recursive placement of connected rooms, and the style class each cell is
 * rendered with.
 */
module MapGrid {
  import opened Wrappers

  const RoomNameLength := 5
  const GridRows := 5
  const GridCols := 5

  /** The three fixed cell contents: nothing, a north-south path, an east-west path. */
  const Blank := "       "
  const VerticalPath := "   |   "
  const HorizontalPath := "  ---  "

  /** A room record; each neighbour is the id of another room, or absent. */
  datatype Room = Room(
    name: string,
    description: string,
    north: Option<int>,
    south: Option<int>,
    east: Option<int>,
    west: Option<int>)

  /** The room table, keyed by room id. The links may form cycles. */
  type RoomStore = map<int, Room>

  datatype Direction = North | South | East | West

  function Link(room: Room, d: Direction): Option<int> {
    match d
    case North => room.north
    case South => room.south
    case East => room.east
    case West => room.west
  }

  /** The id of the neighbour in direction `d`, when the link is set and names a stored room. */
  function NeighbourId(rooms: RoomStore, room: Room, d: Direction): (r: Option<int>)
    ensures r.Some? ==> r.value in rooms
  {
    match Link(room, d)
    case Some(id) => if id in rooms then Some(id) else None
    case None => None
  }

  predicate HasNeighbour(rooms: RoomStore, room: Room, d: Direction) {
    NeighbourId(rooms, room, d).Some?
  }

  function NeighbourOf(rooms: RoomStore, room: Room, d: Direction): Room
    requires HasNeighbour(rooms, room, d)
  {
    rooms[NeighbourId(rooms, room, d).value]
  }

  // ----- Labels -----

  /** `s.PadRight(width)`: `s` followed by spaces up to `width`; a longer `s` is kept whole. */
  function PadRight(s: string, width: nat): (r: string)
    ensures |r| == if |s| < width then width else |s|
    ensures forall k :: 0 <= k < |r| ==> r[k] == if k < |s| then s[k] else ' '
  {
    if |s| < width then s + seq(width - |s|, _ => ' ') else s
  }

  /**
   * The cell text of a room: its name cut or padded to five characters, in brackets.
   * Position k + 1 holds the k-th character of the name, or a space past its end.
   */
  function Label(name: string): (r: string)
    ensures |r| == RoomNameLength + 2
    ensures r[0] == '[' && r[RoomNameLength + 1] == ']'
    ensures forall k :: 0 <= k < RoomNameLength ==> r[k + 1] == if k < |name| then name[k] else ' '
  {
    var shown := if |name| > RoomNameLength then name[..RoomNameLength] else PadRight(name, RoomNameLength);
    "[" + shown + "]"
  }

  /** A name of at least five characters is labelled with exactly its first five. */
  lemma LabelOfLongName(name: string)
    requires |name| >= RoomNameLength
    ensures Label(name) == "[" + name[..RoomNameLength] + "]"
  {
    var m := "[" + name[..RoomNameLength] + "]";
    assert forall k :: 0 <= k < RoomNameLength + 2 ==> Label(name)[k] == m[k];
  }

  /** Two names get the same label exactly when they agree on the first five positions, counting a missing character as a space. */
  lemma LabelsEqualIff(a: string, b: string)
    ensures Label(a) == Label(b) <==>
      forall k :: 0 <= k < RoomNameLength ==>
        (if k < |a| then a[k] else ' ') == (if k < |b| then b[k] else ' ')
  {
    if forall k :: 0 <= k < RoomNameLength ==> (if k < |a| then a[k] else ' ') == (if k < |b| then b[k] else ' ') {
      assert forall k :: 0 <= k < RoomNameLength + 2 ==> Label(a)[k] == Label(b)[k] by {
        forall k | 0 <= k < RoomNameLength + 2 ensures Label(a)[k] == Label(b)[k] {
          if 0 < k < RoomNameLength + 1 {
            assert Label(a)[(k - 1) + 1] == Label(b)[(k - 1) + 1];
          }
        }
      }
    }
  }

  // ----- The grid -----

  type Grid = seq<seq<string>>

  predicate InGrid(i: int, j: int) {
    0 <= i < GridRows && 0 <= j < GridCols
  }

  predicate Sized<T>(g: seq<seq<T>>) {
    |g| == GridRows && forall i :: 0 <= i < |g| ==> |g[i]| == GridCols
  }

  predicate Even(n: int) {
    n % 2 == 0
  }

  predicate IsLabel(cell: string) {
    |cell| == RoomNameLength + 2 && cell[0] == '[' && cell[RoomNameLength + 1] == ']'
  }

  predicate IsPath(cell: string) {
    cell == VerticalPath || cell == HorizontalPath
  }

  /**
   * What a cell at (i, j) may hold: blank anywhere, a room label where both
   * coordinates are even, a vertical path at odd row and even column, a
   * horizontal path at even row and odd column.
   */
  predicate CellFits(i: int, j: int, cell: string) {
    || cell == Blank
    || (Even(i) && Even(j) && IsLabel(cell))
    || (!Even(i) && Even(j) && cell == VerticalPath)
    || (Even(i) && !Even(j) && cell == HorizontalPath)
  }

  ghost predicate WellFormed(g: Grid) {
    Sized(g) && forall i, j {:trigger CellFits(i, j, g[i][j])} :: InGrid(i, j) ==> CellFits(i, j, g[i][j])
  }

  /** The grid after the clearing loops: every cell blank. */
  function BlankGrid(): (g: Grid)
    ensures Sized(g)
    ensures forall i, j :: InGrid(i, j) ==> g[i][j] == Blank
  {
    seq(GridRows, _ => seq(GridCols, _ => Blank))
  }

  /** The cells still blank; placement shrinks this set, which bounds the recursion. */
  ghost function Blanks(g: Grid): set<(int, int)>
    requires Sized(g)
  {
    set i, j | 0 <= i < GridRows && 0 <= j < GridCols && g[i][j] == Blank :: (i, j)
  }

  /** The grid with cell (i, j) replaced. */
  function Put(g: Grid, i: int, j: int, cell: string): (r: Grid)
    requires Sized(g) && InGrid(i, j)
    ensures Sized(r)
    ensures forall a, b {:trigger r[a][b]} :: InGrid(a, b) ==> r[a][b] == if a == i && b == j then cell else g[a][b]
  {
    g[i := g[i][j := cell]]
  }

  /** Writing a non-blank cell never adds a blank, and removes (i, j) from the blanks. */
  lemma BlanksPut(g: Grid, i: int, j: int, cell: string)
    requires Sized(g) && InGrid(i, j) && cell != Blank
    ensures Blanks(Put(g, i, j, cell)) == Blanks(g) - {(i, j)}
    ensures g[i][j] == Blank ==> (i, j) in Blanks(g)
  {
    var r := Put(g, i, j, cell);
    forall p | p in Blanks(r) ensures p in Blanks(g) - {(i, j)} {
      assert r[p.0][p.1] == Blank;
    }
    forall p | p in Blanks(g) - {(i, j)} ensures p in Blanks(r) {
      assert g[p.0][p.1] == Blank;
    }
  }

  /** Two grids that agree cell by cell are equal. */
  lemma SameCells<T>(a: seq<seq<T>>, b: seq<seq<T>>)
    requires Sized(a) && Sized(b)
    requires forall i, j :: InGrid(i, j) ==> a[i][j] == b[i][j]
    ensures a == b
  {
    forall i | 0 <= i < GridRows ensures a[i] == b[i] {
      assert forall j :: 0 <= j < GridCols ==> a[i][j] == b[i][j];
    }
  }

  /**
   * The source's guard for drawing a neighbour in direction `d` from (row, col).
   * From a cell of the grid it holds exactly when the neighbour's cell, two steps
   * away, is in the grid as well.
   */
  predicate Fits(d: Direction, row: int, col: int)
    ensures InGrid(row, col) ==>
      (Fits(d, row, col) <==> InGrid(row + 2 * RowStep(d), col + 2 * ColStep(d)))
  {
    match d
    case North => row > 1
    case South => row < GridRows - 2
    case East => col < GridCols - 2
    case West => col > 1
  }

  function RowStep(d: Direction): int {
    match d
    case North => -1
    case South => 1
    case East => 0
    case West => 0
  }

  function ColStep(d: Direction): int {
    match d
    case North => 0
    case South => 0
    case East => 1
    case West => -1
  }

  /** The path glyph between a room and its neighbour in direction `d`. */
  function PathGlyph(d: Direction): string {
    if d == North || d == South then VerticalPath else HorizontalPath
  }

  /**
   * PlaceRoom: a room claims the cell (row, col) only if it is blank; from there
   * its neighbours are visited north, south, east and west, in that order. A cell
   * already filled stops the recursion, so a cyclic room graph is laid out in
   * finitely many steps: every call that goes on fills a blank cell.
   */
  function Place(g: Grid, rooms: RoomStore, room: Room, row: int, col: int): (r: Grid)
    requires WellFormed(g) && InGrid(row, col) && Even(row) && Even(col)
    ensures WellFormed(r)
    ensures Blanks(r) <= Blanks(g)
    ensures forall i, j :: InGrid(i, j) && g[i][j] != Blank ==> r[i][j] == g[i][j]
    ensures g[row][col] != Blank ==> r == g
    ensures g[row][col] == Blank ==> r[row][col] == Label(room.name)
    decreases Blanks(g), 0
  {
    if g[row][col] != Blank then g
    else
      var g1 := Put(g, row, col, Label(room.name));
      BlanksPut(g, row, col, Label(room.name));
      var g2 := Visit(g1, rooms, room, North, row, col);
      var g3 := Visit(g2, rooms, room, South, row, col);
      var g4 := Visit(g3, rooms, room, East, row, col);
      Visit(g4, rooms, room, West, row, col)
  }

  /**
   * One `if` of PlaceRoom: when `room` has a neighbour in direction `d` and the guard
   * lets it fit, the path cell next to (row, col) gets the glyph and the neighbour
   * is placed two cells away; otherwise nothing changes.
   */
  function Visit(g: Grid, rooms: RoomStore, room: Room, d: Direction, row: int, col: int): (r: Grid)
    requires WellFormed(g) && InGrid(row, col) && Even(row) && Even(col)
    ensures WellFormed(r)
    ensures Blanks(r) <= Blanks(g)
    ensures forall i, j :: InGrid(i, j) && g[i][j] != Blank ==> r[i][j] == g[i][j]
    decreases Blanks(g), 1
  {
    if HasNeighbour(rooms, room, d) && Fits(d, row, col) then
      PathStep(g, d, row, col);
      Place(Put(g, row + RowStep(d), col + ColStep(d), PathGlyph(d)), rooms,
            NeighbourOf(rooms, room, d), row + 2 * RowStep(d), col + 2 * ColStep(d))
    else g
  }

  /**
   * DisplayMap's grid: cleared, then, when there is a current room, laid out from
   * the centre cell (2, 2). Room labels sit only where both coordinates are even,
   * paths only where exactly one is odd.
   */
  function Layout(rooms: RoomStore, current: Option<Room>): (r: Grid)
    ensures WellFormed(r)
    ensures current.None? ==> r == BlankGrid()
    ensures current.Some? ==> r[GridRows / 2][GridCols / 2] == Label(current.value.name)
    ensures forall i, j :: InGrid(i, j) && IsLabel(r[i][j]) ==> Even(i) && Even(j)
    ensures forall i, j :: InGrid(i, j) && IsPath(r[i][j]) ==> Even(i) != Even(j)
  {
    match current
    case None => BlankGrid()
    case Some(room) =>
      var r := Place(BlankGrid(), rooms, room, GridRows / 2, GridCols / 2);
      Positions(r);
      r
  }

  /** A room without links is drawn alone: its label in the centre and every other cell blank. */
  lemma LayoutLoneRoom(rooms: RoomStore, room: Room)
    requires forall d :: !HasNeighbour(rooms, room, d)
    ensures Layout(rooms, Some(room)) == Put(BlankGrid(), GridRows / 2, GridCols / 2, Label(room.name))
  {
    var c := GridRows / 2;
    var g1 := Put(BlankGrid(), c, c, Label(room.name));
    assert WellFormed(g1) by {
      PutWellFormed(BlankGrid(), c, c, Label(room.name));
    }
    VisitStays(g1, rooms, room, North, c, c);
    VisitStays(g1, rooms, room, South, c, c);
    VisitStays(g1, rooms, room, East, c, c);
    VisitStays(g1, rooms, room, West, c, c);
  }

  /** A non-blank cell of a well-formed grid at an even position holds a label, at a path position the path glyph. */
  lemma FilledCell(g: Grid, i: int, j: int)
    requires WellFormed(g) && InGrid(i, j) && g[i][j] != Blank
    ensures Even(i) && Even(j) ==> IsLabel(g[i][j])
    ensures !Even(i) && Even(j) ==> g[i][j] == VerticalPath
    ensures Even(i) && !Even(j) ==> g[i][j] == HorizontalPath
  {
    assert CellFits(i, j, g[i][j]);
  }

  /** In a well-formed grid labels sit only where both coordinates are even, paths only where exactly one is. */
  lemma Positions(g: Grid)
    requires WellFormed(g)
    ensures forall i, j :: InGrid(i, j) && IsLabel(g[i][j]) ==> Even(i) && Even(j)
    ensures forall i, j :: InGrid(i, j) && IsPath(g[i][j]) ==> Even(i) != Even(j)
  {
    forall i, j | InGrid(i, j) ensures CellFits(i, j, g[i][j]) {
    }
  }

  /** The guard keeps the path cell and the target cell on the grid, the target at even coordinates. */
  lemma StepInGrid(d: Direction, row: int, col: int)
    requires InGrid(row, col) && Even(row) && Even(col) && Fits(d, row, col)
    ensures InGrid(row + RowStep(d), col + ColStep(d)) && InGrid(row + 2 * RowStep(d), col + 2 * ColStep(d))
    ensures Even(row + 2 * RowStep(d)) && Even(col + 2 * ColStep(d))
    ensures CellFits(row + RowStep(d), col + ColStep(d), PathGlyph(d)) && PathGlyph(d) != Blank
  {
  }

  /** Drawing the path glyph keeps the grid well formed, adds no blank and overwrites no other glyph. */
  lemma PathStep(g: Grid, d: Direction, row: int, col: int)
    requires WellFormed(g) && InGrid(row, col) && Even(row) && Even(col) && Fits(d, row, col)
    ensures InGrid(row + RowStep(d), col + ColStep(d)) && InGrid(row + 2 * RowStep(d), col + 2 * ColStep(d))
    ensures Even(row + 2 * RowStep(d)) && Even(col + 2 * ColStep(d))
    ensures WellFormed(Put(g, row + RowStep(d), col + ColStep(d), PathGlyph(d)))
    ensures Blanks(Put(g, row + RowStep(d), col + ColStep(d), PathGlyph(d))) <= Blanks(g)
    ensures var g' := Put(g, row + RowStep(d), col + ColStep(d), PathGlyph(d));
      forall i, j :: InGrid(i, j) && g[i][j] != Blank ==> g'[i][j] == g[i][j]
  {
    StepInGrid(d, row, col);
    BlanksPut(g, row + RowStep(d), col + ColStep(d), PathGlyph(d));
    assert CellFits(row + RowStep(d), col + ColStep(d), g[row + RowStep(d)][col + ColStep(d)]);
  }

  /** A visit whose guard holds draws the path cell and places the neighbour. */
  lemma VisitGoes(g: Grid, rooms: RoomStore, room: Room, d: Direction, row: int, col: int)
    requires WellFormed(g) && InGrid(row, col) && Even(row) && Even(col)
    requires HasNeighbour(rooms, room, d) && Fits(d, row, col)
    ensures InGrid(row + RowStep(d), col + ColStep(d)) && InGrid(row + 2 * RowStep(d), col + 2 * ColStep(d))
    ensures Even(row + 2 * RowStep(d)) && Even(col + 2 * ColStep(d))
    ensures WellFormed(Put(g, row + RowStep(d), col + ColStep(d), PathGlyph(d)))
    ensures Visit(g, rooms, room, d, row, col) ==
      Place(Put(g, row + RowStep(d), col + ColStep(d), PathGlyph(d)), rooms,
            NeighbourOf(rooms, room, d), row + 2 * RowStep(d), col + 2 * ColStep(d))
  {
    PathStep(g, d, row, col);
  }

  /**
   * A visit towards a cell that is already filled only draws the path glyph:
   * the room there is not placed again, which is what ends the walk on a cycle.
   */
  lemma VisitBlocked(g: Grid, rooms: RoomStore, room: Room, d: Direction, row: int, col: int)
    requires WellFormed(g) && InGrid(row, col) && Even(row) && Even(col)
    requires HasNeighbour(rooms, room, d) && Fits(d, row, col)
    requires InGrid(row + 2 * RowStep(d), col + 2 * ColStep(d))
    requires g[row + 2 * RowStep(d)][col + 2 * ColStep(d)] != Blank
    ensures InGrid(row + RowStep(d), col + ColStep(d))
    ensures Visit(g, rooms, room, d, row, col) == Put(g, row + RowStep(d), col + ColStep(d), PathGlyph(d))
  {
    VisitGoes(g, rooms, room, d, row, col);
  }

  /** A room whose only way out is north is placed by its north visit alone. */
  lemma PlaceNorthOnly(g: Grid, rooms: RoomStore, room: Room, row: int, col: int)
    requires WellFormed(g) && InGrid(row, col) && Even(row) && Even(col) && g[row][col] == Blank
    requires !HasNeighbour(rooms, room, South) && !HasNeighbour(rooms, room, East) && !HasNeighbour(rooms, room, West)
    ensures WellFormed(Put(g, row, col, Label(room.name)))
    ensures Place(g, rooms, room, row, col) == Visit(Put(g, row, col, Label(room.name)), rooms, room, North, row, col)
  {
    var g1 := Put(g, row, col, Label(room.name));
    var g2 := Visit(g1, rooms, room, North, row, col);
    VisitStays(g2, rooms, room, South, row, col);
    VisitStays(g2, rooms, room, East, row, col);
    VisitStays(g2, rooms, room, West, row, col);
  }

  /** A room whose only way out is south is placed by its south visit alone. */
  lemma PlaceSouthOnly(g: Grid, rooms: RoomStore, room: Room, row: int, col: int)
    requires WellFormed(g) && InGrid(row, col) && Even(row) && Even(col) && g[row][col] == Blank
    requires !HasNeighbour(rooms, room, North) && !HasNeighbour(rooms, room, East) && !HasNeighbour(rooms, room, West)
    ensures WellFormed(Put(g, row, col, Label(room.name)))
    ensures Place(g, rooms, room, row, col) == Visit(Put(g, row, col, Label(room.name)), rooms, room, South, row, col)
  {
    var g1 := Put(g, row, col, Label(room.name));
    VisitStays(g1, rooms, room, North, row, col);
    var g3 := Visit(g1, rooms, room, South, row, col);
    VisitStays(g3, rooms, room, East, row, col);
    VisitStays(g3, rooms, room, West, row, col);
  }

  /**
   * A room whose only way out is south, where that neighbour and the path to it
   * are already drawn, is placed by writing its own label alone.
   */
  lemma PlaceSouthBlocked(g: Grid, rooms: RoomStore, room: Room, row: int, col: int)
    requires WellFormed(g) && InGrid(row, col) && Even(row) && Even(col) && g[row][col] == Blank
    requires !HasNeighbour(rooms, room, North) && !HasNeighbour(rooms, room, East) && !HasNeighbour(rooms, room, West)
    requires HasNeighbour(rooms, room, South) && Fits(South, row, col)
    requires g[row + 1][col] == VerticalPath && g[row + 2][col] != Blank
    ensures Place(g, rooms, room, row, col) == Put(g, row, col, Label(room.name))
  {
    PlaceSouthOnly(g, rooms, room, row, col);
    var g1 := Put(g, row, col, Label(room.name));
    assert RowStep(South) == 1 && ColStep(South) == 0 && PathGlyph(South) == VerticalPath;
    VisitBlocked(g1, rooms, room, South, row, col);
    SameCells(Put(g1, row + 1, col, VerticalPath), g1);
  }

  /** Writing a cell that fits its position keeps the grid well formed. */
  lemma PutWellFormed(g: Grid, i: int, j: int, cell: string)
    requires WellFormed(g) && InGrid(i, j) && CellFits(i, j, cell)
    ensures WellFormed(Put(g, i, j, cell))
  {
    var r := Put(g, i, j, cell);
    forall a, b | InGrid(a, b) ensures CellFits(a, b, r[a][b]) {
      assert CellFits(a, b, g[a][b]);
    }
  }

  /** A visit whose guard fails changes nothing. */
  lemma VisitStays(g: Grid, rooms: RoomStore, room: Room, d: Direction, row: int, col: int)
    requires WellFormed(g) && InGrid(row, col) && Even(row) && Even(col)
    requires !(HasNeighbour(rooms, room, d) && Fits(d, row, col))
    ensures Visit(g, rooms, room, d, row, col) == g
  {
  }

  /** Placing a room fills its own cell with a room label, whether it was blank or not. */
  lemma PlaceFillsCell(g: Grid, rooms: RoomStore, room: Room, row: int, col: int)
    requires WellFormed(g) && InGrid(row, col) && Even(row) && Even(col)
    ensures IsLabel(Place(g, rooms, room, row, col)[row][col])
  {
    var r := Place(g, rooms, room, row, col);
    assert r[row][col] != Blank;
    FilledCell(r, row, col);
  }

  /** A visit that goes ahead leaves the path glyph beside (row, col) and a label two cells away. */
  lemma {:induction false} VisitDraws(g: Grid, rooms: RoomStore, room: Room, d: Direction, row: int, col: int)
    requires WellFormed(g) && InGrid(row, col) && Even(row) && Even(col)
    requires HasNeighbour(rooms, room, d) && Fits(d, row, col)
    ensures InGrid(row + RowStep(d), col + ColStep(d)) && InGrid(row + 2 * RowStep(d), col + 2 * ColStep(d))
    ensures var r := Visit(g, rooms, room, d, row, col);
      && r[row + RowStep(d)][col + ColStep(d)] == PathGlyph(d)
      && IsLabel(r[row + 2 * RowStep(d)][col + 2 * ColStep(d)])
  {
    var pi, pj := row + RowStep(d), col + ColStep(d);
    var ti, tj := row + 2 * RowStep(d), col + 2 * ColStep(d);
    VisitGoes(g, rooms, room, d, row, col);
    var g' := Put(g, pi, pj, PathGlyph(d));
    assert g'[pi][pj] == PathGlyph(d);
    PlaceFillsCell(g', rooms, NeighbourOf(rooms, room, d), ti, tj);
  }

  /**
   * Once a room is placed at a blank (row, col), each neighbour that exists and
   * passes its guard is joined by the right path glyph and ends in a room label.
   * The label may be another room's, when that one reached the cell first.
   */
  lemma {:induction false} PlaceDrawsNeighbour(g: Grid, rooms: RoomStore, room: Room, d: Direction, row: int, col: int)
    requires WellFormed(g) && InGrid(row, col) && Even(row) && Even(col) && g[row][col] == Blank
    requires HasNeighbour(rooms, room, d) && Fits(d, row, col)
    ensures InGrid(row + RowStep(d), col + ColStep(d)) && InGrid(row + 2 * RowStep(d), col + 2 * ColStep(d))
    ensures var r := Place(g, rooms, room, row, col);
      && r[row + RowStep(d)][col + ColStep(d)] == PathGlyph(d)
      && IsLabel(r[row + 2 * RowStep(d)][col + 2 * ColStep(d)])
  {
    var pi, pj := row + RowStep(d), col + ColStep(d);
    var ti, tj := row + 2 * RowStep(d), col + 2 * ColStep(d);
    var g1 := Put(g, row, col, Label(room.name));
    var g2 := Visit(g1, rooms, room, North, row, col);
    var g3 := Visit(g2, rooms, room, South, row, col);
    var g4 := Visit(g3, rooms, room, East, row, col);
    var r := Visit(g4, rooms, room, West, row, col);
    assert r == Place(g, rooms, room, row, col);
    // the visit in direction d draws both cells; the visits after it keep every filled cell
    match d
    case North =>
      VisitDraws(g1, rooms, room, d, row, col);
    case South =>
      VisitDraws(g2, rooms, room, d, row, col);
    case East =>
      VisitDraws(g3, rooms, room, d, row, col);
    case West =>
      VisitDraws(g4, rooms, room, d, row, col);
  }

  /** The current room's north neighbour is always drawn exactly: it is the first one placed. */
  lemma LayoutNorthOfCentre(rooms: RoomStore, room: Room)
    requires HasNeighbour(rooms, room, North)
    ensures var r := Layout(rooms, Some(room));
      r[1][2] == VerticalPath && r[0][2] == Label(NeighbourOf(rooms, room, North).name)
  {
    var g1 := Put(BlankGrid(), 2, 2, Label(room.name));
    var g' := Put(g1, 1, 2, VerticalPath);
    var g2 := Place(g', rooms, NeighbourOf(rooms, room, North), 0, 2);
    assert g2 == Visit(g1, rooms, room, North, 2, 2);
    assert g'[0][2] == Blank;
  }

  /** Two rooms that name each other as north and south neighbours. */
  function PairRooms(): RoomStore {
    map[1 := Room("Entrance", "", Some(2), None, None, None),
        2 := Room("Hall", "", None, Some(1), None, None)]
  }

  /** The hall, placed north of the entrance: north does not fit, and its way back south meets the filled centre. */
  lemma PairHallPlaced(g2: Grid, h1: Grid)
    requires g2 == Put(Put(BlankGrid(), 2, 2, Label("Entrance")), 1, 2, VerticalPath)
    requires h1 == Put(g2, 0, 2, Label("Hall"))
    ensures WellFormed(g2) && WellFormed(h1)
    ensures Place(g2, PairRooms(), PairRooms()[2], 0, 2) == h1
  {
    PairCells(g2);
    var rooms, hall := PairRooms(), PairRooms()[2];
    assert hall.name == "Hall";
    assert !HasNeighbour(rooms, hall, North) && !HasNeighbour(rooms, hall, East) && !HasNeighbour(rooms, hall, West);
    assert HasNeighbour(rooms, hall, South);
    PlaceSouthBlocked(g2, rooms, hall, 0, 2);
  }

  /** The grid after the entrance and the path north of it. */
  lemma PairCells(g2: Grid)
    requires g2 == Put(Put(BlankGrid(), 2, 2, Label("Entrance")), 1, 2, VerticalPath)
    ensures WellFormed(g2) && g2[0][2] == Blank && g2[1][2] == VerticalPath && g2[2][2] != Blank
  {
    var g1 := Put(BlankGrid(), 2, 2, Label("Entrance"));
    assert WellFormed(BlankGrid()) by {
      forall i, j | InGrid(i, j) ensures CellFits(i, j, BlankGrid()[i][j]) {
      }
    }
    PutWellFormed(BlankGrid(), 2, 2, Label("Entrance"));
    PutWellFormed(g1, 1, 2, VerticalPath);
  }

  /** The entrance, placed at the centre: only its north link leads anywhere. */
  lemma PairEntrancePlaced(g1: Grid, h1: Grid)
    requires g1 == Put(BlankGrid(), 2, 2, Label("Entrance"))
    requires h1 == Put(Put(g1, 1, 2, VerticalPath), 0, 2, Label("Hall"))
    ensures Place(BlankGrid(), PairRooms(), PairRooms()[1], 2, 2) == h1
  {
    var rooms, entrance := PairRooms(), PairRooms()[1];
    var g2 := Put(g1, 1, 2, VerticalPath);
    PairHallPlaced(g2, h1);
    assert entrance.name == "Entrance" && RowStep(North) == -1 && ColStep(North) == 0 && PathGlyph(North) == VerticalPath;
    assert NeighbourOf(rooms, entrance, North) == PairRooms()[2];
    assert !HasNeighbour(rooms, entrance, South) && !HasNeighbour(rooms, entrance, East) && !HasNeighbour(rooms, entrance, West);
    assert WellFormed(BlankGrid()) && BlankGrid()[2][2] == Blank by {
      forall i, j | InGrid(i, j) ensures CellFits(i, j, BlankGrid()[i][j]) {
      }
    }
    PlaceNorthOnly(BlankGrid(), rooms, entrance, 2, 2);
    VisitGoes(g1, rooms, entrance, North, 2, 2);
  }

  /**
   * A cyclic room graph: from the entrance the hall is drawn to the north, the
   * walk back south stops at the filled centre, and the layout ends.
   */
  lemma CyclicPairLayout()
    ensures Layout(PairRooms(), Some(PairRooms()[1])) ==
        [[Blank, Blank, "[Hall ]", Blank, Blank],
         [Blank, Blank, VerticalPath, Blank, Blank],
         [Blank, Blank, "[Entra]", Blank, Blank],
         [Blank, Blank, Blank, Blank, Blank],
         [Blank, Blank, Blank, Blank, Blank]]
  {
    var g1 := Put(BlankGrid(), 2, 2, Label("Entrance"));
    var h1 := Put(Put(g1, 1, 2, VerticalPath), 0, 2, Label("Hall"));
    PairEntrancePlaced(g1, h1);
    PairGrid(h1);
  }

  lemma PairGrid(h1: Grid)
    requires h1 == Put(Put(Put(BlankGrid(), 2, 2, Label("Entrance")), 1, 2, VerticalPath), 0, 2, Label("Hall"))
    ensures h1 ==
        [[Blank, Blank, "[Hall ]", Blank, Blank],
         [Blank, Blank, VerticalPath, Blank, Blank],
         [Blank, Blank, "[Entra]", Blank, Blank],
         [Blank, Blank, Blank, Blank, Blank],
         [Blank, Blank, Blank, Blank, Blank]]
  {
    LabelOfLongName("Entrance");
    assert "Entrance"[..RoomNameLength] == "Entra";
    assert Label("Entrance") == "[Entra]";
    assert Label("Hall") == "[Hall ]";
    var expected :=
        [[Blank, Blank, "[Hall ]", Blank, Blank],
         [Blank, Blank, VerticalPath, Blank, Blank],
         [Blank, Blank, "[Entra]", Blank, Blank],
         [Blank, Blank, Blank, Blank, Blank],
         [Blank, Blank, Blank, Blank, Blank]];
    SameCells(h1, expected);
  }

  // ----- Rendering -----

  /** The style class a cell is rendered with: the current room, another room, or no room. */
  datatype Style = Highlight | Plain | Dim

  /** The rendered map, or the fault the renderer raises. */
  datatype View = Drawn(styles: seq<seq<Style>>) | Faulted

  /**
   * The renderer's test for a room cell: the text contains both brackets. Every
   * room label passes it; the blank cell and the path glyphs do not.
   */
  predicate Bracketed(cell: string)
    ensures IsLabel(cell) ==> Bracketed(cell)
    ensures cell == Blank || IsPath(cell) ==> !Bracketed(cell)
  {
    '[' in cell && ']' in cell
  }

  /**
   * The text a room cell is compared with to pick the highlight: the current room's
   * first five characters in brackets. None where computing it fails: there is no
   * current room, or its name is shorter than five characters.
   */
  function Mark(currentName: Option<string>): (m: Option<string>)
    ensures m.Some? <==> currentName.Some? && |currentName.value| >= RoomNameLength
    ensures m.Some? ==> m.value == Label(currentName.value)
  {
    match currentName
    case Some(name) =>
      if |name| >= RoomNameLength then
        LabelOfLongName(name);
        Some("[" + name[..RoomNameLength] + "]")
      else None
    case None => None
  }

  /** A blank or path cell is dim; a room label is highlighted exactly when it equals the mark. */
  function CellStyle(cell: string, mark: string): (s: Style)
    ensures cell == Blank || IsPath(cell) ==> s == Dim
    ensures IsLabel(cell) ==> s != Dim && (s == Highlight <==> cell == mark)
  {
    if !Bracketed(cell) then Dim else if cell == mark then Highlight else Plain
  }

  predicate AnyBracketed(g: Grid)
    requires Sized(g)
  {
    exists i, j | 0 <= i < GridRows && 0 <= j < GridCols :: Bracketed(g[i][j])
  }

  /**
   * The styles of the grid read row by row. The mark is computed at each room cell,
   * so the render faults exactly when a room cell exists and the mark cannot be formed.
   */
  function Render(g: Grid, currentName: Option<string>): (v: View)
    requires Sized(g)
    ensures v.Faulted? <==> AnyBracketed(g) && Mark(currentName).None?
    ensures v.Drawn? ==> Sized(v.styles)
    ensures v.Drawn? ==> forall i, j :: InGrid(i, j) ==> (v.styles[i][j] == Dim <==> !Bracketed(g[i][j]))
  {
    if AnyBracketed(g) && Mark(currentName).None? then Faulted
    else
      var mark := Mark(currentName).GetOr("");
      Drawn(seq(GridRows, i requires 0 <= i < GridRows =>
              seq(GridCols, j requires 0 <= j < GridCols => CellStyle(g[i][j], mark))))
  }

  function NameOf(current: Option<Room>): Option<string> {
    match current
    case Some(room) => Some(room.name)
    case None => None
  }

  /** In a well-formed grid exactly the label cells pass the bracket test. */
  lemma BracketedIffLabel(g: Grid, i: int, j: int)
    requires WellFormed(g) && InGrid(i, j)
    ensures Bracketed(g[i][j]) <==> IsLabel(g[i][j])
  {
    var c := g[i][j];
    assert CellFits(i, j, c);
    if IsLabel(c) {
      assert c[0] == '[' && c[RoomNameLength + 1] == ']';
    } else {
      assert c == Blank || c == VerticalPath || c == HorizontalPath;
      assert '[' !in c;
    }
  }

  /**
   * DisplayMap's output: it faults exactly when there is a current room whose name
   * is shorter than five characters; otherwise path and blank cells are dim, and a
   * room cell is highlighted exactly when its label is the current room's label.
   */
  lemma {:induction false} RenderLayout(rooms: RoomStore, current: Option<Room>)
    ensures var v := Render(Layout(rooms, current), NameOf(current));
      v.Faulted? <==> current.Some? && |current.value.name| < RoomNameLength
    ensures var g := Layout(rooms, current);
            var v := Render(g, NameOf(current));
      v.Drawn? ==> forall i, j :: InGrid(i, j) && !IsLabel(g[i][j]) ==> v.styles[i][j] == Dim
    ensures var g := Layout(rooms, current);
            var v := Render(g, NameOf(current));
      v.Drawn? && current.Some? ==>
        forall i, j :: InGrid(i, j) && IsLabel(g[i][j]) ==>
          v.styles[i][j] == (if g[i][j] == Label(current.value.name) then Highlight else Plain)
    ensures var v := Render(Layout(rooms, current), NameOf(current));
      v.Drawn? && current.Some? ==> v.styles[GridRows / 2][GridCols / 2] == Highlight
  {
    var g := Layout(rooms, current);
    forall i, j | InGrid(i, j) ensures Bracketed(g[i][j]) <==> IsLabel(g[i][j]) {
      BracketedIffLabel(g, i, j);
    }
    if current.Some? {
      assert Bracketed(g[GridRows / 2][GridCols / 2]);
    } else {
      forall i, j | InGrid(i, j) ensures !Bracketed(g[i][j]) {
        assert g[i][j] == Blank;
      }
    }
  }
}
