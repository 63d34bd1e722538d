/**
 * MapManager: the room the player stands in, the map grid it draws, and moving
 * between rooms by compass direction.
 */
module MapManagement {
  import opened Wrappers
  import opened Text
  import opened MapGrid

  /** The direction a one-letter token names, matched case-insensitively. */
  function ParseDirection(token: string): (d: Option<Direction>)
    ensures d.Some? <==> |token| == 1 && LowerChar(token[0]) in "nsew"
    ensures d.Some? ==> LowerChar(token[0]) == DirectionKey(d.value)
  {
    var t := Lower(token);
    assert |token| == 1 ==> t == [LowerChar(token[0])];
    if t == "n" then Some(North)
    else if t == "s" then Some(South)
    else if t == "e" then Some(East)
    else if t == "w" then Some(West)
    else None
  }

  function DirectionKey(d: Direction): char {
    match d
    case North => 'n'
    case South => 's'
    case East => 'e'
    case West => 'w'
  }

  /** The direction's name as logged; its initial is the key letter in upper case, so it reads back as `d`. */
  function DirectionName(d: Direction): (r: string)
    ensures |r| > 0 && r[0] as int == DirectionKey(d) as int - 32
    ensures ParseDirection([r[0]]) == Some(d)
  {
    match d
    case North => "North"
    case South => "South"
    case East => "East"
    case West => "West"
  }

  /** A token names direction d exactly when it is d's letter in either case. */
  lemma ParseDirectionIff(token: string, d: Direction)
    ensures ParseDirection(token) == Some(d) <==>
      |token| == 1 && (token[0] == DirectionKey(d) || token[0] as int == DirectionKey(d) as int - 32)
  {
    if |token| == 1 {
      assert Lower(token) == [LowerChar(token[0])];
    } else {
      assert |Lower(token)| != 1;
    }
  }

  /** What moving towards `token` from `room` does: an invalid token, no room there, or the id moved to. */
  datatype Move = InvalidToken | NoRoom(d: Direction) | MoveTo(d: Direction, id: int)

  function PlanMove(rooms: RoomStore, room: Room, token: string): (m: Move)
    ensures m.InvalidToken? <==> ParseDirection(token).None?
    ensures m.NoRoom? ==> ParseDirection(token) == Some(m.d) && !HasNeighbour(rooms, room, m.d)
    ensures m.MoveTo? ==> ParseDirection(token) == Some(m.d) && NeighbourId(rooms, room, m.d) == Some(m.id)
  {
    match ParseDirection(token)
    case None => InvalidToken
    case Some(d) =>
      match NeighbourId(rooms, room, d)
      case Some(id) => MoveTo(d, id)
      case None => NoRoom(d)
  }

  /**
   * The log line of a move. It names the direction except for an invalid token,
   * and ends with a full stop.
   */
  function MoveMessage(m: Move): (r: string)
    ensures m.InvalidToken? <==> r == "Invalid direction."
    ensures !m.InvalidToken? ==>
      |r| > |DirectionName(m.d)| && r[|r| - |DirectionName(m.d)| - 1..|r| - 1] == DirectionName(m.d)
    ensures |r| > 0 && r[|r| - 1] == '.'
  {
    match m
    case InvalidToken => "Invalid direction."
    case NoRoom(d) =>
      var r := "No room to the " + DirectionName(d) + ".";
      assert r[0] == 'N';
      r
    case MoveTo(d, _) =>
      var r := "Moved to the " + DirectionName(d) + ".";
      assert r[0] == 'M';
      r
  }

  /** Where a log line shows the kind of outcome (its first letter) and the direction (the name's initial). */
  lemma MoveMessageShape(m: Move)
    ensures |MoveMessage(m)| > 15
    ensures MoveMessage(m)[0] == (if m.InvalidToken? then 'I' else if m.NoRoom? then 'N' else 'M')
    ensures m.NoRoom? ==> MoveMessage(m)[15] == DirectionName(m.d)[0]
    ensures m.MoveTo? ==> MoveMessage(m)[13] == DirectionName(m.d)[0]
  {
    match m
    case InvalidToken =>
    case NoRoom(d) =>
      var lead, rest := "No room to the ", DirectionName(d) + ".";
      assert MoveMessage(m) == lead + rest;
      assert (lead + rest)[0] == lead[0] && (lead + rest)[15] == rest[0];
    case MoveTo(d, _) =>
      var lead, rest := "Moved to the ", DirectionName(d) + ".";
      assert MoveMessage(m) == lead + rest;
      assert (lead + rest)[0] == lead[0] && (lead + rest)[13] == rest[0];
  }

  /** The log line tells the outcomes apart, all but the id of the room moved to. */
  lemma MoveMessagesDistinct(m1: Move, m2: Move)
    ensures MoveMessage(m1) == MoveMessage(m2) <==>
      m1 == m2 || (m1.MoveTo? && m2.MoveTo? && m1.d == m2.d)
  {
    if MoveMessage(m1) == MoveMessage(m2) {
      MoveMessageShape(m1);
      MoveMessageShape(m2);
      if !m1.InvalidToken? {
        assert DirectionName(m1.d)[0] == DirectionName(m2.d)[0];
      }
    }
  }

  class MapManager {
    /** The 5 x 5 grid of cell texts. */
    const grid: array2<string>
    /** The room table as the game's store holds it. */
    var rooms: RoomStore
    /** The id of the current room, or None when no room is loaded. */
    var current: Option<int>

    ghost predicate GridShape() {
      grid.Length0 == GridRows && grid.Length1 == GridCols
    }

    ghost predicate Valid()
      reads this
    {
      GridShape() && (current.Some? ==> current.value in rooms)
    }

    /** The grid's contents as a value. */
    ghost function Cells(): (g: Grid)
      requires GridShape()
      reads grid
      ensures Sized(g)
      ensures forall i, j :: InGrid(i, j) ==> g[i][j] == grid[i, j]
    {
      seq(GridRows, i requires 0 <= i < GridRows reads grid =>
        seq(GridCols, j requires 0 <= j < GridCols reads grid => grid[i, j]))
    }

    function CurrentRoom(): (r: Option<Room>)
      requires Valid()
      reads this
    {
      match current
      case Some(id) => Some(rooms[id])
      case None => None
    }

    constructor (rooms: RoomStore)
      ensures Valid() && fresh(grid)
      ensures this.rooms == rooms && current == None
    {
      this.rooms := rooms;
      current := None;
      grid := new string[GridRows, GridCols];
    }

    /** Makes the room with `roomId` current, or leaves no current room when there is none. */
    method LoadInitialRoom(roomId: int)
      requires Valid()
      modifies this
      ensures Valid() && rooms == old(rooms)
      ensures current == if roomId in rooms then Some(roomId) else None
    {
      current := if roomId in rooms then Some(roomId) else None;
    }

    /** Same lookup as LoadInitialRoom, used after a move. */
    method UpdateCurrentRoom(roomId: int)
      requires Valid()
      modifies this
      ensures Valid() && rooms == old(rooms)
      ensures current == if roomId in rooms then Some(roomId) else None
    {
      current := if roomId in rooms then Some(roomId) else None;
    }

    /** Adds an unconnected room under the id the store assigns. */
    method AddRoom(roomName: string, roomDescription: string, newId: int) returns (message: string)
      requires Valid() && newId !in rooms
      modifies this
      ensures Valid() && current == old(current)
      ensures rooms == old(rooms)[newId := Room(roomName, roomDescription, None, None, None, None)]
      ensures message == "Added room: " + roomName
    {
      rooms := rooms[newId := Room(roomName, roomDescription, None, None, None, None)];
      message := "Added room: " + roomName;
    }

    /**
     * DisplayMap: clear every cell, lay the map out from the centre when there is a
     * current room, then style the cells row by row.
     */
    method DisplayMap() returns (view: View)
      requires Valid()
      modifies grid
      ensures Cells() == Layout(rooms, CurrentRoom())
      ensures view == Render(Cells(), NameOf(CurrentRoom()))
    {
      for i := 0 to GridRows
        invariant forall a, b :: 0 <= a < i && 0 <= b < GridCols ==> grid[a, b] == Blank
      {
        for j := 0 to GridCols
          invariant forall a, b :: 0 <= a < i && 0 <= b < GridCols ==> grid[a, b] == Blank
          invariant forall b :: 0 <= b < j ==> grid[i, b] == Blank
        {
          grid[i, j] := Blank;
        }
      }
      SameCells(Cells(), BlankGrid());
      if current.Some? {
        PlaceRoom(rooms[current.value], GridRows / 2, GridCols / 2);
      }
      view := RenderMap();
    }

    /**
     * The styling loop of DisplayMap. A cell holding both brackets is a room: it is
     * compared with the current room's first five characters in brackets, which
     * faults when there is no current room or its name is shorter than five.
     */
    method RenderMap() returns (view: View)
      requires Valid()
      ensures view == Render(Cells(), NameOf(CurrentRoom()))
    {
      ghost var name := NameOf(CurrentRoom());
      ghost var mark := Mark(name).GetOr("");
      var styles: seq<seq<Style>> := [];
      for i := 0 to GridRows
        invariant |styles| == i
        invariant forall a :: 0 <= a < i ==> |styles[a]| == GridCols
        invariant forall a, b :: 0 <= a < i && 0 <= b < GridCols ==> styles[a][b] == CellStyle(grid[a, b], mark)
        invariant Mark(name).None? ==> forall a, b :: 0 <= a < i && 0 <= b < GridCols ==> !Bracketed(grid[a, b])
      {
        var line: seq<Style> := [];
        for j := 0 to GridCols
          invariant |line| == j
          invariant forall b :: 0 <= b < j ==> line[b] == CellStyle(grid[i, b], mark)
          invariant Mark(name).None? ==> forall b :: 0 <= b < j ==> !Bracketed(grid[i, b])
        {
          var cell := grid[i, j];
          if '[' in cell && ']' in cell {
            if current.None? || |rooms[current.value].name| < RoomNameLength {
              assert Bracketed(Cells()[i][j]);
              return Faulted;
            }
            var highlight := "[" + rooms[current.value].name[..RoomNameLength] + "]";
            line := line + [if cell == highlight then Highlight else Plain];
          } else {
            line := line + [Dim];
          }
        }
        styles := styles + [line];
      }
      view := Drawn(styles);
      assert AnyBracketed(Cells()) ==> Mark(name).Some?;
      SameCells(styles, Render(Cells(), name).styles);
    }

    /**
     * MoveToNextRoom with the typed direction as `token`: with a current room, a
     * valid letter whose neighbour exists moves there and redraws the map; a valid
     * letter without a neighbour, or any other token, only logs a message.
     */
    method MoveToNextRoom(token: string) returns (log: Option<string>, view: Option<View>)
      requires Valid()
      modifies this, grid
      ensures Valid() && rooms == old(rooms)
      ensures old(current).None? ==>
        current == old(current) && log == None && view == None && Cells() == old(Cells())
      ensures old(current).Some? ==>
        var m := PlanMove(rooms, old(rooms[current.value]), token);
        && log == Some(MoveMessage(m))
        && (m.MoveTo? ==>
              && current == Some(m.id)
              && Cells() == Layout(rooms, CurrentRoom())
              && view == Some(Render(Cells(), NameOf(CurrentRoom()))))
        && (!m.MoveTo? ==> current == old(current) && view == None && Cells() == old(Cells()))
    {
      log, view := None, None;
      if current.Some? {
        var room := rooms[current.value];
        match ParseDirection(token)
        case None =>
          log := Some("Invalid direction.");
        case Some(d) =>
          if HasNeighbour(rooms, room, d) {
            UpdateCurrentRoom(NeighbourId(rooms, room, d).value);
            log := Some("Moved to the " + DirectionName(d) + ".");
            var v := DisplayMap();
            view := Some(v);
          } else {
            log := Some("No room to the " + DirectionName(d) + ".");
          }
      }
    }

    /** `_mapGrid[i, j] = cell`. */
    method SetCell(i: int, j: int, cell: string)
      requires Valid() && InGrid(i, j)
      modifies grid
      ensures Cells() == Put(old(Cells()), i, j, cell)
    {
      grid[i, j] := cell;
      SameCells(Cells(), Put(old(Cells()), i, j, cell));
    }

    /** The grid is well formed and (row, col) is a room position inside it. */
    ghost predicate CanPlace(row: int, col: int)
      reads this, grid
    {
      Valid() && WellFormed(Cells()) && InGrid(row, col) && Even(row) && Even(col)
    }

    /** The recursive placement, writing the grid in place. */
    method PlaceRoom(room: Room, row: int, col: int)
      requires CanPlace(row, col)
      modifies grid
      ensures Cells() == Place(old(Cells()), rooms, room, row, col)
      decreases Blanks(Cells()), 0
    {
      ghost var g := Cells();
      if grid[row, col] != Blank {
        return;
      }
      SetCell(row, col, Label(room.name));
      BlanksPut(g, row, col, Label(room.name));
      VisitNeighbour(room, North, row, col);
      VisitNeighbour(room, South, row, col);
      VisitNeighbour(room, East, row, col);
      VisitNeighbour(room, West, row, col);
    }

    /**
     * Draws the path glyph beside (row, col) in direction `d`; the cell two
     * steps away is then a room position in the grid.
     */
    method DrawPath(d: Direction, row: int, col: int)
      requires CanPlace(row, col) && Fits(d, row, col)
      modifies grid
      ensures CanPlace(row + 2 * RowStep(d), col + 2 * ColStep(d))
      ensures Blanks(Cells()) < Blanks(old(Cells())) || Blanks(Cells()) == Blanks(old(Cells()))
      ensures Cells() == Put(old(Cells()), row + RowStep(d), col + ColStep(d), PathGlyph(d))
    {
      PathStep(Cells(), d, row, col);
      SetCell(row + RowStep(d), col + ColStep(d), PathGlyph(d));
    }

    /**
     * One of PlaceRoom's four `if`s: draw the path glyph towards the neighbour in
     * direction `d` and place it two cells away, when it exists and fits.
     */
    method VisitNeighbour(room: Room, d: Direction, row: int, col: int)
      requires CanPlace(row, col)
      modifies grid
      ensures Cells() == Visit(old(Cells()), rooms, room, d, row, col)
      decreases Blanks(Cells()), 2
    {
      if HasNeighbour(rooms, room, d) && Fits(d, row, col) {
        VisitGoes(Cells(), rooms, room, d, row, col);
        GoNeighbour(room, d, row, col);
      } else {
        VisitStays(Cells(), rooms, room, d, row, col);
      }
    }

    /** The body of that `if`, when its guard holds. */
    method GoNeighbour(room: Room, d: Direction, row: int, col: int)
      requires CanPlace(row, col)
      requires HasNeighbour(rooms, room, d) && Fits(d, row, col)
      modifies grid
      ensures Cells() == Place(Put(old(Cells()), row + RowStep(d), col + ColStep(d), PathGlyph(d)), rooms,
                               NeighbourOf(rooms, room, d), row + 2 * RowStep(d), col + 2 * ColStep(d))
      decreases Blanks(Cells()), 1
    {
      DrawPath(d, row, col);
      PlaceRoom(NeighbourOf(rooms, room, d), row + 2 * RowStep(d), col + 2 * ColStep(d));
    }
  }
}
