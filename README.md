# ConsoleRpg map and player service, modelled in Dafny

ConsoleRpg is a menu-driven console role-playing game. The player walks a graph of
rooms, each of which may link to another room to the north, south, east and west,
and sees the neighbourhood of the current room drawn as a 5 x 5 map of
7-character cells. The player also manages character records (add, update,
search, delete, grant an ability) and attacks a target with the equipped weapon.

This project models the two classes that carry that logic and proves what they
promise.

- **MapManager** keeps a `string[5,5]` grid and the current room.
  - `DisplayMap` blanks every cell. When there is a current room, it places that
    room at the centre (2, 2), then draws the grid, picking a style for each cell.
  - `PlaceRoom` writes a room's label (its name cut or padded to five characters,
    in brackets). It then visits the north, south, east and west neighbours in
    that order. Each neighbour that exists and fits in the grid gets a path glyph
    on the cell between and is placed two cells away.
  - `PlaceRoom` returns at once when its cell is already filled. That guard is
    what ends the walk on a cyclic room graph.
  - `MoveToNextRoom` reads a one-letter direction, in either case, and moves to
    that neighbour or reports why it cannot.
- **PlayerService** works on the store of player records.
  - `Attack` lowers the target's health by the weapon's attack value, with no
    lower bound.
  - `UseAbility` and `EquipItemFromInventory` act only when the player has the
    ability or carries the item.
  - The store operations are add, update, delete, search by name and add an
    ability.

Layout of the project:

- `wrappers.dfy` (module `Wrappers`) holds `Option`.
- `text.dfy` (module `Text`) holds three string functions the source relies on:
  the ASCII part of `ToLower`, ordinal `Contains`, and the decimal form of an `int`.
- `map_grid.dfy` (module `MapGrid`) defines the map as values.
  - Rooms form a `map<int, Room>` whose four links are `Option<int>` ids, so the
    graph may be cyclic.
  - It defines the cell texts, `Label`, and the placement `Place`/`Visit` as
    recursive functions on a `seq<seq<string>>`. Their termination measure is
    the set of blank cells.
  - `Layout` is the grid DisplayMap builds. `Render` is the style each cell gets.
- `map_manager.dfy` (module `MapManagement`) holds class `MapManager`.
  - The class has an `array2<string>` grid, the room table and the current room
    id.
  - Its methods write the array in place. Each one is proved against the
    `MapGrid` functions, e.g. `Cells() == Place(old(Cells()), …)`.
- `players.dfy` (module `Players`) holds the records and the pure rules.
  - The records are `Player`, `Ability`, `Item` and `Equipment`.
  - The rules are the weapon and gate checks and the store operations. The
    store is a `seq<Player>` in store order, keyed by distinct ids.
- `player_service.dfy` (module `PlayerServices`) holds the mutable objects.
  - Class `PlayerService` owns the store and the next id to hand out.
  - Class `Target` has a health field that attacks change.

The proved properties, in brief:

- **Grid invariant.** Before placement every cell is blank. After it, room labels
  sit only where both coordinates are even and path glyphs only where exactly one
  is odd, so a path never overwrites a label.
- **Placement without overwriting.** Placement never changes a filled cell. It
  ends on every room graph, cyclic ones included. A concrete two-room cycle is
  laid out to the exact grid.
- **Labels.** Every label is 7 characters. A name of five or more characters
  shows its first five; a shorter name is padded with spaces.
- **Rendering.** DisplayMap faults exactly when the current room's name is shorter
  than five characters. The fault is the `Substring(0, 5)` exception. Otherwise
  blanks and paths are dim, and a label is highlighted exactly when it equals the
  current room's label.
- **Moves.** `n`, `s`, `e` and `w` are matched in either case. A move goes
  exactly to the linked room; otherwise the right message is logged and nothing
  changes.
- **Attacks.** An attack without a weapon leaves health alone. With a weapon,
  health drops by exactly the attack value and may go negative.
- **Store operations.**
  - Update, delete and add-ability touch only the record with the given id and
    leave the store unchanged when the id is missing.
  - Add appends exactly one record under a fresh id.
  - Search returns exactly the records whose name contains the query, in store
    order. It distributes over concatenation, and the empty query returns every
    record.

Where the design description and the code differ, the model follows the code.

- The description says a room reachable only by a third hop is never drawn.
  - In the code, the recursion has no hop limit; only the grid bounds and the
    filled-cell guard stop it.
  - From the centre, the chain north, east, south reaches (2, 4), so a
    third-hop room can be drawn.
  - `MapGrid.PlaceDrawsNeighbour` holds for a room placed at any depth.
- The description says the current room's cell is "visually distinguished".
  - In the code, every label equal to the current room's label is highlighted.
    That includes other rooms sharing its first five characters.
  - A current name shorter than five characters faults.
  - `MapGrid.RenderLayout` states both.

## Model

| member | source | states |
|---|---|---|
| MapGrid.PadRight | ConsoleRpg/Helpers/MapManager.cs:109 | the padded text is as long as `s` or `width`, whichever is longer, keeps every character of `s` and has spaces after it |
| MapGrid.Label | ConsoleRpg/Helpers/MapManager.cs:107-111 | a label is always 7 characters, `[` first and `]` last; position k+1 is the name's k-th character, or a space past its end |
| MapGrid.LabelOfLongName | ConsoleRpg/Helpers/MapManager.cs:107-108 | a name of at least five characters is labelled exactly `"[" + name[..5] + "]"` |
| MapGrid.LabelsEqualIff | ConsoleRpg/Helpers/MapManager.cs:67 | two names get the same label if and only if they agree on the first five positions, counting a missing character as a space |
| MapGrid.NeighbourId | ConsoleRpg/Helpers/MapManager.cs:113-131 | a neighbour link that is present names a stored room |
| MapGrid.BlankGrid | ConsoleRpg/Helpers/MapManager.cs:43-49 | the cleared grid is 5 x 5 with every cell the 7-space blank |
| MapGrid.BlanksPut | ConsoleRpg/Helpers/MapManager.cs:102-111 | writing a non-blank cell removes exactly that cell from the set of blank cells, which is the measure that ends the recursion |
| MapGrid.Place | ConsoleRpg/Helpers/MapManager.cs:100-136 | the result is well formed (labels at even/even, vertical paths at odd/even, horizontal at even/odd); blank cells only shrink; no filled cell changes; a filled start cell leaves the grid unchanged; a blank one gets the room's label |
| MapGrid.Visit | ConsoleRpg/Helpers/MapManager.cs:113-135 | one neighbour visit keeps the grid well formed, adds no blank cell and changes no filled cell |
| MapGrid.Layout | ConsoleRpg/Helpers/MapManager.cs:42-57 | with no current room the grid is entirely blank; otherwise the centre (2, 2) holds the current room's label; labels only at even/even cells, paths only where exactly one coordinate is odd |
| MapGrid.LayoutLoneRoom | ConsoleRpg/Helpers/MapManager.cs:43-56 | a current room with no link in any direction is drawn alone: its label at the centre and every other cell blank, so no path is drawn without a neighbour |
| MapGrid.Positions | ConsoleRpg/Helpers/MapManager.cs:113-135 | in a well-formed grid labels sit only where both coordinates are even and paths only where exactly one is, so a path never overwrites a label |
| MapGrid.FilledCell | ConsoleRpg/Helpers/MapManager.cs:111-133 | a filled cell of a well-formed grid holds a label at an even/even position, the vertical path glyph at odd/even and the horizontal one at even/odd |
| MapGrid.StepInGrid | ConsoleRpg/Helpers/MapManager.cs:113-134 | the four guards keep the path cell and the target cell inside the 5 x 5 grid, the target at even coordinates |
| MapGrid.Fits | ConsoleRpg/Helpers/MapManager.cs:113-131 | from a cell of the grid, each of the four guards (`row > 1`, `row < GridRows - 2`, `col < GridCols - 2`, `col > 1`) holds if and only if the neighbour's cell two steps away is inside the grid |
| MapGrid.PathStep | ConsoleRpg/Helpers/MapManager.cs:115-133 | drawing the path glyph keeps the grid well formed, adds no blank cell and changes no other filled cell |
| MapGrid.VisitGoes | ConsoleRpg/Helpers/MapManager.cs:113-134 | when the neighbour exists and fits, the visit writes the path glyph beside the room and places the neighbour two cells away |
| MapGrid.VisitStays | ConsoleRpg/Helpers/MapManager.cs:113-134 | when the neighbour is missing or does not fit, the visit changes nothing |
| MapGrid.VisitBlocked | ConsoleRpg/Helpers/MapManager.cs:102-105 | a visit towards an already filled cell only writes the path glyph; the room there is not placed again |
| MapGrid.PlaceNorthOnly | ConsoleRpg/Helpers/MapManager.cs:111-135 | a room with no south, east or west neighbour is placed by writing its label and making its north visit |
| MapGrid.PlaceSouthOnly | ConsoleRpg/Helpers/MapManager.cs:111-135 | a room with no north, east or west neighbour is placed by writing its label and making its south visit |
| MapGrid.PlaceSouthBlocked | ConsoleRpg/Helpers/MapManager.cs:102-123 | a room whose only link leads south to an already drawn room and path gets only its own label |
| MapGrid.PutWellFormed | ConsoleRpg/Helpers/MapManager.cs:111 | writing a cell that fits its position keeps the grid well formed |
| MapGrid.PlaceFillsCell | ConsoleRpg/Helpers/MapManager.cs:102-111 | after placing, the room's cell holds a room label whether it was blank before or not |
| MapGrid.VisitDraws | ConsoleRpg/Helpers/MapManager.cs:113-135 | a visit that goes ahead leaves the right path glyph beside the room and a label two cells away |
| MapGrid.PlaceDrawsNeighbour | ConsoleRpg/Helpers/MapManager.cs:100-136 | once a room is placed at a blank cell, every neighbour that exists and passes its guard is joined by the right glyph and ends at a label, at any depth of the recursion |
| MapGrid.LayoutNorthOfCentre | ConsoleRpg/Helpers/MapManager.cs:54-56 | a current room with a north neighbour has the vertical path glyph at (1, 2) and that neighbour's label at (0, 2) |
| MapGrid.CyclicPairLayout | ConsoleRpg/Helpers/MapManager.cs:100-123 | two rooms linked north and south of each other are laid out to exactly `[Hall ]`, a vertical path and `[Entra]` in column 2, and the walk ends |
| MapGrid.Mark | ConsoleRpg/Helpers/MapManager.cs:67 | the highlight text exists exactly when there is a current room whose name has at least five characters, and then equals that room's label |
| MapGrid.Bracketed | ConsoleRpg/Helpers/MapManager.cs:64 | the renderer's bracket test accepts every room label and rejects the blank cell and both path glyphs |
| MapGrid.CellStyle | ConsoleRpg/Helpers/MapManager.cs:64-78 | a blank or path cell is dim; a room label is never dim and is highlighted if and only if it equals the highlight text |
| MapGrid.Render | ConsoleRpg/Helpers/MapManager.cs:59-83 | the render faults exactly when some cell holds both brackets and no highlight text can be formed; otherwise a cell is dim if and only if it does not hold both brackets |
| MapGrid.BracketedIffLabel | ConsoleRpg/Helpers/MapManager.cs:64 | in a well-formed grid a cell contains both brackets if and only if it is a room label |
| MapGrid.RenderLayout | ConsoleRpg/Helpers/MapManager.cs:52-83 | DisplayMap's styles fault exactly when the current room's name is shorter than five characters; otherwise non-room cells are dim, a label is highlighted if and only if it equals the current room's label, and the centre is highlighted |
| MapManagement.ParseDirectionIff | ConsoleRpg/Helpers/MapManager.cs:165-203 | a token selects direction d if and only if it is the single letter n, s, e or w of d in lower or upper case |
| MapManagement.ParseDirection | ConsoleRpg/Helpers/MapManager.cs:165-216 | a token selects a direction if and only if it is a single character whose lower case is n, s, e or w, and then the direction whose key is that letter |
| MapManagement.DirectionName | ConsoleRpg/Helpers/MapManager.cs:171-212 | the direction's name in the log starts with its key letter in upper case, so its initial alone selects that direction again |
| MapManagement.MoveMessage | ConsoleRpg/Helpers/MapManager.cs:171-216 | `Invalid direction.` if and only if the token was invalid; every other message names the direction just before its closing full stop |
| MapManagement.MoveMessageShape | ConsoleRpg/Helpers/MapManager.cs:171-216 | every move message begins with `I`, `N` or `M` according to its outcome, and the direction's initial stands at a fixed position after `No room to the ` or `Moved to the ` |
| MapManagement.MoveMessagesDistinct | ConsoleRpg/Helpers/MapManager.cs:171-216 | two moves log the same message if and only if they are the same outcome, up to the id of the room moved to |
| MapManagement.PlanMove | ConsoleRpg/Helpers/MapManager.cs:165-217 | an invalid token if and only if the letter is not n/s/e/w; "no room" only when the link is missing; a move only to the linked room's id |
| MapManagement.MapManager.constructor | ConsoleRpg/Helpers/MapManager.cs:19-25 | a fresh 5 x 5 grid and no current room |
| MapManagement.MapManager.LoadInitialRoom | ConsoleRpg/Helpers/MapManager.cs:27-35 | the current room becomes the room with that id, or none when no room has it |
| MapManagement.MapManager.UpdateCurrentRoom | ConsoleRpg/Helpers/MapManager.cs:90-98 | the same lookup by id; the room table is unchanged |
| MapManagement.MapManager.AddRoom | ConsoleRpg/Helpers/MapManager.cs:222-233 | exactly one unconnected room is added under a new id, the current room is unchanged, and the message is `Added room: <name>` |
| MapManagement.MapManager.DisplayMap | ConsoleRpg/Helpers/MapManager.cs:37-86 | after the clearing loops and the placement, the array holds exactly `Layout(rooms, current room)`, and the styles are `Render` of it |
| MapManagement.MapManager.RenderMap | ConsoleRpg/Helpers/MapManager.cs:59-83 | the styling loop returns exactly `Render` of the array's contents, faulting at the first room cell when the highlight text cannot be formed |
| MapManagement.MapManager.MoveToNextRoom | ConsoleRpg/Helpers/MapManager.cs:159-219 | with no current room nothing happens; otherwise the logged message is the planned move's; a move makes the linked room current and redraws the map; other outcomes leave the room and the grid unchanged |
| MapManagement.MapManager.SetCell | ConsoleRpg/Helpers/MapManager.cs:111 | writing one array cell changes exactly that cell of the grid value |
| MapManagement.MapManager.PlaceRoom | ConsoleRpg/Helpers/MapManager.cs:100-136 | the in-place recursion leaves the array holding exactly `Place` of its old contents |
| MapManagement.MapManager.DrawPath | ConsoleRpg/Helpers/MapManager.cs:113-133 | the path glyph is written beside the room, the target cell is a room position in the grid, and blank cells do not grow |
| MapManagement.MapManager.VisitNeighbour | ConsoleRpg/Helpers/MapManager.cs:113-135 | one of the four `if`s leaves the array holding exactly `Visit` of its old contents |
| MapManagement.MapManager.GoNeighbour | ConsoleRpg/Helpers/MapManager.cs:115-134 | the body of such an `if`: the path glyph, then the neighbour placed two cells away |
| Text.LowerChar | ConsoleRpg/Helpers/MapManager.cs:165 | an upper-case ASCII letter becomes its lower-case letter; every other character is unchanged |
| Text.Lower | ConsoleRpg/Helpers/MapManager.cs:165 | lower-casing keeps the length and maps each character by `LowerChar` |
| Text.Contains | ConsoleRpgEntities/Services/PlayerService.cs:111 | a prefix of the name is contained in it, and no query longer than the name is |
| Text.ContainsIffOccurs | ConsoleRpgEntities/Services/PlayerService.cs:111 | `Contains(s, q)` holds if and only if `q` occurs in `s` at some position |
| Text.ContainsOccurs | ConsoleRpgEntities/Services/PlayerService.cs:111 | what the suffix search finds occurs at some position |
| Text.OccursContains | ConsoleRpgEntities/Services/PlayerService.cs:111 | an occurrence at any position is found by the suffix search |
| Text.ContainsEmpty | ConsoleRpgEntities/Services/PlayerService.cs:111 | the empty query is contained in every name |
| Text.DigitsRoundTrip | ConsoleRpgEntities/Services/PlayerService.cs:30-32 | the digits written for a natural number read back as that number |
| Text.Decimal | ConsoleRpgEntities/Services/PlayerService.cs:30-32 | the written form of an `int` starts with a minus sign if and only if the value is negative; every other character is a decimal digit, and a negative value has at least one digit |
| Text.DecimalRoundTrip | ConsoleRpgEntities/Services/PlayerService.cs:30-32 | a damage or health value written into a message reads back as the same integer, negative values included |
| Players.Find | ConsoleRpgEntities/Services/PlayerService.cs:92-94 | lookup by id finds the first record with that id and reports none if and only if no record has it |
| Players.FindOnly | ConsoleRpgEntities/Services/PlayerService.cs:129-131 | with distinct ids, the record found is the only one with that id |
| Players.Weapon | ConsoleRpgEntities/Services/PlayerService.cs:24 | a weapon is found exactly when the player has an equipment slot holding one, and it is that slot's weapon |
| Players.Struck | ConsoleRpgEntities/Services/PlayerService.cs:24-31 | without equipment or weapon health is unchanged; with a weapon it drops by exactly the attack value |
| Players.AfterAttacks | ConsoleRpgEntities/Services/PlayerService.cs:31 | n attacks lower health by exactly n times the damage, with no lower bound: enough attacks with a positive weapon leave negative health |
| Players.AttackReport | ConsoleRpgEntities/Services/PlayerService.cs:26-32 | without a weapon the one line `<name> has no weapon equipped!`; with one, two lines, the second `<target> has <health> health remaining.` |
| Players.UseAbility | ConsoleRpgEntities/Services/PlayerService.cs:35-45 | the ability is activated if and only if the player has it; otherwise `<name> does not have the ability <ability>!` is reported |
| Players.Carries | ConsoleRpgEntities/Services/PlayerService.cs:49 | a player without an inventory carries nothing; otherwise an item is carried if and only if it occurs in the inventory's items |
| Players.EquipItemFromInventory | ConsoleRpgEntities/Services/PlayerService.cs:47-57 | the item reaches the equipment if and only if it is carried and there is an equipment slot; a carried item with no slot does nothing; an item not carried is reported |
| Players.NewPlayer | ConsoleRpgEntities/Services/PlayerService.cs:78-83 | a new record has the given id, name, health and experience; it has no weapon, every ability use is refused and every item to equip is reported as not carried |
| Players.Rewrite | ConsoleRpgEntities/Services/PlayerService.cs:96-98 | an update sets exactly the name, health and experience; the id, equipment, inventory and abilities are kept |
| Players.Without | ConsoleRpgEntities/Services/PlayerService.cs:133 | the records kept are exactly those with another id; a missing id keeps every record |
| Players.RemoveAt | ConsoleRpgEntities/Services/PlayerService.cs:133 | with distinct ids, removing the record at its position is the same as removing every record with its id |
| Players.Delete | ConsoleRpgEntities/Services/PlayerService.cs:127-141 | a missing id leaves the store unchanged; a found one removes exactly that record, so the ids are the old ones minus that id |
| Players.Update | ConsoleRpgEntities/Services/PlayerService.cs:90-107 | the record with the id gets the new name, health and experience, every other record is unchanged, and a missing id leaves the store unchanged |
| Players.Grant | ConsoleRpgEntities/Services/PlayerService.cs:149-156 | the player keeps its id and its abilities grow by exactly the new one |
| Players.AddAbility | ConsoleRpgEntities/Services/PlayerService.cs:143-164 | the record with the id has the ability added, every other record is unchanged, and a missing id leaves the store unchanged |
| Players.AddedAbilityUsable | ConsoleRpgEntities/Services/PlayerService.cs:156 | after the ability is added, `UseAbility` with it activates for that player |
| Players.Search | ConsoleRpgEntities/Services/PlayerService.cs:111 | the records found are exactly those whose name contains the query, never more than the store holds |
| Players.SearchAppend | ConsoleRpgEntities/Services/PlayerService.cs:111 | search keeps store order: it distributes over concatenation |
| Players.SearchEmptyQuery | ConsoleRpgEntities/Services/PlayerService.cs:111 | the empty query returns the whole store |
| Players.AddedPlayerFound | ConsoleRpgEntities/Services/PlayerService.cs:85 | an added record is found last by every query its name contains |
| Players.DeletedPlayerNotFound | ConsoleRpgEntities/Services/PlayerService.cs:133 | no query finds a deleted record |
| Players.PlayerLine | ConsoleRpgEntities/Services/PlayerService.cs:118 | a report line contains the record's name, so the line of a record found by a query contains that query's match |
| Players.PlayerLineId | ConsoleRpgEntities/Services/PlayerService.cs:118 | a report line starts with `Character ID: ` followed by the id, and that field reads back as the record's id |
| Players.SearchReport | ConsoleRpgEntities/Services/PlayerService.cs:113-124 | `No characters found.` if and only if nothing was found; otherwise the heading and one `Character ID: …` line per record, in order |
| PlayerServices.PlayerService.Attack | ConsoleRpgEntities/Services/PlayerService.cs:22-33 | the target's health becomes `Struck` of the old health, and the lines written are the attack report |
| PlayerServices.PlayerService.AddCharacter | ConsoleRpgEntities/Services/PlayerService.cs:76-88 | exactly one record with the given name, health and experience and a fresh id is appended; existing records are unchanged |
| PlayerServices.PlayerService.UpdateCharacter | ConsoleRpgEntities/Services/PlayerService.cs:90-107 | the store becomes `Update` of the old one; `Updated player: <name>` or `Character not found.` |
| PlayerServices.PlayerService.DeleteCharacter | ConsoleRpgEntities/Services/PlayerService.cs:127-141 | the store becomes `Delete` of the old one; `Deleted player: <name>` or `Character not found.` |
| PlayerServices.PlayerService.SearchCharacters | ConsoleRpgEntities/Services/PlayerService.cs:109-125 | the records found are `Search` of the store and the lines are its report |
| PlayerServices.PlayerService.AddAbilityToCharacter | ConsoleRpgEntities/Services/PlayerService.cs:143-164 | the store becomes `AddAbility` of the old one with the new ability; `Added ability <ability> to <name>` or `Character not found.` |
| PlayerServices.Target.constructor | ConsoleRpgEntities/Services/PlayerService.cs:22-32 | a target is created with the given name and health, the two things an attack reads and changes |
| PlayerServices.IdBound | ConsoleRpgEntities/Services/PlayerService.cs:85-86 | the first id handed out lies above the id of every record already stored |

## Left out

- The database. The Entity Framework context, `Include`, `SaveChanges` and its failures, and identity assignment are not modelled. The room table is a map and the player store a sequence in store order.
- MapManagement.MapManager.LoadInitialRoom: `Include` loads only the four direct neighbours. The model reads every room, at any depth, from the whole room table, as lazy loading would.
- MapManagement.MapManager.AddRoom: the id the database assigns is a parameter, required to be unused.
- PlayerServices.PlayerService.AddCharacter: the database identity is modelled as a counter above every stored id; ids are never reused.
- Output. The `OutputManager` and `IOutputService` calls (`GetUserInput`, `AddLogEntry`, `WriteLine`, `UpdateMapContent`) are not modelled. The direction token is a parameter, and the messages and lines are returned values.
- Rendering text. Spectre.Console markup, `Markup.Escape`, the colour tags and the `StringBuilder` text are not modelled. Only the style class of each cell (highlight, plain, dim) is kept.
- `ViewRoom`, `ViewCharacters`, `ViewCharacterAbilities` and `InventoryService.ListItems`: they only echo records to the output.
- `AbilityService.Activate` and `Equipment.EquipItem`: their source is not part of this model. `UseAbility` and `EquipItemFromInventory` return whether they would be invoked.
- `GameEngine` and `MenuManager`: input-driven menu loops, process exit and a startup sleep.
- Text.Lower: only ASCII letters are lower-cased; culture-specific case mapping is not modelled.
- Text.Contains: ordinal comparison. The source's `Where` runs as a database query, so the database collation, possibly case-insensitive, decides the match.
- Text.Decimal: invariant-culture formatting of an `int`.
- Players.UseAbility: abilities and items are compared by value. The source compares entity references.
- Players.Player: `Abilities` is never null in the model. In the source a null collection fails `UseAbility`'s check, and `AddAbilityToCharacter` would throw on it. An inventory whose `Items` is null is not modelled: the model's inventory is absent or a list, whereas the source's `Inventory?.Items.Contains(item)` throws on an inventory with null `Items`.
- Players.Struck: 32-bit overflow of `Health - Attack` is not modelled; integers are unbounded.
- Players.AfterAttacks: repeated attacks never wrap around; in the source the unchecked 32-bit `int` health wraps to a large positive value once it passes the smallest `int`.
- PlayerServices.PlayerService.Attack: the target is a separate object. When the target is a stored player, the store is not updated through it.
- MapManagement.MapManager.MoveToNextRoom: the current room is held as an id into the room table, not as a loaded entity object.
- MapGrid.PadRight: lengths and padding count Unicode scalar values, whereas C#'s `Length` and `PadRight` count UTF-16 code units; a name outside the Basic Multilingual Plane is padded differently.
- MapGrid.Label: the five-character cut counts Unicode scalar values, not UTF-16 code units; a `Substring(0, 5)` that splits a surrogate pair is not modelled.
- MapGrid.Mark: the same cut as Label, in scalar values; a highlight text that splits a surrogate pair is not modelled.
