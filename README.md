# TorusVerse pacman: item registry, map-editor tile codec, manual player

This Dafny project models three sequential pieces of the TorusVerse pacman game and its map editor, and proves properties of them.

- **Item registry** (`Game`, from `SettingManager`). This is a sparse store from the row-major index `y*W + x` of a grid cell to the pill, gold piece or ice cube on that cell. Items come from a small factory, one per cell type. `getItem` hides gold and ice that were "removed". `removeItem` deletes a plain pill but only hides gold and ice. The registry also counts pills (gold included), lists gold locations and finds the closest item, where the first entry in iteration order wins a tie. The store is the class field `SettingManager.items`. It is a sequence of `(index, item)` entries with at most one entry per index: the `HashMap` with its iteration order written out. `putItem` and `removeItem` reassign this field in place. The store operations are reference functions (`Get`, `Put`, `Delete`, `Hide`), and the methods are proved against them.
- **Tile codec of the map editor** (`Editor`, from `Controller`). Two dictionaries are built from the parallel twelve-entry tables `'a'..'l'` and `"PathTile".."PortalDarkGrayTile"`. Saving turns the grid into rows of tile names, with `"PathTile"` for an unknown character. Loading writes rows of names back into the grid with `setTile`, with `'a'` for an unknown name. A command string selects the first tile whose character it names. The grid is an `array2<char>` indexed `[x, y]`, like `getTile(x, y)`.
- **Manual player** (`Player`, from `ManualPlayer`). An arrow key sets the facing direction. The `shouldMove` flag is raised only when the move in that direction is valid, and `resetMove` lowers it.

Parameters stand in for what the shown code does not define:
- The grid width `Level.getNumHorzCells()` is the constant field `w > 0` of the manager.
- `Location.getDistanceTo` is a parameter `dist: (Location, Location) -> Int32`.
- `isMoveValid` of the player superclass is a parameter `Direction -> bool`, applied to the direction just set.
- `isRemoved` of the superclass is the field `removed`.

Java's truncating `/` and `%` are written out (`JavaQuot`, `JavaRem`), because `getLocationByIndex` uses them. `Integer.MAX_VALUE`, the starting value of the closest-item scan, is kept. So an item at distance `Integer.MAX_VALUE` is never chosen.

The model follows the code:
- The code keys items by a row-major integer index, not by a coordinate pair.
- The code does no wrap-around arithmetic; distance is an unseen library call.
- `countPills` counts every `Pill` instance. The comment at `SettingManager.java:147` says gold is included, so gold is a subclass of `Pill`. Ice is not counted.
- Nothing is filtered by visibility in `countPills` or `getGoldLocations`, so hidden gold is still counted and still listed.

## Model

| member | source | states |
|---|---|---|
| `Game.CreateItem` | pacman/src/game/SettingManager.java:58-66 | an item is created exactly for the PILL, GOLD and ICE cell types; its type is the cell type it came from and it is visible; every other cell type gives none |
| `Game.IndexByLocation` | pacman/src/game/SettingManager.java:185-187 | for a column inside the grid, the index lies in row `y`'s block of `W` indices, from `y*W` up to but excluding `y*W + W` |
| `Game.LocationByIndex` | pacman/src/game/SettingManager.java:176-178 | a non-negative index gives a column in `0..W-1` and a non-negative row; a negative one gives a column in `-W+1..0` and a row at most 0, as Java's truncating `%` and `/` do |
| `Game.LocationIndexRoundTrip` | pacman/src/game/SettingManager.java:176-187 | for `0 <= x < W` and `y >= 0`, the location of the index of `(x, y)` is `(x, y)` |
| `Game.IndexLocationRoundTrip` | pacman/src/game/SettingManager.java:176-187 | for every index, negative ones included, the index of its location is the index itself (truncating division and remainder) |
| `Game.AboveGridDoesNotRoundTrip` | pacman/src/game/SettingManager.java:176-187 | a location in row -1 does not survive the round trip; it comes back as `(x - W, 0)` under Java's truncating division |
| `Game.Get` | pacman/src/game/SettingManager.java:137 | `HashMap.get`: there is no result exactly when no entry has the key; otherwise the result is the item of an entry with that key, and of the only one when keys are unique |
| `Game.Put` | pacman/src/game/SettingManager.java:78 | `HashMap.put`: afterwards the key maps to the new item, every other key maps to what it mapped to before, and no entries besides the new one appear |
| `Game.PutKeepsKeysUnique` | pacman/src/game/SettingManager.java:74-80 | putting an item keeps the store at one item per index |
| `Game.Delete` | pacman/src/game/SettingManager.java:126 | `HashMap.remove`: afterwards the key is absent, every other key is unchanged, no new entries appear and indices stay unique |
| `Game.Hide` | pacman/src/game/SettingManager.java:121 | `item.hide()`: only the visibility of the item under the key changes, and the order, keys and kinds of all entries stay |
| `Game.GetItem` | pacman/src/game/SettingManager.java:136-143 | a returned item is stored at the location's index and is not removed (a pill, or visible); when nothing is returned, no item stored there is live |
| `Game.RemoveItemAt` | pacman/src/game/SettingManager.java:114-128 | nothing changes when `getItem` finds nothing; a plain pill's key is deleted; gold or ice stays in the store, hidden; no other key changes; afterwards `getItem` at that location finds nothing |
| `Game.RemoveItemIdempotent` | pacman/src/game/SettingManager.java:114-143 | removing twice at a location leaves the same store as removing once |
| `Game.DeleteAfterHide` | pacman/src/game/SettingManager.java:121-127 | hiding a pill and then deleting its key leaves the same store as deleting the key alone |
| `Game.CountPills` | pacman/src/game/SettingManager.java:150-154 | the pill count is at most the number of entries |
| `Game.CountPillsHide` | pacman/src/game/SettingManager.java:150-154 | hiding an item leaves the pill count unchanged, so hidden gold is still counted |
| `Game.CountPillsDelete` | pacman/src/game/SettingManager.java:150-154 | with unique keys, deleting a key lowers the count by one exactly when that key held a pill or a gold piece |
| `Game.RemoveItemCountPills` | pacman/src/game/SettingManager.java:114-154 | removing a plain pill lowers `countPills` by exactly one; removing gold or ice, or removing where there is nothing, leaves it unchanged |
| `Game.GoldLocations` | pacman/src/game/SettingManager.java:164-169 | a location is listed exactly when some entry holds a gold piece, visible or hidden, at the location of its index |
| `Game.GoldLocationsHide` | pacman/src/game/SettingManager.java:164-169 | hiding an item leaves the gold list unchanged, so hidden gold is still listed |
| `Game.FirstClosestUnique` | pacman/src/game/SettingManager.java:99-102 | the tie-break by strict `<` picks one entry only: two entries that both satisfy "first closest" are the same entry |
| `Game.SettingManager.constructor` | pacman/src/game/SettingManager.java:16-22 | a new manager has an empty store and the given grid width |
| `Game.PutAllUntouched` | pacman/src/game/SettingManager.java:24-35 | after the scan, an index under which no scanned cell puts an item keeps exactly the entry it had before |
| `Game.PutAllLast` | pacman/src/game/SettingManager.java:24-35 | the scan is last-write-wins: an index under which some scanned cell puts an item holds the item the factory made for the last such cell |
| `Game.PutAllKeepsKeysUnique` | pacman/src/game/SettingManager.java:24-35 | the scan keeps the store at one item per index |
| `Game.PutAllOrigin` | pacman/src/game/SettingManager.java:24-35 | every entry after the scan is an old entry or holds the item the factory made for some scanned cell, under that cell's index |
| `Game.PutAllCovers` | pacman/src/game/SettingManager.java:24-35 | every scanned cell whose type yields an item has an entry under its index after the scan |
| `Game.SettingManager.DrawSetting` | pacman/src/game/SettingManager.java:24-35 | the store after the loop is `PutAll` of the old store over the scanned cells: each created item is put under its cell's index in scan order, with the properties the `PutAll` lemmas above state |
| `Game.SettingManager.PutItem` | pacman/src/game/SettingManager.java:74-80 | the new store is the old one with the item put under the location's index; `getItem` at that location then returns the item if it is live |
| `Game.SettingManager.RemoveItem` | pacman/src/game/SettingManager.java:114-128 | the code itself hides and then deletes a plain pill; the resulting store is the `RemoveItemAt` of the old one, and keys stay unique |
| `Game.SettingManager.ClosestItemLocation` | pacman/src/game/SettingManager.java:87-106 | the result is none exactly when no entry is live and nearer than `Integer.MAX_VALUE`; otherwise it is the location of such an entry with the least distance whose earlier qualifying entries are all strictly farther |
| `Editor.TablesDistinct` | pacman/src/mapeditor/editor/Controller.java:54-60 | both tables have twelve entries and neither repeats an entry |
| `Editor.CharToName` | pacman/src/mapeditor/editor/Controller.java:178 | `getOrDefault`: a character in the dictionary gives its name, any other gives `"PathTile"`; when the dictionary maps only to tile names, the result is always a tile name |
| `Editor.NameToChar` | pacman/src/mapeditor/editor/Controller.java:248 | `getOrDefault`: a name in the dictionary gives its character, any other gives `'a'`; when the dictionary maps only to tile characters, the result is always a tile character |
| `Editor.DictsAreInverse` | pacman/src/mapeditor/editor/Controller.java:73-78 | the two dictionaries filled from the tables are mutual inverses |
| `Editor.TileRoundTrip` | pacman/src/mapeditor/editor/Controller.java:178-248 | decoding the encoding of a known tile character gives the character back; encoding the decoding of a known tile name gives the name back |
| `Editor.UnknownTilesDefault` | pacman/src/mapeditor/editor/Controller.java:178-248 | an unknown character encodes as `"PathTile"`; an unknown name decodes as `'a'`; so an unknown character comes back from save then load as `'a'` |
| `Editor.SaveLoadTile` | pacman/src/mapeditor/editor/Controller.java:178-248 | save then load maps each character to itself if it is a tile character and to `'a'` otherwise |
| `Editor.Controller.constructor` | pacman/src/mapeditor/editor/Controller.java:65-67 | after construction the dictionaries hold exactly the pairs of the two tables |
| `Editor.Controller.SetUpDicts` | pacman/src/mapeditor/editor/Controller.java:73-78 | every `CHAR_TO_STR[TILE_CHARS[i]]` is `TILE_TYPES[i]` and every `STR_TO_CHAR[TILE_TYPES[i]]` is `TILE_CHARS[i]`; any other key keeps its old value |
| `Editor.Controller.SaveFile` | pacman/src/mapeditor/editor/Controller.java:167-183 | the saved level holds the grid's width and height, then `height` rows in order `y = 0..height-1`, each with `width` cells whose `x`-th is the name of tile `(x, y)` |
| `Editor.Controller.LoadRows` | pacman/src/mapeditor/editor/Controller.java:240-251 | the load completes exactly when every input cell lies in the grid; then tile `(x, y)` is decoded from the `x`-th cell of row `y` where that cell exists, and every other tile is unchanged |
| `Editor.Controller.SaveThenLoad` | pacman/src/mapeditor/editor/Controller.java:174-251 | saving the grid and loading the result back into it completes and reproduces every tile character, and turns unknown characters into `'a'` |
| `Editor.Controller.ActionPerformed` | pacman/src/mapeditor/editor/Controller.java:97-103 | the selected tile becomes the first tile whose character string equals the command, and stays as it was when no tile matches |
| `Player.DirectionOfKey` | pacman/src/game/Player/ManualPlayer.java:39-45 | exactly the four arrow keys give a direction, LEFT, UP, RIGHT and DOWN giving WEST, NORTH, EAST and SOUTH |
| `Player.KeyDirectionRoundTrip` | pacman/src/game/Player/ManualPlayer.java:39-45 | each direction's arrow key sets exactly that direction, and no two directions share a key |
| `Player.KeyRepeatedStep` | pacman/src/game/Player/ManualPlayer.java:34-49 | a removed player is unchanged; a non-arrow key only lowers `shouldMove`; an arrow key sets its direction even when the move is invalid, and `shouldMove` ends true exactly when the move in that direction is valid |
| `Player.KeyRepeatedIdempotent` | pacman/src/game/Player/ManualPlayer.java:34-49 | a second press of the same key under the same `isMoveValid`, that is with no move in between, leaves the state as the first press left it |
| `Player.ManualPlayer.constructor` | pacman/src/game/Player/ManualPlayer.java:16-27 | a new player may not move, since `shouldMove` starts false |
| `Player.ManualPlayer.KeyRepeated` | pacman/src/game/Player/ManualPlayer.java:34-49 | the step-by-step handler leaves the player in the state `KeyRepeatedStep` gives |
| `Player.ManualPlayer.SetNextDirection` | pacman/src/game/Player/ManualPlayer.java:53-55 | changes nothing |
| `Player.ManualPlayer.ShouldMove` | pacman/src/game/Player/ManualPlayer.java:59-61 | reports the flag without changing state |
| `Player.ManualPlayer.ResetMove` | pacman/src/game/Player/ManualPlayer.java:65-67 | lowers the flag and keeps the direction and the removed state |

## Left out

- Rendering in `SettingManager` is not modelled, because it is graphics calls. This covers the background painting in `drawSetting`, `colorWallAndSpace`, `fillCircle` in `putItem`, the cell recolouring in `removeItem` and `level.addActor`.
- `mapReader` and the `useEditor` constructor flag are not modelled. `DrawSetting` takes the map reader's item locations as a sequence in iteration order.
- `isWallAt`, `isInBound` and `getGrid` are not modelled. They read a `grid` field of type `PacManGameGrid`, which is not part of this model.
- `Location.getDistanceTo` is a parameter, because its code is a library call that is not part of this model.
- `HashMap` iteration order is not modelled. The store is a sequence: `put` replaces an existing key in place and appends a new key last. Every property of the scan is stated relative to that sequence.
- Item identity is not modelled. Items are values, so `hide()` replaces the stored item, and aliasing between one item object and the registry is not captured.
- Game.IndexByLocation: does not model 32-bit overflow of `y * W + x`, because the indices of grid cells are small.
- The Swing parts of the editor `Controller` are not modelled: file choosers, dialogs, the view, camera and grid view, `DocumentListener`, `init`, `updateGrid` and `run`. They are user interface.
- The jdom XML syntax, `FileWriter` and exception reporting are not modelled. A saved level is modelled as its size together with its rows of cell names.
- `loadFile` choosing a file, resizing through `updateGrid` and creating a model when none exists are not modelled. `LoadRows` decodes into the grid the controller already holds.
- The commands `flipGrid`, `save`, `load`, `update` and `start_game` in `actionPerformed` are not modelled. They lead to the UI, the file dialogs or the unseen `LevelChecker` and `Game`. Only the tile selection is modelled.
- `GridModel` and `Tile` are not part of this model. The grid is a two-dimensional character array, and a tile is its character.
- Editor.Controller.LoadRows: when an input cell lies outside the grid, the contract says only that each tile is either unchanged or decoded from its own input cell. It does not say exactly which cells were written before the load stopped. Why it stops: `setTile` outside the grid is assumed to throw, and `loadFile` catches the exception.
- The key-repeat listener plumbing, `setDirection`'s sprite handling and the rest of the `Player` superclass are not modelled. They are library or unseen code.
- `TorusVerseApp`, `Driver` and `Checker` are not modelled. They are file probing, program start-up, a dialog, and writing the error log.
