/**
 * The map editor's controller: the tile vocabulary (tile characters and the
 * tile names written to a level file), the save encoding of the grid as rows
 * of tile names, the load decoding written back into the grid, and the tile
 * selection made by a command.
 */
module Editor {
  import opened Wrappers

  /** TILE_CHARS. */
  const TileChars: seq<char> := ['a', 'b', 'c', 'd', 'e', 'f', 'g', 'h', 'i', 'j', 'k', 'l']

  /** TILE_TYPES, parallel to TileChars. */
  const TileTypes: seq<string> := [
    "PathTile", "WallTile", "PillTile",
    "GoldTile", "IceTile", "PacTile",
    "TrollTile", "TX5Tile", "PortalWhiteTile",
    "PortalYellowTile", "PortalDarkGoldTile",
    "PortalDarkGrayTile"
  ]

  /** The character a cell name nobody knows loads as. */
  const DefaultChar: char := 'a'

  /** The name a character nobody knows saves as. */
  const DefaultType: string := "PathTile"

  /** Neither table repeats an entry, so each is a bijection onto the other. */
  lemma TablesDistinct()
    ensures |TileChars| == |TileTypes| == 12
    ensures forall i, j :: 0 <= i < j < |TileChars| ==> TileChars[i] != TileChars[j]
    ensures forall i, j :: 0 <= i < j < |TileTypes| ==> TileTypes[i] != TileTypes[j]
  {
  }

  /** The two dictionaries hold exactly the pairs of the parallel tables. */
  ghost predicate IsTileDicts(charToStr: map<char, string>, strToChar: map<string, char>)
  {
    && (forall c :: c in charToStr <==> c in TileChars)
    && (forall n :: n in strToChar <==> n in TileTypes)
    && (forall i :: 0 <= i < |TileChars| ==> charToStr[TileChars[i]] == TileTypes[i])
    && (forall i :: 0 <= i < |TileTypes| ==> strToChar[TileTypes[i]] == TileChars[i])
  }

  /** CHAR_TO_STR_DICT.getOrDefault(c, "PathTile"). */
  function CharToName(charToStr: map<char, string>, c: char): (r: string)
    ensures c in charToStr ==> r == charToStr[c]
    ensures c !in charToStr ==> r == DefaultType
    ensures (forall c' :: c' in charToStr ==> charToStr[c'] in TileTypes) ==> r in TileTypes
  {
    if c in charToStr then charToStr[c] else DefaultType
  }

  /** STR_TO_CHAR_DICT.getOrDefault(name, 'a'). */
  function NameToChar(strToChar: map<string, char>, name: string): (r: char)
    ensures name in strToChar ==> r == strToChar[name]
    ensures name !in strToChar ==> r == DefaultChar
    ensures (forall n :: n in strToChar ==> strToChar[n] in TileChars) ==> r in TileChars
  {
    if name in strToChar then strToChar[name] else DefaultChar
  }

  /** The two dictionaries are mutual inverses. */
  lemma DictsAreInverse(charToStr: map<char, string>, strToChar: map<string, char>)
    requires IsTileDicts(charToStr, strToChar)
    ensures forall c :: c in charToStr ==> charToStr[c] in strToChar && strToChar[charToStr[c]] == c
    ensures forall n :: n in strToChar ==> strToChar[n] in charToStr && charToStr[strToChar[n]] == n
  {
    forall c | c in charToStr
      ensures charToStr[c] in strToChar && strToChar[charToStr[c]] == c
    {
      var i :| 0 <= i < |TileChars| && TileChars[i] == c;
      assert TileTypes[i] in TileTypes;
    }
    forall n | n in strToChar
      ensures strToChar[n] in charToStr && charToStr[strToChar[n]] == n
    {
      var i :| 0 <= i < |TileTypes| && TileTypes[i] == n;
      assert TileChars[i] in TileChars;
    }
  }

  /** Known tiles survive save then load, and known names survive load then save. */
  lemma TileRoundTrip(charToStr: map<char, string>, strToChar: map<string, char>)
    requires IsTileDicts(charToStr, strToChar)
    ensures forall c :: c in TileChars ==> NameToChar(strToChar, CharToName(charToStr, c)) == c
    ensures forall n :: n in TileTypes ==> CharToName(charToStr, NameToChar(strToChar, n)) == n
  {
    DictsAreInverse(charToStr, strToChar);
  }

  /** Unknown characters save as "PathTile", unknown names load as 'a'. */
  lemma UnknownTilesDefault(charToStr: map<char, string>, strToChar: map<string, char>)
    requires IsTileDicts(charToStr, strToChar)
    ensures forall c :: c !in TileChars ==> CharToName(charToStr, c) == DefaultType
    ensures forall n :: n !in TileTypes ==> NameToChar(strToChar, n) == DefaultChar
    ensures forall c :: c !in TileChars ==> NameToChar(strToChar, CharToName(charToStr, c)) == DefaultChar
  {
    assert DefaultType == TileTypes[0];
  }

  /** What save then load makes of a tile: itself when known, the default 'a' otherwise. */
  function Normalised(c: char): char
  {
    if c in TileChars then c else DefaultChar
  }

  /** save then load of one tile normalises it. */
  lemma SaveLoadTile(charToStr: map<char, string>, strToChar: map<string, char>, c: char)
    requires IsTileDicts(charToStr, strToChar)
    ensures NameToChar(strToChar, CharToName(charToStr, c)) == Normalised(c)
  {
    TileRoundTrip(charToStr, strToChar);
    UnknownTilesDefault(charToStr, strToChar);
  }

  /**
   * After the first `i` rounds of putting `keys[j] -> vals[j]` into a map
   * that held `m0`: those keys hold their values, nothing else was added,
   * and every other key keeps its old value.
   */
  ghost predicate FilledFrom<K(!new), V>(m: map<K, V>, m0: map<K, V>, keys: seq<K>, vals: seq<V>, i: int)
  {
    && 0 <= i <= |keys| <= |vals|
    && (forall j :: 0 <= j < i ==> keys[j] in m && m[keys[j]] == vals[j])
    && (forall k :: k in m <==> k in m0 || k in keys[..i])
    && (forall k :: k in m && k !in keys[..i] ==> k in m0 && m[k] == m0[k])
  }

  /** One round of the filling loop, for keys that do not repeat. */
  lemma FillStep<K(!new), V>(m: map<K, V>, m0: map<K, V>, keys: seq<K>, vals: seq<V>, i: int)
    requires FilledFrom(m, m0, keys, vals, i) && i < |keys|
    requires forall j :: 0 <= j < i ==> keys[j] != keys[i]
    ensures FilledFrom(m[keys[i] := vals[i]], m0, keys, vals, i + 1)
  {
    assert keys[..i + 1] == keys[..i] + [keys[i]];
  }

  /** Filling both tables into empty dictionaries gives exactly the tile dictionaries. */
  lemma FilledFromEmpty(charToStr: map<char, string>, strToChar: map<string, char>)
    requires FilledFrom(charToStr, map[], TileChars, TileTypes, |TileChars|)
    requires FilledFrom(strToChar, map[], TileTypes, TileChars, |TileTypes|)
    ensures IsTileDicts(charToStr, strToChar)
  {
    assert TileChars[..|TileChars|] == TileChars;
    assert TileTypes[..|TileTypes|] == TileTypes;
  }

  /** One editor tile; only its character matters here. */
  datatype Tile = Tile(character: char)

  /** Character.toString(tile.getCharacter()).equals(command). */
  predicate Selects(t: Tile, command: string)
  {
    [t.character] == command
  }

  /** The abstract content of a saved level: the size element and the rows of cell names. */
  datatype LevelDoc = LevelDoc(width: int, height: int, rows: seq<seq<string>>)

  /** Every cell of the rows lies inside a grid `width` by `height`. */
  predicate AllCellsInside(rows: seq<seq<string>>, width: int, height: int)
  {
    forall y :: 0 <= y < |rows| ==> rows[y] == [] || (y < height && |rows[y]| <= width)
  }

  class Controller {
    var charToStr: map<char, string>
    var strToChar: map<string, char>
    /** The grid model; model[x, y] is getTile(x, y). */
    var model: array2<char>
    var tiles: seq<Tile>
    var selectedTile: Option<Tile>

    ghost predicate Valid()
      reads this
    {
      IsTileDicts(charToStr, strToChar)
    }

    /** The controller starts with empty dictionaries and fills them. */
    constructor (model: array2<char>, tiles: seq<Tile>)
      ensures Valid()
      ensures this.model == model && this.tiles == tiles && selectedTile == None
    {
      charToStr := map[];
      strToChar := map[];
      this.model := model;
      this.tiles := tiles;
      selectedTile := None;
      new;
      SetUpDicts();
      FilledFromEmpty(charToStr, strToChar);
    }

    /** setUpDicts: puts every pair of the parallel tables into both dictionaries. */
    method SetUpDicts()
      modifies this`charToStr, this`strToChar
      ensures FilledFrom(charToStr, old(charToStr), TileChars, TileTypes, |TileChars|)
      ensures FilledFrom(strToChar, old(strToChar), TileTypes, TileChars, |TileTypes|)
    {
      TablesDistinct();
      for i := 0 to |TileChars|
        invariant FilledFrom(charToStr, old(charToStr), TileChars, TileTypes, i)
        invariant FilledFrom(strToChar, old(strToChar), TileTypes, TileChars, i)
      {
        FillStep(charToStr, old(charToStr), TileChars, TileTypes, i);
        FillStep(strToChar, old(strToChar), TileTypes, TileChars, i);
        charToStr := charToStr[TileChars[i] := TileTypes[i]];
        strToChar := strToChar[TileTypes[i] := TileChars[i]];
      }
    }

    /**
     * The encoding loop of saveFile: the size, then one row per y in order,
     * each holding the name of every tile x = 0 .. width-1 of that row.
     */
    method SaveFile() returns (doc: LevelDoc)
      ensures doc.width == model.Length0 && doc.height == model.Length1
      ensures |doc.rows| == model.Length1
      ensures forall y :: 0 <= y < |doc.rows| ==> |doc.rows[y]| == model.Length0
      ensures forall y, x :: 0 <= y < |doc.rows| && 0 <= x < |doc.rows[y]| ==>
        doc.rows[y][x] == CharToName(charToStr, model[x, y])
    {
      var height := model.Length1;
      var width := model.Length0;
      var rows: seq<seq<string>> := [];
      for y := 0 to height
        invariant |rows| == y
        invariant forall y' :: 0 <= y' < y ==> |rows[y']| == width
        invariant forall y', x :: 0 <= y' < y && 0 <= x < width ==>
          rows[y'][x] == CharToName(charToStr, model[x, y'])
      {
        var row: seq<string> := [];
        for x := 0 to width
          invariant |row| == x
          invariant forall x' :: 0 <= x' < x ==> row[x'] == CharToName(charToStr, model[x', y])
        {
          var tileChar := model[x, y];
          var name := CharToName(charToStr, tileChar);
          row := row + [name];
        }
        rows := rows + [row];
      }
      doc := LevelDoc(width, height, rows);
    }

    /**
     * The decoding loop of loadFile: tile (x, y) is set from the x-th cell of
     * the y-th row. A cell outside the grid makes setTile throw, which ends
     * the load early (`completed` is false).
     */
    method LoadRows(rows: seq<seq<string>>) returns (completed: bool)
      modifies model
      ensures completed <==> AllCellsInside(rows, model.Length0, model.Length1)
      ensures completed ==> forall x, y :: 0 <= x < model.Length0 && 0 <= y < model.Length1 ==>
        model[x, y] == if y < |rows| && x < |rows[y]| then NameToChar(strToChar, rows[y][x]) else old(model[x, y])
      ensures !completed ==> forall x, y :: 0 <= x < model.Length0 && 0 <= y < model.Length1 ==>
        || model[x, y] == old(model[x, y])
        || (y < |rows| && x < |rows[y]| && model[x, y] == NameToChar(strToChar, rows[y][x]))
    {
      var width, height := model.Length0, model.Length1;
      for y := 0 to |rows|
        invariant forall y' :: 0 <= y' < y ==> rows[y'] == [] || (y' < height && |rows[y']| <= width)
        invariant forall x', y' :: 0 <= x' < width && 0 <= y' < height ==>
          model[x', y'] == if y' < y && x' < |rows[y']| then NameToChar(strToChar, rows[y'][x']) else old(model[x', y'])
      {
        var cells := rows[y];
        for x := 0 to |cells|
          invariant x == 0 || (y < height && x <= width)
          invariant forall x', y' :: 0 <= x' < width && 0 <= y' < height ==>
            model[x', y'] ==
              if (y' < y && x' < |rows[y']|) || (y' == y && x' < x) then NameToChar(strToChar, rows[y'][x'])
              else old(model[x', y'])
        {
          if !(x < width && y < height) {
            completed := false;
            return;
          }
          var tileNr := NameToChar(strToChar, cells[x]);
          model[x, y] := tileNr;
        }
      }
      completed := true;
    }

    /** Save followed by load into the same grid gives back the grid, normalised. */
    method SaveThenLoad() returns (completed: bool)
      requires Valid()
      modifies model
      ensures completed
      ensures forall x, y :: 0 <= x < model.Length0 && 0 <= y < model.Length1 ==>
        model[x, y] == Normalised(old(model[x, y]))
    {
      var doc := SaveFile();
      completed := LoadRows(doc.rows);
      forall c | true
        ensures NameToChar(strToChar, CharToName(charToStr, c)) == Normalised(c)
      {
        SaveLoadTile(charToStr, strToChar, c);
      }
    }

    /**
     * The tile selection of actionPerformed: the first tile whose character
     * string equals the command becomes the selected tile.
     */
    method ActionPerformed(command: string)
      modifies this`selectedTile
      ensures (forall i :: 0 <= i < |tiles| ==> !Selects(tiles[i], command)) ==> selectedTile == old(selectedTile)
      ensures (exists i :: 0 <= i < |tiles| && Selects(tiles[i], command)) ==>
        exists i :: && 0 <= i < |tiles| && Selects(tiles[i], command)
                    && (forall j :: 0 <= j < i ==> !Selects(tiles[j], command))
                    && selectedTile == Some(tiles[i])
    {
      for i := 0 to |tiles|
        invariant forall j :: 0 <= j < i ==> !Selects(tiles[j], command)
        invariant selectedTile == old(selectedTile)
      {
        if Selects(tiles[i], command) {
          selectedTile := Some(tiles[i]);
          assert Selects(tiles[i], command);
          break;
        }
      }
    }
  }
}
