/**
 * The field validators of the web version (website/game/models.py) and `Tile.is_treasure`.
 * The database lookups become parameters: the number of players already stored and the set
 * of names already taken.
 */
module WebModels {
  import opened Wrappers
  import opened Text

  /**
   * The values of the web version's constants module, which is not part of this model;
   * every member below takes them as a parameter.
   */
  datatype Config = Config(
    minBoardSize: int, boardSize: int, maxPlayers: int, treasureCount: int,
    maxTileLength: int, maxPlayerNameLength: int,
    defaultTile: string, pickedTile: string, foundTreasure: string)

  /**
   * What the views rely on: the board holds at least one row and column from the minimum on,
   * and the three marker values are not numbers, so `is_treasure` never mistakes one for a label.
   */
  predicate ValidConfig(k: Config)
  {
    && 0 <= k.minBoardSize < k.boardSize
    && ParseInt(k.defaultTile).None? && ParseInt(k.pickedTile).None? && ParseInt(k.foundTreasure).None?
    && k.defaultTile != k.pickedTile
  }

  datatype ValidationError =
    | ColOutOfRange | RowOutOfRange | TileLong | DupeName | BadNameChars
    | TooManyPlayers | NameLong | BadTileValue

  function ValidateColRange(k: Config, value: int): (r: Outcome<ValidationError>)
    ensures r.Pass? <==> k.minBoardSize <= value <= k.boardSize
    ensures r.Fail? ==> r.error == ColOutOfRange
  {
    if value < k.minBoardSize || value > k.boardSize then Fail(ColOutOfRange) else Pass
  }

  function ValidateRowRange(k: Config, value: int): (r: Outcome<ValidationError>)
    ensures r.Pass? <==> k.minBoardSize <= value <= k.boardSize
    ensures r.Fail? ==> r.error == RowOutOfRange
  {
    if value < k.minBoardSize || value > k.boardSize then Fail(RowOutOfRange) else Pass
  }

  function ValidateTileCharLength(k: Config, value: string): (r: Outcome<ValidationError>)
    ensures r.Fail? <==> |value| > k.maxTileLength
  {
    if |value| > k.maxTileLength then Fail(TileLong) else Pass
  }

  /** `validate_unique_name`, with the names already stored passed in. */
  function ValidateUniqueName(taken: set<string>, value: string): (r: Outcome<ValidationError>)
    ensures r.Fail? <==> value in taken
  {
    if value in taken then Fail(DupeName) else Pass
  }

  predicate IsNameChar(c: char)
  {
    ('A' <= c <= 'Z') || ('a' <= c <= 'z') || ('0' <= c <= '9') || c == '_'
  }

  predicate AllNameChars(s: string)
  {
    forall i :: 0 <= i < |s| ==> IsNameChar(s[i])
  }

  /**
   * `validate_player_name_chars` as written: the pattern `^[A-Za-z0-9_]+$` is searched for,
   * and in Python `$` also matches just before a final newline, so "alice\n" passes.
   */
  function ValidatePlayerNameChars(value: string): (r: Outcome<ValidationError>)
    ensures r.Pass? <==> (value != [] && AllNameChars(value)) ||
                         (|value| >= 2 && value[|value| - 1] == '\n' && AllNameChars(value[..|value| - 1]))
  {
    var body := if value != [] && value[|value| - 1] == '\n' then value[..|value| - 1] else value;
    if body != [] && AllNameChars(body) then Pass else Fail(BadNameChars)
  }

  /** A name ending in a newline gets past the character check. */
  lemma NameCharsAcceptsTrailingNewline()
    ensures ValidatePlayerNameChars("alice\n") == Pass
    ensures !AllNameChars("alice\n")
  {
    assert "alice\n"[..5] == "alice";
    assert "alice\n"[5] == '\n';
  }

  /** The character check anchored at the very end of the name, as the pattern intends. */
  function ValidatePlayerNameCharsStrict(value: string): (r: Outcome<ValidationError>)
    ensures r.Pass? <==> value != [] && AllNameChars(value)
  {
    if value != [] && AllNameChars(value) then Pass else Fail(BadNameChars)
  }

  /** The anchored check accepts a subset of what the written one accepts, and no newline. */
  lemma StrictNameCharsIsTighter(value: string)
    ensures ValidatePlayerNameCharsStrict(value).Pass? ==> ValidatePlayerNameChars(value).Pass?
    ensures ValidatePlayerNameCharsStrict(value).Pass? ==> forall i :: 0 <= i < |value| ==> value[i] != '\n'
  {
  }

  /** `validate_max_players`, with the number of players already stored passed in. */
  function ValidateMaxPlayers(k: Config, count: nat): (r: Outcome<ValidationError>)
    ensures r.Fail? <==> count >= k.maxPlayers
  {
    if count >= k.maxPlayers then Fail(TooManyPlayers) else Pass
  }

  function ValidatePlayerNameLength(k: Config, value: string): (r: Outcome<ValidationError>)
    ensures r.Fail? <==> |value| > k.maxPlayerNameLength
  {
    if |value| > k.maxPlayerNameLength then Fail(NameLong) else Pass
  }

  /** `Tile.is_treasure`: the value reads as a number from 1 to the treasure count. */
  function IsTreasure(k: Config, value: string): (b: bool)
    ensures b <==> ParseInt(value).Some? && 1 <= ParseInt(value).value <= k.treasureCount
    ensures ParseInt(value).None? ==> !b
  {
    match ParseInt(value)
    case Some(i) => 1 <= i <= k.treasureCount
    case None => false
  }

  /**
   * `validate_tile_value`: a number must be a treasure label; anything that is not a number
   * must be one of the three marker values.
   */
  function ValidateTileValue(k: Config, value: string): (r: Outcome<ValidationError>)
    ensures r.Fail? ==> r.error == BadTileValue
  {
    match ParseInt(value)
    case Some(i) => if 1 <= i <= k.treasureCount then Pass else Fail(BadTileValue)
    case None => if value in [k.defaultTile, k.pickedTile, k.foundTreasure] then Pass else Fail(BadTileValue)
  }

  /** The values a tile may hold are exactly the treasure labels and the three markers. */
  lemma TileValueAccepted(k: Config, value: string)
    ensures ValidateTileValue(k, value).Pass? <==>
      IsTreasure(k, value) || (ParseInt(value).None? && value in {k.defaultTile, k.pickedTile, k.foundTreasure})
  {
  }

  /** Every label `is_treasure` recognises is a value a tile may hold; the markers are never treasure. */
  lemma TreasureIsValidTileValue(k: Config, value: string)
    requires ValidConfig(k)
    ensures IsTreasure(k, value) ==> ValidateTileValue(k, value).Pass?
    ensures !IsTreasure(k, k.defaultTile) && !IsTreasure(k, k.pickedTile) && !IsTreasure(k, k.foundTreasure)
    ensures ValidateTileValue(k, k.defaultTile).Pass? && ValidateTileValue(k, k.pickedTile).Pass?
  {
  }

  /** Labels as the board writes them (`str(t_count)`) are treasure for every count up to the maximum. */
  lemma LabelIsTreasure(k: Config, v: nat)
    requires 1 <= v <= k.treasureCount
    ensures IsTreasure(k, NatToString(v))
  {
    NatToStringRoundTrip(v);
  }
}
