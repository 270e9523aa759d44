/**
 * The pick rule of the web version (website/game/views/views_gameplay.py) with the ORM and
 * HTTP taken away: tile records keyed by (row, col), a score per player name, the request
 * parameters, and the masked view of the board sent back to the browser.
 */
module WebGameplay {
  import opened Wrappers
  import opened Text
  import opened WebModels

  /** A stored tile: its value and the name of the player who picked it, if any. */
  datatype TileRec = TileRec(value: string, pickedBy: Option<string>)

  type Tiles = map<(int, int), TileRec>

  /** Player name to score. */
  type Scores = map<string, int>

  /** The tiles `start_game` creates: one for each cell of a boardSize-by-boardSize board. */
  ghost predicate FullBoard(k: Config, tiles: Tiles)
  {
    forall cell: (int, int) :: cell in tiles <==> 0 <= cell.0 < k.boardSize && 0 <= cell.1 < k.boardSize
  }

  // ------------------------------------------------------------------ request

  function CommaCount(s: string): nat
  {
    if s == [] then 0 else CommaCount(s[..|s| - 1]) + (if s[|s| - 1] == ',' then 1 else 0)
  }

  /** Index of the first ',' (|s| when there is none). */
  function FirstComma(s: string): (i: nat)
    ensures i <= |s|
    ensures forall j :: 0 <= j < i ==> s[j] != ','
    ensures i < |s| ==> s[i] == ','
  {
    if s == [] then 0 else if s[0] == ',' then 0 else 1 + FirstComma(s[1..])
  }

  /** Reads a posted "row,col" tile string as two integers; None where the view's unpacking or conversion fails. */
  function ParseTile(s: string): (r: Option<(int, int)>)
    ensures r.Some? ==> CommaCount(s) == 1
  {
    if CommaCount(s) != 1 then None
    else
      var i := FirstComma(s);
      if i == |s| then None
      else match (ParseInt(s[..i]), ParseInt(s[i + 1..]))
        case (Some(row), Some(col)) => Some((row, col))
        case _ => None
  }

  lemma {:induction false} CommaCountAppend(a: string, b: string)
    ensures CommaCount(a + b) == CommaCount(a) + CommaCount(b)
    decreases |b|
  {
    if b != [] {
      assert (a + b)[..|a + b| - 1] == a + b[..|b| - 1];
      CommaCountAppend(a, b[..|b| - 1]);
    } else {
      assert a + b == a;
    }
  }

  lemma {:induction false} DigitsHaveNoComma(s: string)
    requires AllDigits(s)
    ensures CommaCount(s) == 0
    ensures FirstComma(s) == |s|
  {
    if s != [] {
      DigitsHaveNoComma(s[..|s| - 1]);
      DigitsHaveNoComma(s[1..]);
    }
  }

  lemma FirstCommaAfter(a: string, b: string)
    requires forall j :: 0 <= j < |a| ==> a[j] != ','
    ensures FirstComma(a + "," + b) == |a|
  {
    var s := a + "," + b;
    assert s[|a|] == ',';
    assert forall j :: 0 <= j < |a| ==> s[j] == a[j];
  }

  /** The "row,col" string the board's buttons post is parsed back to the same cell. */
  lemma ParseTileRoundTrip(row: nat, col: nat)
    ensures ParseTile(NatToString(row) + "," + NatToString(col)) == Some((row, col))
  {
    var a, b := NatToString(row), NatToString(col);
    var s := a + "," + b;
    DigitsHaveNoComma(a);
    DigitsHaveNoComma(b);
    CommaCountAppend(a + ",", b);
    CommaCountAppend(a, ",");
    assert CommaCount(",") == 1 by { assert ","[..0] == ""; }
    FirstCommaAfter(a, b);
    assert s[..|a|] == a && s[|a| + 1..] == b;
    NatToStringRoundTrip(row);
    NatToStringRoundTrip(col);
  }

  /** A tile string with no comma, or more than one, is refused. */
  lemma ParseTileNeedsOneComma(s: string)
    requires CommaCount(s) != 1
    ensures ParseTile(s) == None
  {
  }

  /** The parameters `pick` reads: the URL segments and the POST form. */
  datatype Request = Request(
    isPost: bool, urlName: Option<string>, urlRow: Option<int>, urlCol: Option<int>,
    postName: Option<string>, postTile: Option<string>)

  /** Where `pick` goes after reading its parameters: back to the game page, or on to the pick. */
  datatype Target = Redirect | PickAt(name: string, row: int, col: int)

  predicate Truthy(s: Option<string>) { s.Some? && s.value != "" }

  /**
   * Lines 87-101 of `pick`: on POST a missing URL name is taken from the form and a
   * non-empty "tile" field overrides the URL row and column; a malformed tile field, a
   * missing name, or a missing row or column sends the player back to the game page.
   */
  function ResolveRequest(req: Request): (t: Target)
    ensures t.PickAt? ==> t.name != ""
    ensures req.isPost && Truthy(req.postTile) && ParseTile(req.postTile.value).None? ==> t == Redirect
    ensures req.isPost && Truthy(req.postTile) && t.PickAt? ==> Some((t.row, t.col)) == ParseTile(req.postTile.value)
    ensures (!req.isPost || !Truthy(req.postTile)) && t.PickAt? ==> req.urlRow == Some(t.row) && req.urlCol == Some(t.col)
    ensures t.PickAt? ==> Some(t.name) == (if req.isPost && !Truthy(req.urlName) then req.postName else req.urlName)
    ensures !Truthy(if req.isPost && !Truthy(req.urlName) then req.postName else req.urlName) ==> t == Redirect
    ensures (!req.isPost || !Truthy(req.postTile)) && (req.urlRow.None? || req.urlCol.None?) ==> t == Redirect
    ensures (Truthy(if req.isPost && !Truthy(req.urlName) then req.postName else req.urlName) &&
             (if req.isPost && Truthy(req.postTile) then ParseTile(req.postTile.value).Some?
              else req.urlRow.Some? && req.urlCol.Some?)) ==> t.PickAt?
  {
    var name := if req.isPost && !Truthy(req.urlName) then req.postName else req.urlName;
    if req.isPost && Truthy(req.postTile) && ParseTile(req.postTile.value).None? then Redirect
    else
      var cell := if req.isPost && Truthy(req.postTile) then ParseTile(req.postTile.value)
                  else if req.urlRow.Some? && req.urlCol.Some? then Some((req.urlRow.value, req.urlCol.value))
                  else None;
      if !Truthy(name) || cell.None? then Redirect
      else PickAt(name.value, cell.value.0, cell.value.1)
  }

  // --------------------------------------------------------------------- pick

  /** The message `pick` shows, or the exception it raises. */
  datatype PickOutcome =
    | PlayerNotFound
    | RowRangeError
    | ColRangeError
    | NoTreasure
    | TreasureAlreadyPicked
    | FoundTreasure(points: int)
    | TileMissing  // `Tile.objects.get` raises DoesNotExist

  datatype PickResult = PickResult(outcome: PickOutcome, tiles: Tiles, scores: Scores)

  /**
   * Lines 103-140 of `pick`, given the outcome of the row and column range checks: a known
   * player, in range, picks the stored tile. A tile that is not treasure is marked picked
   * when it was untouched; an unclaimed treasure is claimed and its value added to the score.
   */
  function ApplyPick(k: Config, tiles: Tiles, scores: Scores, name: string, row: int, col: int,
                     rowCheck: Outcome<ValidationError>, colCheck: Outcome<ValidationError>): PickResult
  {
    if name !in scores then PickResult(PlayerNotFound, tiles, scores)
    else if colCheck.Fail? then PickResult(ColRangeError, tiles, scores)
    else if rowCheck.Fail? then PickResult(RowRangeError, tiles, scores)
    else if (row, col) !in tiles then PickResult(TileMissing, tiles, scores)
    else
      var tile := tiles[(row, col)];
      if !IsTreasure(k, tile.value) then
        if tile.value == k.defaultTile then
          PickResult(NoTreasure, tiles[(row, col) := TileRec(k.pickedTile, Some(name))], scores)
        else PickResult(NoTreasure, tiles, scores)
      else if tile.pickedBy.Some? then PickResult(TreasureAlreadyPicked, tiles, scores)
      else
        var points := ParseInt(tile.value).value;
        PickResult(FoundTreasure(points), tiles[(row, col) := tile.(pickedBy := Some(name))],
                   scores[name := scores[name] + points])
  }

  /** `pick` as written, with the range checks of models.py (upper bound inclusive). */
  function PickAsWritten(k: Config, tiles: Tiles, scores: Scores, name: string, row: int, col: int): PickResult
  {
    ApplyPick(k, tiles, scores, name, row, col, ValidateRowRange(k, row), ValidateColRange(k, col))
  }

  /** The range checks with the board size as an exclusive bound, matching the tiles `start_game` creates. */
  function ValidateRowOnBoard(k: Config, value: int): (r: Outcome<ValidationError>)
    ensures r.Pass? <==> k.minBoardSize <= value < k.boardSize
  {
    if value < k.minBoardSize || value >= k.boardSize then Fail(RowOutOfRange) else Pass
  }

  function ValidateColOnBoard(k: Config, value: int): (r: Outcome<ValidationError>)
    ensures r.Pass? <==> k.minBoardSize <= value < k.boardSize
  {
    if value < k.minBoardSize || value >= k.boardSize then Fail(ColOutOfRange) else Pass
  }

  /** `pick` with the exclusive range checks; the state machine below runs this one. */
  function PickRule(k: Config, tiles: Tiles, scores: Scores, name: string, row: int, col: int): PickResult
  {
    ApplyPick(k, tiles, scores, name, row, col, ValidateRowOnBoard(k, row), ValidateColOnBoard(k, col))
  }

  /** Every refusal leaves the tiles and the scores as they were. */
  lemma PickErrorsChangeNothing(k: Config, tiles: Tiles, scores: Scores, name: string, row: int, col: int)
    ensures var p := PickRule(k, tiles, scores, name, row, col);
      p.outcome in {PlayerNotFound, RowRangeError, ColRangeError, TreasureAlreadyPicked, TileMissing} ==>
        p.tiles == tiles && p.scores == scores
    ensures var p := PickAsWritten(k, tiles, scores, name, row, col);
      p.outcome in {PlayerNotFound, RowRangeError, ColRangeError, TreasureAlreadyPicked, TileMissing} ==>
        p.tiles == tiles && p.scores == scores
  {
  }

  /**
   * The messages in the order the view assigns them, whatever the range checks are: an
   * unknown player first, then the column error over the row error, because it is assigned last.
   */
  lemma ApplyPickPrecedence(k: Config, tiles: Tiles, scores: Scores, name: string, row: int, col: int,
                            rowCheck: Outcome<ValidationError>, colCheck: Outcome<ValidationError>)
    ensures var p := ApplyPick(k, tiles, scores, name, row, col, rowCheck, colCheck);
      && (name !in scores ==> p.outcome == PlayerNotFound)
      && (name in scores && colCheck.Fail? ==> p.outcome == ColRangeError)
      && (name in scores && colCheck.Pass? && rowCheck.Fail? ==> p.outcome == RowRangeError)
      && (name in scores && colCheck.Pass? && rowCheck.Pass? ==> p.outcome !in {PlayerNotFound, RowRangeError, ColRangeError})
  {
  }

  /** The precedence of the messages, for the view as written and for the corrected checks. */
  lemma PickErrorPrecedence(k: Config, tiles: Tiles, scores: Scores, name: string, row: int, col: int)
    ensures name !in scores ==> PickAsWritten(k, tiles, scores, name, row, col).outcome == PlayerNotFound
    ensures name in scores && ValidateColRange(k, col).Fail? ==>
              PickAsWritten(k, tiles, scores, name, row, col).outcome == ColRangeError
    ensures name in scores && ValidateColRange(k, col).Pass? && ValidateRowRange(k, row).Fail? ==>
              PickAsWritten(k, tiles, scores, name, row, col).outcome == RowRangeError
    ensures name !in scores ==> PickRule(k, tiles, scores, name, row, col).outcome == PlayerNotFound
    ensures name in scores && ValidateColOnBoard(k, col).Fail? ==> PickRule(k, tiles, scores, name, row, col).outcome == ColRangeError
    ensures name in scores && ValidateColOnBoard(k, col).Pass? && ValidateRowOnBoard(k, row).Fail? ==>
              PickRule(k, tiles, scores, name, row, col).outcome == RowRangeError
  {
    ApplyPickPrecedence(k, tiles, scores, name, row, col, ValidateRowRange(k, row), ValidateColRange(k, col));
    ApplyPickPrecedence(k, tiles, scores, name, row, col, ValidateRowOnBoard(k, row), ValidateColOnBoard(k, col));
  }

  /**
   * Picking a tile that is not treasure and no longer holds DEFAULT_TILE (PICKED_TILE or
   * FOUND_TREASURE, say) answers "No treasure" and saves nothing, under either range check.
   */
  lemma PickMarkedTile(k: Config, tiles: Tiles, scores: Scores, name: string, row: int, col: int)
    requires (row, col) in tiles && name in scores
    requires !IsTreasure(k, tiles[(row, col)].value) && tiles[(row, col)].value != k.defaultTile
    ensures ValidateRowRange(k, row).Pass? && ValidateColRange(k, col).Pass? ==>
              PickAsWritten(k, tiles, scores, name, row, col) == PickResult(NoTreasure, tiles, scores)
    ensures ValidateRowOnBoard(k, row).Pass? && ValidateColOnBoard(k, col).Pass? ==>
              PickRule(k, tiles, scores, name, row, col) == PickResult(NoTreasure, tiles, scores)
  {
  }

  /** Picking an untouched tile marks it picked by that player and changes no score. */
  lemma PickDefaultTile(k: Config, tiles: Tiles, scores: Scores, name: string, row: int, col: int)
    requires ValidConfig(k) && FullBoard(k, tiles) && name in scores
    requires k.minBoardSize <= row < k.boardSize && k.minBoardSize <= col < k.boardSize
    requires tiles[(row, col)].value == k.defaultTile
    ensures var p := PickRule(k, tiles, scores, name, row, col);
      p.outcome == NoTreasure && p.scores == scores &&
      p.tiles == tiles[(row, col) := TileRec(k.pickedTile, Some(name))]
  {
    TreasureIsValidTileValue(k, k.defaultTile);
  }

  /** Picking an unclaimed treasure adds its value to that player alone, keeps the value and records the picker. */
  lemma PickTreasure(k: Config, tiles: Tiles, scores: Scores, name: string, row: int, col: int)
    requires (row, col) in tiles && name in scores
    requires k.minBoardSize <= row < k.boardSize && k.minBoardSize <= col < k.boardSize
    requires IsTreasure(k, tiles[(row, col)].value) && tiles[(row, col)].pickedBy == None
    ensures var p := PickRule(k, tiles, scores, name, row, col);
      var v := ParseInt(tiles[(row, col)].value).value;
      && p.outcome == FoundTreasure(v) && 1 <= v <= k.treasureCount
      && p.tiles == tiles[(row, col) := TileRec(tiles[(row, col)].value, Some(name))]
      && p.scores == scores[name := scores[name] + v]
  {
  }

  /** Once claimed, a treasure never scores again, whoever picks it. */
  lemma TreasureScoresOnce(k: Config, tiles: Tiles, scores: Scores, name: string, other: string, row: int, col: int)
    requires PickRule(k, tiles, scores, name, row, col).outcome.FoundTreasure?
    ensures var p := PickRule(k, tiles, scores, name, row, col);
      var q := PickRule(k, p.tiles, p.scores, other, row, col);
      q.outcome in {TreasureAlreadyPicked, PlayerNotFound} && q.tiles == p.tiles && q.scores == p.scores
  {
  }

  /**
   * Whatever the range checks, one pick never lowers a score, never adds or drops a player,
   * and raises at most the picker's score.
   */
  lemma ApplyPickScoresMonotone(k: Config, tiles: Tiles, scores: Scores, name: string, row: int, col: int,
                                rowCheck: Outcome<ValidationError>, colCheck: Outcome<ValidationError>)
    ensures var p := ApplyPick(k, tiles, scores, name, row, col, rowCheck, colCheck);
      && p.scores.Keys == scores.Keys
      && (forall n :: n in scores ==> scores[n] <= p.scores[n])
      && (forall n :: n in scores && n != name ==> p.scores[n] == scores[n])
  {
  }

  /** The range checks the view runs: as written (inclusive) or corrected (exclusive). */
  datatype Bounds = Inclusive | Exclusive

  /** One pick under the chosen range checks. */
  function PickWith(b: Bounds, k: Config, tiles: Tiles, scores: Scores, name: string, row: int, col: int): PickResult
  {
    match b
    case Inclusive => PickAsWritten(k, tiles, scores, name, row, col)
    case Exclusive => PickRule(k, tiles, scores, name, row, col)
  }

  /** For the view as written and for the corrected checks, one pick keeps the scores monotone. */
  lemma PickScoresMonotone(b: Bounds, k: Config, tiles: Tiles, scores: Scores, name: string, row: int, col: int)
    ensures var p := PickWith(b, k, tiles, scores, name, row, col);
      && p.scores.Keys == scores.Keys
      && (forall n :: n in scores ==> scores[n] <= p.scores[n])
      && (forall n :: n in scores && n != name ==> p.scores[n] == scores[n])
  {
    match b
    case Inclusive =>
      ApplyPickScoresMonotone(k, tiles, scores, name, row, col, ValidateRowRange(k, row), ValidateColRange(k, col));
    case Exclusive =>
      ApplyPickScoresMonotone(k, tiles, scores, name, row, col, ValidateRowOnBoard(k, row), ValidateColOnBoard(k, col));
  }

  /** A run of picks under the chosen range checks, one (name, row, col) request after another. */
  function PickAll(b: Bounds, k: Config, tiles: Tiles, scores: Scores, picks: seq<(string, int, int)>): (p: PickResult)
    decreases |picks|
  {
    if picks == [] then PickResult(NoTreasure, tiles, scores)
    else
      var first := PickWith(b, k, tiles, scores, picks[0].0, picks[0].1, picks[0].2);
      PickAll(b, k, first.tiles, first.scores, picks[1..])
  }

  /** Over any run of picks, as written or corrected, no score goes down and the set of players stays the same. */
  lemma {:induction false} PickAllScoresMonotone(b: Bounds, k: Config, tiles: Tiles, scores: Scores, picks: seq<(string, int, int)>)
    ensures var p := PickAll(b, k, tiles, scores, picks);
      p.scores.Keys == scores.Keys && forall n :: n in scores ==> scores[n] <= p.scores[n]
    decreases |picks|
  {
    if picks != [] {
      var first := PickWith(b, k, tiles, scores, picks[0].0, picks[0].1, picks[0].2);
      PickScoresMonotone(b, k, tiles, scores, picks[0].0, picks[0].1, picks[0].2);
      PickAllScoresMonotone(b, k, first.tiles, first.scores, picks[1..]);
    }
  }

  /** Two unclaimed treasures picked in turn by one player add up in that player's score. */
  lemma ScoresAccumulate(b: Bounds, k: Config, tiles: Tiles, scores: Scores, name: string, c1: (int, int), c2: (int, int))
    requires c1 in tiles && c2 in tiles && name in scores && c1 != c2
    requires k.minBoardSize <= c1.0 < k.boardSize && k.minBoardSize <= c1.1 < k.boardSize
    requires k.minBoardSize <= c2.0 < k.boardSize && k.minBoardSize <= c2.1 < k.boardSize
    requires IsTreasure(k, tiles[c1].value) && tiles[c1].pickedBy == None
    requires IsTreasure(k, tiles[c2].value) && tiles[c2].pickedBy == None
    ensures var p := PickAll(b, k, tiles, scores, [(name, c1.0, c1.1), (name, c2.0, c2.1)]);
      name in p.scores &&
      p.scores[name] == scores[name] + ParseInt(tiles[c1].value).value + ParseInt(tiles[c2].value).value
  {
    var first := PickRule(k, tiles, scores, name, c1.0, c1.1);
    PickTreasure(k, tiles, scores, name, c1.0, c1.1);
    PickAgreesInsideBoard(k, tiles, scores, name, c1.0, c1.1);
    assert PickWith(b, k, tiles, scores, name, c1.0, c1.1) == first;
    assert first.tiles[c2] == tiles[c2];
    PickTreasure(k, first.tiles, first.scores, name, c2.0, c2.1);
    PickAgreesInsideBoard(k, first.tiles, first.scores, name, c2.0, c2.1);
    var second := PickRule(k, first.tiles, first.scores, name, c2.0, c2.1);
    assert PickWith(b, k, first.tiles, first.scores, name, c2.0, c2.1) == second;
    var run := [(name, c1.0, c1.1), (name, c2.0, c2.1)];
    assert run[1..] == [(name, c2.0, c2.1)] && run[1..][1..] == [];
    assert PickAll(b, k, first.tiles, first.scores, run[1..]) == PickAll(b, k, second.tiles, second.scores, []);
    assert PickAll(b, k, tiles, scores, run) == PickAll(b, k, first.tiles, first.scores, run[1..]);
  }

  // ------------------------------------------------------- the inclusive bound

  /**
   * With the checks as written, the row equal to the board size passes validation, yet
   * `start_game` made no tile there, so `Tile.objects.get` raises.
   */
  lemma PickAtBoardSizeMissesTile(k: Config, tiles: Tiles, scores: Scores, name: string, col: int)
    requires ValidConfig(k) && FullBoard(k, tiles) && name in scores
    requires k.minBoardSize <= col < k.boardSize
    ensures PickAsWritten(k, tiles, scores, name, k.boardSize, col).outcome == TileMissing
  {
  }

  /** With exclusive checks, a pick on the full board never asks for a tile that does not exist. */
  lemma PickNeverMissesTile(k: Config, tiles: Tiles, scores: Scores, name: string, row: int, col: int)
    requires ValidConfig(k) && FullBoard(k, tiles)
    ensures PickRule(k, tiles, scores, name, row, col).outcome != TileMissing
  {
    if ValidateRowOnBoard(k, row).Pass? && ValidateColOnBoard(k, col).Pass? {
      assert (row, col) in tiles;
    }
  }

  /** Away from the last row and column the two checks agree, so the pick rule is unchanged there. */
  lemma PickAgreesInsideBoard(k: Config, tiles: Tiles, scores: Scores, name: string, row: int, col: int)
    requires row != k.boardSize && col != k.boardSize
    ensures PickRule(k, tiles, scores, name, row, col) == PickAsWritten(k, tiles, scores, name, row, col)
  {
  }

  // --------------------------------------------------------------- the state

  /** The tile and player tables of a running game. */
  class GameState {
    const config: Config
    var tiles: Tiles
    var scores: Scores

    constructor (config: Config, tiles: Tiles, scores: Scores)
      ensures this.config == config && this.tiles == tiles && this.scores == scores
    {
      this.config := config;
      this.tiles := tiles;
      this.scores := scores;
    }

    /** Lines 103-140 of `pick` applied to the tables. */
    method Pick(name: string, row: int, col: int) returns (outcome: PickOutcome)
      modifies this
      ensures var p := PickRule(config, old(tiles), old(scores), name, row, col);
        outcome == p.outcome && tiles == p.tiles && scores == p.scores
      ensures forall n :: n in old(scores) ==> old(scores)[n] <= scores[n]
    {
      PickScoresMonotone(Exclusive, config, tiles, scores, name, row, col);
      if name !in scores {
        return PlayerNotFound;
      }
      if ValidateRowOnBoard(config, row).Fail? {
        outcome := RowRangeError;
      }
      if ValidateColOnBoard(config, col).Fail? {
        outcome := ColRangeError;
      }
      if ValidateRowOnBoard(config, row).Fail? || ValidateColOnBoard(config, col).Fail? {
        return;
      }
      if (row, col) !in tiles {
        return TileMissing;
      }
      var tile := tiles[(row, col)];
      if !IsTreasure(config, tile.value) {
        outcome := NoTreasure;
        if tile.value == config.defaultTile {
          tiles := tiles[(row, col) := TileRec(config.pickedTile, Some(name))];
        }
      } else if tile.pickedBy.Some? {
        outcome := TreasureAlreadyPicked;
      } else {
        var points := ParseInt(tile.value).value;
        scores := scores[name := scores[name] + points];
        outcome := FoundTreasure(points);
        tiles := tiles[(row, col) := tile.(pickedBy := Some(name))];
      }
    }

    /** The whole view: read the request, then pick; a redirect changes nothing. */
    method HandleRequest(req: Request) returns (outcome: Option<PickOutcome>)
      modifies this
      ensures ResolveRequest(req) == Redirect ==> outcome == None && tiles == old(tiles) && scores == old(scores)
      ensures ResolveRequest(req).PickAt? ==>
        var t := ResolveRequest(req);
        var p := PickRule(config, old(tiles), old(scores), t.name, t.row, t.col);
        outcome == Some(p.outcome) && tiles == p.tiles && scores == p.scores
    {
      var target := ResolveRequest(req);
      if target == Redirect {
        return None;
      }
      var o := Pick(target.name, target.row, target.col);
      outcome := Some(o);
    }
  }

  // ------------------------------------------------------------- masked view

  /** One entry of the board sent to the template. */
  datatype DisplayTile = DisplayTile(row: int, col: int, value: string, pickedBy: Option<string>)

  /** An unpicked tile is shown as the default tile; a picked one shows its stored value. */
  function Display(k: Config, row: int, col: int, t: TileRec): DisplayTile
  {
    DisplayTile(row, col, if t.pickedBy.None? then k.defaultTile else t.value, t.pickedBy)
  }

  /** Row r of `get_masked_board_state` over the columns below c; cells with no tile are skipped. */
  function MaskedRow(k: Config, tiles: Tiles, r: int, c: nat): seq<DisplayTile>
  {
    if c == 0 then []
    else MaskedRow(k, tiles, r, c - 1) +
         (if (r, c - 1) in tiles then [Display(k, r, c - 1, tiles[(r, c - 1)])] else [])
  }

  /** `get_masked_board_state` over the rows below r. */
  function MaskedRows(k: Config, tiles: Tiles, r: nat): seq<seq<DisplayTile>>
    requires k.boardSize >= 0
  {
    if r == 0 then [] else MaskedRows(k, tiles, r - 1) + [MaskedRow(k, tiles, r - 1, k.boardSize)]
  }

  /** Every shown entry is a stored tile of that row; unpicked ones show the default tile, picked ones their value. */
  lemma {:induction false} MaskedRowFaithful(k: Config, tiles: Tiles, r: int, c: nat)
    ensures forall i :: 0 <= i < |MaskedRow(k, tiles, r, c)| ==>
      var d := MaskedRow(k, tiles, r, c)[i];
      && d.row == r && 0 <= d.col < c && (d.row, d.col) in tiles
      && d.pickedBy == tiles[(d.row, d.col)].pickedBy
      && d.value == (if d.pickedBy.None? then k.defaultTile else tiles[(d.row, d.col)].value)
  {
    if c > 0 {
      MaskedRowFaithful(k, tiles, r, c - 1);
    }
  }

  /** On a full board row r shows every column, in order. */
  lemma {:induction false} MaskedRowFull(k: Config, tiles: Tiles, r: int, c: nat)
    requires FullBoard(k, tiles) && 0 <= r < k.boardSize && c <= k.boardSize
    ensures |MaskedRow(k, tiles, r, c)| == c
    ensures forall i :: 0 <= i < c ==> MaskedRow(k, tiles, r, c)[i] == Display(k, r, i, tiles[(r, i)])
  {
    if c > 0 {
      MaskedRowFull(k, tiles, r, c - 1);
    }
  }

  /** The label of a treasure nobody has picked is never sent to the browser. */
  lemma MaskedHidesUnpicked(k: Config, tiles: Tiles, r: int, i: nat)
    requires k.boardSize >= 0
    requires i < |MaskedRow(k, tiles, r, k.boardSize)|
    ensures var d := MaskedRow(k, tiles, r, k.boardSize)[i];
      (d.row, d.col) in tiles && (tiles[(d.row, d.col)].pickedBy.None? ==> d.value == k.defaultTile)
  {
    MaskedRowFaithful(k, tiles, r, k.boardSize);
  }

  /** `get_masked_board_state(tiles)`: the tiles indexed by cell, then one list per row. */
  method GetMaskedBoardState(k: Config, tiles: Tiles) returns (board: seq<seq<DisplayTile>>)
    requires k.boardSize >= 0
    ensures board == MaskedRows(k, tiles, k.boardSize)
    ensures |board| == k.boardSize
  {
    board := [];
    var r := 0;
    while r < k.boardSize
      invariant 0 <= r <= k.boardSize
      invariant board == MaskedRows(k, tiles, r)
      invariant |board| == r
    {
      var rowData := [];
      var c := 0;
      while c < k.boardSize
        invariant 0 <= c <= k.boardSize
        invariant rowData == MaskedRow(k, tiles, r, c)
      {
        if (r, c) in tiles {
          rowData := rowData + [Display(k, r, c, tiles[(r, c)])];
        }
        c := c + 1;
      }
      board := board + [rowData];
      r := r + 1;
    }
  }
}
