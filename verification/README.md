# Treasure Hunt Game — a verified Dafny model of its core

The Treasure Hunt Game is a two-player game. An n×n board hides treasure chains. Chain v is
v cells labelled `v`, running in a straight line up, down, left or right, and wrapping around
the board edges. Players pick cells one at a time and score the label under each cell they
pick. The game exists in two versions. A socket version has a `Board` and a `Player` class
and exchanges compact binary messages. A web version stores tiles and players in database
tables.

This project models the core of both versions and proves properties of the model:

- `BoardSpec` (`board_spec.dfy`): the board as a value, as a grid of
  `Untouched | Picked | Label(v)` cells standing for `'_'`, `' '` and `str(v)`.
  It defines the placement walk, the two nested retry loops of `place_treasure`, `pick`,
  `mask_board` and `__str__`, and states their invariants as lemmas.
- `TreasureBoard` (`board.dfy`): the `Board` class itself. The board is an `array2<Tile>`
  that is updated in place. Each method (constructor, placement loops, `pick`,
  `mask_board`) is proved equal to its `BoardSpec` function.
- `Players` (`player.dfy`): the `Player` class with its mutable score, and the score
  ledger over a run of `add_score` calls.
- `Bits`, `Utf8`, `NetworkFunctions` (`bits.dfy`, `utf8.dfy`, `network_functions.dfy`): the
  wire codecs.
  - The move byte `(row << 4) | col`.
  - Two 7-bit scores packed in a 16-bit word, and the out-of-bounds sentinel word.
  - `validate_row_col` and `is_empty_buffer`.
  - Strings framed by a big-endian length prefix (`struct` formats `!H` and `!B`), with the
    body UTF-8 encoded.
- `WebModels` (`web_models.dfy`): the field validators of the web version and
  `Tile.is_treasure`.
- `WebGameplay` (`web_gameplay.dfy`): the web `pick` view as a state machine over a tile
  map and a score map. It also covers the request parsing and `get_masked_board_state`.
- `Text`, `Arith`, `Wrappers`: shared helpers.
  - `Text` renders and parses decimal numbers, provides `join` and whitespace tests.
  - `Arith` holds facts about Euclidean division.
  - `Wrappers` defines `Option`, `Result` and `Outcome`.

Randomness is replaced by an oracle: `place_treasure` consumes a given sequence of draws
(start row, start column, direction). The web constants module is not part of this model.
Its values are a `Config` parameter, constrained only by `ValidConfig`, which states what
the views rely on.

## Model

| member | source | states |
|---|---|---|
| BoardSpec.TileTextFaithful | Board.py:25-89 | '_' and ' ' are exactly the untouched and picked cells; a label's text parses back to its value; distinct cells have distinct texts |
| BoardSpec.Blank | Board.py:25 | the fresh board is n×n and every cell is '_' |
| BoardSpec.Step | Board.py:54-60 | one move in the drawn direction, reduced modulo n, stays on the board |
| BoardSpec.Walk | Board.py:50-60 | the walk of a draw has v cells and cell i is ((row + i·dr) mod n, (col + i·dc) mod n) |
| BoardSpec.WalkIsStraight | Board.py:41-60 | the walk starts at (row mod n, col mod n) and each next cell is one wrapped step in the drawn direction |
| BoardSpec.WalkDistinct | Board.py:53-60 | a walk of at most n steps never visits a cell twice |
| BoardSpec.WalkSetSize | Board.py:53-60 | a walk of v ≤ n steps covers exactly v cells |
| BoardSpec.TryAttempt | Board.py:50-66 | one try of the inner loop keeps the board n×n; it is the definition TryAttemptEffect, AttemptPreservesChains and TreasureBoard.Board.TryPlace are about |
| BoardSpec.TryAttemptEffect | Board.py:50-66 | one try places the label iff all v walk cells are '_'; it then writes the label in all of them, changes no other cell, and never overwrites a taken cell |
| BoardSpec.PlaceLoop | Board.py:43-66 | the retry loops never report more labels left than they started with, and with fewer draws than labels some label stays unplaced |
| BoardSpec.AttemptPreservesChains | Board.py:50-66 | one try keeps the invariant: every placed label covers exactly its recorded walk and every other cell is '_' |
| BoardSpec.PlaceLoopPreservesChains | Board.py:43-66 | the whole retry loop keeps that invariant |
| BoardSpec.ChainCells | Board.py:62-64 | under the invariant, the cells holding label v are exactly the v cells of its walk |
| BoardSpec.LabelsBetweenSize | Board.py:43-66 | under the invariant, labels lo+1..hi occupy (hi+…+1) − (lo+…+1) cells |
| BoardSpec.PlacementCounts | Board.py:28-66 | after placement each placed label v occupies exactly v cells forming its straight wrapped walk, every other cell is '_', and with all labels placed exactly t+…+1 cells are taken |
| BoardSpec.PickOn | Board.py:82-89 | the board after a pick is still n×n |
| BoardSpec.PickEffect | Board.py:82-89 | out of range fails and changes nothing; in range returns int(label), or 0 for '_' or ' ', leaves ' ' in that cell and no other cell changes |
| BoardSpec.PickIdempotent | Board.py:85-89 | picking the same cell again returns 0 and leaves the board unchanged |
| BoardSpec.PickOnChainReturnsLabel | Board.py:62-89 | on a freshly placed board, picking any cell of chain v returns v |
| BoardSpec.MaskRowShape | Board.py:110-116 | a masked row has 2n characters: per cell ' ' if picked, '_' otherwise, then a space |
| BoardSpec.MaskRowAlphabet | Board.py:110-116 | a masked row uses only '_' and ' ' |
| BoardSpec.MaskAlphabet | Board.py:99-117 | the masked board contains only '_', ' ' and newlines, so never a digit |
| BoardSpec.MaskLength | Board.py:108-117 | the masked board of an n×n grid has n rows of 2n characters joined by n-1 newlines |
| BoardSpec.MaskHidesLabels | Board.py:99-117 | two boards with the same picked cells mask to the same text, whatever their labels |
| BoardSpec.MaskRowsAgree | Board.py:110-116 | two rows with the same picked cells mask to the same row text |
| BoardSpec.Mask | Board.py:99-117 | the masked board text; no contract of its own, it is the definition MaskAlphabet, MaskLength, MaskHidesLabels and TreasureBoard.Board.MaskBoard are about |
| BoardSpec.JoinSingles | Board.py:97 | joining one-character cells with a separator alternates cell and separator |
| BoardSpec.RenderRowShape | Board.py:97 | with single-digit labels, a rendered row shows each cell's text separated by single spaces |
| BoardSpec.Render | Board.py:91-97 | the `__str__` text: rows of space-separated tile texts joined by newlines; no contract of its own, it is the definition RenderRowShape is about |
| TreasureBoard.CheckParams | Board.py:19-21 | accepts exactly n ≥ 2 with t a digit string whose value is in 1..n; otherwise the error of the first failing check |
| TreasureBoard.Board.constructor | Board.py:23-26 | the board is n×n, t = int(t), and its cells are the placement loop run on the blank board |
| TreasureBoard.Board.Create | Board.py:18-26 | fails exactly when the argument checks fail, with their error; otherwise a fresh, placed board |
| TreasureBoard.Board.CollectWalk | Board.py:50-60 | the cells collected are a prefix of the walk, and all v are collected iff all v walk cells are '_' |
| TreasureBoard.Board.WriteLabel | Board.py:63-64 | exactly the listed cells now hold the label; the rest are unchanged |
| TreasureBoard.Board.TryPlace | Board.py:50-66 | one try updates the array exactly as the pure try does and reports whether it placed |
| TreasureBoard.Board.PlaceLabel | Board.py:44-66 | the inner retry loop draws until label v is placed or the draws run out, consistently with the pure loop |
| TreasureBoard.Board.PlaceTreasure | Board.py:28-66 | the in-place placement leaves the array equal to the pure placement and returns the label left unplaced |
| TreasureBoard.Board.Pick | Board.py:68-89 | the returned value and the new array are those of the pure pick |
| TreasureBoard.Board.MaskBoard | Board.py:99-117 | the string built cell by cell is the masked board |
| TreasureBoard.Board.ToString | Board.py:91-97 | `__str__` of the board: BoardSpec.Render of the cells; no contract of its own, its shape is stated by BoardSpec.RenderRowShape |
| Players.AddScoreSpec | Player.py:28-40 | a negative delta fails and keeps the score; otherwise the score grows by exactly the delta |
| Players.ApplyAllIsAcceptedSum | Player.py:36-40 | over any run of add_score calls the score is the start plus the accepted deltas: it never decreases and stays ≥ 0 |
| Players.Describe | Player.py:56-57 | the text is "Player " + name + " \|  Score: " followed by the score in decimal |
| Players.Player.constructor | Player.py:22-23 | a new player keeps the given name and has score 0 |
| Players.Player.Create | Player.py:17-23 | fails exactly for a name that is empty once the characters `str.strip()` removes are stripped (the full `str.isspace` set, 0x1C-0x1F and the Unicode spaces included); otherwise a fresh player with score 0 |
| Players.Player.AddScore | Player.py:28-40 | the outcome and new score are those of AddScoreSpec; the score never decreases |
| Players.Player.GetScore | Player.py:45-54 | returns the score, which is never negative, and changes nothing |
| Players.Player.ToString | Player.py:56-57 | `__str__` of a player: Players.Describe of its name and score; no contract of its own, Describe's ensures state the text |
| NetworkFunctions.IsEmptyBuffer | network_functions.py:14-21 | true exactly for b'', '' and 0 |
| NetworkFunctions.PackMove | network_functions.py:143 | the move byte (row << 4) \| col; no contract of its own, it is the definition MoveRoundTrip and ValidatedMoveRoundTrip are about |
| NetworkFunctions.ByteSegmentToSpace | network_functions.py:24-35 | negative input fails; otherwise (bits 7-4, bits 3-0), both in 0..15 |
| NetworkFunctions.MoveRoundTrip | network_functions.py:143 | for row, col in 0..15 the move (row << 4) \| col fits one byte and decodes back to (row, col) |
| NetworkFunctions.ScoreIntoByte | network_functions.py:38-47 | negative input fails; otherwise score mod 128, equal to the score when it is below 128 |
| NetworkFunctions.GetPlayerScores | network_functions.py:50-61 | negative input fails; otherwise (bits 13-7, bits 6-0), both in 0..127 |
| NetworkFunctions.ScoresRoundTrip | network_functions.py:50-61 | two 7-bit scores packed as (a << 7) \| b unpack to (a, b), and the word is below 2^14 |
| NetworkFunctions.ScoresArriveModulo128 | network_functions.py:38-61 | scores sent through score_into_byte arrive as each score mod 128 |
| NetworkFunctions.OutOfBoundsIsDistinct | network_functions.py:11 | the sentinel differs from every packed pair of 7-bit scores and unpacks to (0, 0) |
| NetworkFunctions.ValidateRowCol | network_functions.py:112-126 | true iff both arguments convert to integers in 0..15; anything unparseable is false |
| NetworkFunctions.ValidatedMoveRoundTrip | network_functions.py:142-143 | every move validate_row_col accepts packs into one byte that decodes back |
| NetworkFunctions.UnpackBigEndian | network_functions.py:105 | unpacking the big-endian bytes of n gives back n |
| NetworkFunctions.Pack | network_functions.py:180 | struct.pack succeeds iff the flag is in FORMAT_MAP and the value fits its width; the bytes have that width and unpack to the value |
| NetworkFunctions.EncodeFrame | network_functions.py:179-182 | framing succeeds iff the flag is known and the character count fits; the frame is the packed count followed by the encoded text |
| NetworkFunctions.DecodeFrame | network_functions.py:96-109 | an unknown flag is refused; a prefix or a body cut short gives ''; the only failures are the flag error and a body that is not valid UTF-8 |
| NetworkFunctions.EncodeFrameLayout | network_functions.py:180-182 | with '!H' the frame is [count div 256, count mod 256] followed by the encoded text |
| NetworkFunctions.EncodeFrameTooLong | network_functions.py:180 | framing fails exactly for 65536 or more characters with '!H', and 256 or more with '!B' |
| NetworkFunctions.AsciiFrameRoundTrip | network_functions.py:167-185 | an ASCII string that fits is received intact, whatever bytes follow it |
| NetworkFunctions.EmptyFrame | network_functions.py:101-109 | the empty string frames as [0, 0] and reads back as '' |
| NetworkFunctions.NonAsciiFrameFails | network_functions.py:180-182 | "é" is framed as [0, 1, 0xC3, 0xA9] and the receiver fails to decode it |
| NetworkFunctions.EncodeFrameBytes | network_functions.py:179-182 | the frame with the prefix counting encoded bytes |
| NetworkFunctions.FrameBytesRoundTrip | network_functions.py:101-109 | with a byte-count prefix every string that fits is received intact |
| NetworkFunctions.FrameBytesAgreesOnAscii | network_functions.py:180 | for ASCII text the byte-count frame is the frame written today |
| Utf8.DecodeEncode | network_functions.py:182 | decoding the UTF-8 encoding of a string gives it back |
| Utf8.AsciiEncodeLength | network_functions.py:180-182 | a string encodes to one byte per character iff it is ASCII |
| WebModels.ValidateColRange | website/game/models.py:21-23 | passes iff MIN_BOARD_SIZE ≤ value ≤ DEFAULT_BOARD_SIZE, upper bound included |
| WebModels.ValidateRowRange | website/game/models.py:25-27 | passes iff MIN_BOARD_SIZE ≤ value ≤ DEFAULT_BOARD_SIZE, upper bound included |
| WebModels.ValidateTileCharLength | website/game/models.py:29-31 | fails iff the value is longer than MAX_TILE_LENGTH |
| WebModels.ValidateUniqueName | website/game/models.py:34-37 | fails iff the name is already taken |
| WebModels.ValidatePlayerNameChars | website/game/models.py:39-40 | passes iff the name is one or more of [A-Za-z0-9_], optionally followed by one newline |
| WebModels.NameCharsAcceptsTrailingNewline | website/game/models.py:40 | "alice\n" passes the character check although it holds a newline |
| WebModels.ValidatePlayerNameCharsStrict | website/game/models.py:40 | passes iff the name is one or more of [A-Za-z0-9_] |
| WebModels.StrictNameCharsIsTighter | website/game/models.py:40 | the anchored check accepts only names the written check accepts, and none with a newline |
| WebModels.ValidateMaxPlayers | website/game/models.py:42-45 | fails iff the stored player count is at least MAX_PLAYERS |
| WebModels.ValidatePlayerNameLength | website/game/models.py:47-49 | fails iff the name is longer than MAX_PLAYER_NAME_LENGTH |
| WebModels.IsTreasure | website/game/models.py:83-88 | true iff the value converts to a number in 1..DEFAULT_TREASURE_COUNT; false for anything that is not a number |
| WebModels.ValidateTileValue | website/game/models.py:51-58 | every refusal is the bad-tile-value error |
| WebModels.TileValueAccepted | website/game/models.py:51-58 | a tile value passes iff it is a treasure label, or not a number and one of DEFAULT_TILE, PICKED_TILE, FOUND_TREASURE |
| WebModels.TreasureIsValidTileValue | website/game/models.py:51-88 | every treasure label is a valid tile value, and the marker values are never treasure |
| WebModels.LabelIsTreasure | website/game/views/views_game_control.py:63 | the label str(v) written for v in 1..DEFAULT_TREASURE_COUNT is treasure |
| WebGameplay.FirstComma | website/game/views/views_gameplay.py:95 | the index of the first comma: none before it, a comma at it |
| WebGameplay.ParseTile | website/game/views/views_gameplay.py:95-96 | a tile string parses only when it has exactly one comma |
| WebGameplay.CommaCountAppend | website/game/views/views_gameplay.py:95 | the commas of a concatenation add up |
| WebGameplay.DigitsHaveNoComma | website/game/views/views_gameplay.py:95 | a decimal number contains no comma |
| WebGameplay.FirstCommaAfter | website/game/views/views_gameplay.py:95 | in a + "," + b with no comma in a, the first comma is at index \|a\| |
| WebGameplay.ParseTileRoundTrip | website/game/views/views_gameplay.py:92-96 | the "row,col" text of a cell parses back to that cell |
| WebGameplay.ParseTileNeedsOneComma | website/game/views/views_gameplay.py:95-98 | a tile string with no comma or more than one is refused |
| WebGameplay.ResolveRequest | website/game/views/views_gameplay.py:87-101 | the player name is the URL name when it is non-empty, otherwise on POST the form's player_name; a missing or empty name, a malformed tile string, or (without a posted tile) a missing URL row or column redirects; otherwise it is a pick, at the posted tile when one is posted and at the URL row and column otherwise |
| WebGameplay.ValidateRowOnBoard | website/game/models.py:25-27 | the corrected row check of the inclusive-bound finding: passes iff MIN_BOARD_SIZE ≤ row < DEFAULT_BOARD_SIZE, the rows `start_game` creates |
| WebGameplay.ValidateColOnBoard | website/game/models.py:21-23 | the corrected column check of the inclusive-bound finding: passes iff MIN_BOARD_SIZE ≤ col < DEFAULT_BOARD_SIZE, the columns `start_game` creates |
| WebGameplay.ApplyPick | website/game/views/views_gameplay.py:103-140 | the pick body given the outcomes of the two range checks; no contract of its own, it is the definition ApplyPickPrecedence and ApplyPickScoresMonotone are about |
| WebGameplay.PickAsWritten | website/game/views/views_gameplay.py:103-140 | the pick with the inclusive range checks the view calls; no contract of its own, it is the definition PickErrorPrecedence, PickMarkedTile, PickScoresMonotone and PickAtBoardSizeMissesTile are about |
| WebGameplay.PickRule | website/game/views/views_gameplay.py:103-140 | the pick with the corrected exclusive range checks; no contract of its own, it is the definition PickNeverMissesTile, PickTreasure, PickDefaultTile and WebGameplay.GameState.Pick are about |
| WebGameplay.PickErrorsChangeNothing | website/game/views/views_gameplay.py:103-134 | an unknown player, a range error, an already claimed treasure or a missing tile changes no tile and no score |
| WebGameplay.ApplyPickPrecedence | website/game/views/views_gameplay.py:105-119 | whatever the range checks, an unknown player is reported first, then the column error over the row error, and with both checks passed no error message is set |
| WebGameplay.PickErrorPrecedence | website/game/views/views_gameplay.py:105-119 | with the inclusive checks the view calls, and with the corrected ones, an unknown player is reported first; otherwise the column error wins over the row error, because it is assigned last |
| WebGameplay.PickMarkedTile | website/game/views/views_gameplay.py:125-131 | picking a non-treasure tile that no longer holds DEFAULT_TILE answers "No treasure" and changes no tile and no score, under either range check |
| WebGameplay.PickDefaultTile | website/game/views/views_gameplay.py:125-131 | picking a DEFAULT_TILE sets it to PICKED_TILE, records the picker and changes no score |
| WebGameplay.PickTreasure | website/game/views/views_gameplay.py:132-140 | picking an unclaimed treasure adds its value to that player alone, keeps the value and records the picker |
| WebGameplay.TreasureScoresOnce | website/game/views/views_gameplay.py:133-134 | once claimed, a treasure never scores again, whoever picks it |
| WebGameplay.ApplyPickScoresMonotone | website/game/views/views_gameplay.py:103-140 | whatever the range checks, a pick never lowers any score, keeps the set of players, and changes only the picker's score |
| WebGameplay.PickScoresMonotone | website/game/views/views_gameplay.py:103-140 | for the view as written and for the corrected checks, a pick never lowers any score, keeps the set of players, and changes only the picker's score |
| WebGameplay.PickAllScoresMonotone | website/game/views/views_gameplay.py:103-140 | over any run of picks, as written or corrected, no score decreases and the set of players is unchanged |
| WebGameplay.ScoresAccumulate | website/game/views/views_gameplay.py:136 | two unclaimed treasures on the board picked in turn by one player add both values to that player's score, as written or corrected |
| WebGameplay.PickAtBoardSizeMissesTile | website/game/views/views_gameplay.py:112-123 | with the checks as written, row = DEFAULT_BOARD_SIZE passes validation on a full board and the tile lookup fails |
| WebGameplay.PickNeverMissesTile | website/game/views/views_gameplay.py:112-123 | with exclusive checks, a pick on the full board never looks up a tile that does not exist |
| WebGameplay.PickAgreesInsideBoard | website/game/views/views_gameplay.py:112-140 | away from row and column DEFAULT_BOARD_SIZE the corrected pick is the pick as written |
| WebGameplay.GameState.constructor | website/game/views/views_gameplay.py:103-104 | the state holds the given configuration, tiles and scores |
| WebGameplay.GameState.Pick | website/game/views/views_gameplay.py:103-140 | the in-place update of the tables and the outcome are those of the pick rule, and no score decreases |
| WebGameplay.GameState.HandleRequest | website/game/views/views_gameplay.py:87-140 | a redirect changes nothing; otherwise the resolved pick is applied |
| WebGameplay.MaskedRowFaithful | website/game/views/views_gameplay.py:15-36 | every shown entry is a stored tile of that row; an unpicked one shows DEFAULT_TILE and a picked one its stored value |
| WebGameplay.MaskedRowFull | website/game/views/views_gameplay.py:19-34 | on a full board each row shows every column, in order |
| WebGameplay.MaskedHidesUnpicked | website/game/views/views_gameplay.py:31-32 | the label of a tile nobody has picked is never shown |
| WebGameplay.GetMaskedBoardState | website/game/views/views_gameplay.py:15-36 | the board built by the nested loops is the masked projection, with DEFAULT_BOARD_SIZE rows |

## Left out

- Argument type checks (`type(n) != int`, `type(row) != int`, `type(name) != str`, `type(flag) != str`) are not modelled, because Dafny's types rule out those inputs.
- The default arguments of `Board(n=10, t='4')` are not modelled; callers pass both.
- TreasureBoard.Board.PlaceTreasure: it runs on a finite sequence of draws. When the draws run out it returns the label still unplaced, where the source keeps drawing at random forever. `random.randint` and `random.choice` are outside the model, so no termination probability is claimed.
- BoardSpec.PlaceLoop: it is defined on a finite oracle of draws for the same reason, so its counts hold for the labels actually placed (all of them when `remaining` is 0).
- `int()` accepts surrounding whitespace, underscores and non-ASCII digits; `str.isdigit()` accepts non-ASCII digits. Here both take ASCII decimal digits only (with an optional sign for `int()`).
- Socket and asyncio transport is not modelled: `receive`, the `readexactly` calls, `pack_and_write_data`, `send_row_col` (console input) and `writer.drain`. The framing is modelled as pure functions over the bytes on the stream.
- NetworkFunctions.DecodeFrame: a stream shorter than announced yields '' as the length checks at lines 103-108 intend. `readexactly` would raise instead.
- Only the `!H` and `!B` struct formats of FORMAT_MAP are modelled.
- `Board.__str__` (`TreasureBoard.Board.ToString`) is a pure join. Its shape is proved only for single-digit labels (BoardSpec.RenderRowShape), because a longer label widens its cell.
- The zlib compression of the board in the test harness, and its check that a full game scores 16+9+4+1 = 30 points, are not modelled.
- Django, DRF, Channels and UI plumbing is not modelled: ORM queries, transactions, row locks, rendering, cookies, redirects as HTTP responses. The set of taken names and the player count are parameters.
- The web version's placement (`start_game`) repeats `place_treasure`, so it is modelled once, from Board.py. FullBoard states the tiles it creates.
- The server arbiter, queues and acceptor are not part of this model.
- The web constants module is not part of this model. Its values are the `Config` parameter.
- WebGameplay.GameState.Pick: it runs the pick with exclusive row and column bounds (WebGameplay.PickRule), not the inclusive checks the view calls. The rule as written is WebGameplay.PickAsWritten; see Findings.
- WebGameplay.GameState.HandleRequest: it runs WebGameplay.PickRule, so a request for row or column DEFAULT_BOARD_SIZE answers a range error, where the view as written raises DoesNotExist from `Tile.objects.get` (WebGameplay.PickAtBoardSizeMissesTile).
- WebModels.ValidatePlayerNameChars: follows Python's `$`, which also matches before a final newline. WebModels.ValidatePlayerNameCharsStrict is the intended check; see Findings.

## Findings

| source | as written | input that shows it | evidently intended | confidence | as-written member | corrected member |
|---|---|---|---|---|---|---|
| network_functions.py:180 | the length prefix is `len(string)`, a count of characters, while the receiver reads that many bytes of UTF-8 | the string "é" is framed as [0, 1, 0xC3, 0xA9]; the receiver reads the single byte 0xC3 and decoding fails | the prefix counts the bytes of `string.encode()` | not executed; high | NetworkFunctions.NonAsciiFrameFails | NetworkFunctions.FrameBytesRoundTrip |
| website/game/models.py:21-27 | the row and column checks used by `pick` accept a value equal to DEFAULT_BOARD_SIZE | a pick at row DEFAULT_BOARD_SIZE, column MIN_BOARD_SIZE passes both checks; `start_game` made no tile there, so `Tile.objects.get` raises DoesNotExist | the board size is an exclusive bound, as for the tiles created | not executed; high | WebGameplay.PickAtBoardSizeMissesTile | WebGameplay.PickNeverMissesTile |
| website/game/models.py:40 | the pattern `^[A-Za-z0-9_]+$` is searched with `$`, which also matches just before a final newline | the name "alice\n" passes the character check | names made only of letters, digits and underscores | not executed; medium | WebModels.NameCharsAcceptsTrailingNewline | WebModels.StrictNameCharsIsTighter |
