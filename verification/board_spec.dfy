/**
 * Pure specification of the treasure board of Board.py: the tiles, the toroidal
 * placement walk, one placement attempt and the retry loop over an oracle of random
 * draws, `pick`, `mask_board` and `__str__`, all on board values (`Grid`).
 * The class in board.dfy is proved against these functions.
 */
module BoardSpec {
  import opened Wrappers
  import opened Text
  import opened Arith

  /** A board cell: '_' (untouched), ' ' (picked) or the decimal label of a treasure chain. */
  datatype Tile = Untouched | Picked | Label(v: nat)

  /** The board as rows of tiles; `g[r][c]` is `self.board[r][c]`. */
  type Grid = seq<seq<Tile>>

  type Cell = (int, int)

  /** The string Board.py keeps in the cell. */
  function TileText(t: Tile): string
  {
    match t
    case Untouched => "_"
    case Picked => " "
    case Label(v) => NatToString(v)
  }

  /** What `pick` returns for a tile: 0 for '_' and ' ', `int(label)` otherwise. */
  function TileValue(t: Tile): nat
  {
    match t
    case Label(v) => v
    case _ => 0
  }

  /** The tile strings tell the three kinds apart, and `int()` of a label's string is the label. */
  lemma TileTextFaithful(t: Tile, u: Tile)
    ensures TileText(t) == "_" <==> t == Untouched
    ensures TileText(t) == " " <==> t == Picked
    ensures t.Label? ==> ParseNat(TileText(t)) == Some(TileValue(t))
    ensures TileText(t) == TileText(u) ==> t == u
  {
    if t.Label? { NatToStringRoundTrip(t.v); }
    if t.Label? && u.Label? && TileText(t) == TileText(u) { NatToStringInjective(t.v, u.v); }
    if t.Label? { assert IsDigitChar(TileText(t)[0]); }
    if u.Label? { assert IsDigitChar(TileText(u)[0]); }
  }

  // ---------------------------------------------------------------- geometry

  datatype Direction = Up | Down | Left | Right

  function DeltaRow(d: Direction): int
  {
    match d
    case Up => -1
    case Down => 1
    case _ => 0
  }

  function DeltaCol(d: Direction): int
  {
    match d
    case Left => -1
    case Right => 1
    case _ => 0
  }

  /** One random draw of the retry loop: `randint(0, n-1)` twice and `choice(directions)`. */
  datatype Attempt = Attempt(row: int, col: int, dir: Direction)

  predicate IsSquare(g: Grid, n: nat)
  {
    |g| == n && forall r :: 0 <= r < n ==> |g[r]| == n
  }

  predicate InBoard(p: Cell, n: nat)
  {
    0 <= p.0 < n && 0 <= p.1 < n
  }

  function At(g: Grid, p: Cell): Tile
    requires 0 <= p.0 < |g| && 0 <= p.1 < |g[p.0]|
  {
    g[p.0][p.1]
  }

  /** The freshly built board: n rows of n '_' tiles. */
  function Blank(n: nat): (g: Grid)
    ensures IsSquare(g, n)
    ensures forall r, c :: 0 <= r < n && 0 <= c < n ==> g[r][c] == Untouched
  {
    seq(n, _ => seq(n, _ => Untouched))
  }

  /** Two square boards that agree on every cell are equal. */
  lemma SquareExt(g1: Grid, g2: Grid, n: nat)
    requires IsSquare(g1, n) && IsSquare(g2, n)
    requires forall r, c :: 0 <= r < n && 0 <= c < n ==> g1[r][c] == g2[r][c]
    ensures g1 == g2
  {
    forall r | 0 <= r < n ensures g1[r] == g2[r] {
    }
  }

  /** One wrapped step: move by the direction, then reduce both coordinates modulo n. */
  function Step(p: Cell, d: Direction, n: nat): (q: Cell)
    requires n > 0
    ensures InBoard(q, n)
  {
    ((p.0 + DeltaRow(d)) % n, (p.1 + DeltaCol(d)) % n)
  }

  /** The i-th cell the placement walk of attempt `a` visits. */
  function WalkCell(a: Attempt, i: int, n: nat): (p: Cell)
    requires n > 0
    ensures InBoard(p, n)
  {
    ((a.row + i * DeltaRow(a.dir)) % n, (a.col + i * DeltaCol(a.dir)) % n)
  }

  /** The first v cells of the walk. */
  function Walk(a: Attempt, v: nat, n: nat): (w: seq<Cell>)
    requires n > 0
    ensures |w| == v
    ensures forall i :: 0 <= i < v ==> w[i] == WalkCell(a, i, n)
  {
    seq(v, i requires 0 <= i < v => WalkCell(a, i, n))
  }

  /** The cells of the walk as a set. */
  function WalkSet(a: Attempt, v: nat, n: nat): set<Cell>
    requires n > 0
  {
    set p | p in Walk(a, v, n)
  }

  lemma ModAddLeft(x: int, d: int, n: int)
    requires n > 0
    ensures ((x % n) + d) % n == (x + d) % n
  {
    var m := (x % n) + d;
    ModUnique(m, m / n, m % n, n);
    ModUnique(x + d, x / n + m / n, m % n, n);
  }

  /** Two positions less than n apart along a line never wrap onto the same cell. */
  lemma ModDistinct(x: int, i: int, j: int, d: int, n: int)
    requires n > 0 && (d == 1 || d == -1)
    requires 0 <= i < n && 0 <= j < n
    requires (x + i * d) % n == (x + j * d) % n
    ensures i == j
  {
    var y1, y2 := x + i * d, x + j * d;
    var q1, q2, m := y1 / n, y2 / n, y1 % n;
    assert y1 == q1 * n + m && y2 == q2 * n + m;
    var e := if d == 1 then i - j else j - i;
    assert y1 - y2 == e;
    assert (q1 - q2) * n == e;
    ZeroMultiple(q1 - q2, n, e);
  }

  /**
   * The walk starts at the drawn cell (taken modulo n) and each next cell is one
   * wrapped step on from the previous one: a chain is a straight, possibly wrapped run.
   */
  lemma WalkIsStraight(a: Attempt, i: nat, n: nat)
    requires n > 0
    ensures WalkCell(a, 0, n) == (a.row % n, a.col % n)
    ensures WalkCell(a, i + 1, n) == Step(WalkCell(a, i, n), a.dir, n)
  {
    var dr, dc := DeltaRow(a.dir), DeltaCol(a.dir);
    ModAddLeft(a.row + i * dr, dr, n);
    ModAddLeft(a.col + i * dc, dc, n);
    assert a.row + i * dr + dr == a.row + (i + 1) * dr;
    assert a.col + i * dc + dc == a.col + (i + 1) * dc;
  }

  /** A walk of at most n steps visits pairwise distinct cells. */
  lemma WalkDistinct(a: Attempt, i: int, j: int, n: nat)
    requires 0 <= i < n && 0 <= j < n
    requires WalkCell(a, i, n) == WalkCell(a, j, n)
    ensures i == j
  {
    match a.dir
    case Up => ModDistinct(a.row, i, j, -1, n);
    case Down => ModDistinct(a.row, i, j, 1, n);
    case Left => ModDistinct(a.col, i, j, -1, n);
    case Right => ModDistinct(a.col, i, j, 1, n);
  }

  lemma {:induction false} DistinctSeqSetSize<T>(s: seq<T>)
    requires forall i, j :: 0 <= i < j < |s| ==> s[i] != s[j]
    ensures |set x | x in s| == |s|
  {
    if s != [] {
      var init := s[..|s| - 1];
      DistinctSeqSetSize(init);
      assert (set x | x in s) == (set x | x in init) + {s[|s| - 1]};
      assert s[|s| - 1] !in (set x | x in init);
    }
  }

  /** A walk of v <= n steps covers exactly v cells. */
  lemma WalkSetSize(a: Attempt, v: nat, n: nat)
    requires 0 < n && v <= n
    ensures |WalkSet(a, v, n)| == v
  {
    var w := Walk(a, v, n);
    forall i, j | 0 <= i < j < |w| ensures w[i] != w[j] {
      if w[i] == w[j] { WalkDistinct(a, i, j, n); }
    }
    DistinctSeqSetSize(w);
  }

  // ---------------------------------------------------------------- placement

  /** Every cell of the walk is still '_' (the inner `for` loop of `place_treasure` does not break). */
  predicate AllFree(g: Grid, n: nat, a: Attempt, v: nat)
    requires n > 0 && IsSquare(g, n)
  {
    forall i :: 0 <= i < v ==> At(g, WalkCell(a, i, n)) == Untouched
  }

  /** `g` with every cell listed in `cells` overwritten by `mark`. */
  function Stamp(g: Grid, n: nat, cells: seq<Cell>, mark: Tile): (g': Grid)
    requires IsSquare(g, n)
    ensures IsSquare(g', n)
  {
    seq(n, r requires 0 <= r < n => seq(n, c requires 0 <= c < n => if (r, c) in cells then mark else g[r][c]))
  }

  datatype AttemptResult = AttemptResult(placed: bool, grid: Grid)

  /**
   * One iteration of the inner `while not placed` loop: walk v cells from the drawn
   * start; write `str(v)` into all of them only when none was taken.
   */
  function TryAttempt(g: Grid, n: nat, v: nat, a: Attempt): (res: AttemptResult)
    requires n > 0 && IsSquare(g, n)
    ensures IsSquare(res.grid, n)
  {
    if AllFree(g, n, a, v) then AttemptResult(true, Stamp(g, n, Walk(a, v, n), Label(v)))
    else AttemptResult(false, g)
  }

  /**
   * What one try does: it places exactly when all v walk cells are '_', then they all hold
   * the label; no cell off the walk changes and no taken cell is ever overwritten.
   */
  lemma TryAttemptEffect(g: Grid, n: nat, v: nat, a: Attempt)
    requires n > 0 && IsSquare(g, n)
    ensures var res := TryAttempt(g, n, v, a);
      && (res.placed <==> AllFree(g, n, a, v))
      && (!res.placed ==> res.grid == g)
      && (res.placed ==> forall i :: 0 <= i < v ==> At(res.grid, WalkCell(a, i, n)) == Label(v))
      && (forall r, c :: 0 <= r < n && 0 <= c < n && (r, c) !in Walk(a, v, n) ==> res.grid[r][c] == g[r][c])
      && (forall r, c :: 0 <= r < n && 0 <= c < n && g[r][c] != Untouched ==> res.grid[r][c] == g[r][c])
  {
    if AllFree(g, n, a, v) {
      var g' := Stamp(g, n, Walk(a, v, n), Label(v));
      assert forall r, c :: 0 <= r < n && 0 <= c < n && (r, c) in Walk(a, v, n) ==> g[r][c] == Untouched by {
        forall r, c | 0 <= r < n && 0 <= c < n && (r, c) in Walk(a, v, n) ensures g[r][c] == Untouched {
          var i :| 0 <= i < v && Walk(a, v, n)[i] == (r, c);
          assert At(g, WalkCell(a, i, n)) == Untouched;
        }
      }
      assert forall i :: 0 <= i < v ==> At(g', WalkCell(a, i, n)) == Label(v) by {
        forall i | 0 <= i < v ensures At(g', WalkCell(a, i, n)) == Label(v) {
          assert Walk(a, v, n)[i] == WalkCell(a, i, n);
        }
      }
    }
  }

  /** Outcome of `place_treasure` run against a finite oracle of draws. */
  datatype Placement = Placement(grid: Grid, remaining: nat, chains: map<nat, Attempt>)

  /**
   * The two nested retry loops of `place_treasure`: labels `v` down to 1, one draw per
   * try. It stops when every label is placed or the oracle runs dry; `remaining` is the
   * label still to place (0 when done) and `chains` records the draw that placed each label.
   */
  function PlaceLoop(g: Grid, n: nat, v: nat, attempts: seq<Attempt>, chains: map<nat, Attempt>): (p: Placement)
    requires n > 0 && IsSquare(g, n)
    ensures IsSquare(p.grid, n) && p.remaining <= v
    ensures |attempts| < v ==> p.remaining > 0
    decreases |attempts|
  {
    if v == 0 || attempts == [] then Placement(g, v, chains)
    else
      var res := TryAttempt(g, n, v, attempts[0]);
      if res.placed then PlaceLoop(res.grid, n, v - 1, attempts[1..], chains[v := attempts[0]])
      else PlaceLoop(g, n, v, attempts[1..], chains)
  }

  lemma PlaceLoopUnfold(g: Grid, n: nat, v: nat, attempts: seq<Attempt>, chains: map<nat, Attempt>)
    requires n > 0 && IsSquare(g, n) && v > 0 && attempts != []
    ensures PlaceLoop(g, n, v, attempts, chains) ==
      var res := TryAttempt(g, n, v, attempts[0]);
      if res.placed then PlaceLoop(res.grid, n, v - 1, attempts[1..], chains[v := attempts[0]])
      else PlaceLoop(g, n, v, attempts[1..], chains)
  {
  }

  /**
   * The board invariant during placement: labels lo+1..t are placed, label v covers the
   * v cells of the walk recorded for it, and every other cell is still '_'.
   */
  ghost predicate ChainInv(g: Grid, n: nat, t: nat, lo: nat, chains: map<nat, Attempt>)
  {
    && n > 0 && IsSquare(g, n) && lo <= t <= n
    && (forall v :: v in chains <==> lo < v <= t)
    && (forall v, i :: v in chains && 0 <= i < v ==> At(g, WalkCell(chains[v], i, n)) == Label(v))
    && (forall r, c :: 0 <= r < n && 0 <= c < n && g[r][c] != Untouched ==>
          g[r][c].Label? && g[r][c].v in chains && (r, c) in Walk(chains[g[r][c].v], g[r][c].v, n))
  }

  lemma BlankChainInv(n: nat, t: nat)
    requires 0 < n && t <= n
    ensures ChainInv(Blank(n), n, t, t, map[])
  {
  }

  /** One placement attempt keeps the chain invariant; a successful one adds chain v. */
  lemma AttemptPreservesChains(g: Grid, n: nat, t: nat, v: nat, chains: map<nat, Attempt>, a: Attempt)
    requires ChainInv(g, n, t, v, chains) && v >= 1
    ensures var res := TryAttempt(g, n, v, a);
      if res.placed then ChainInv(res.grid, n, t, v - 1, chains[v := a]) else ChainInv(g, n, t, v, chains)
  {
    var res := TryAttempt(g, n, v, a);
    TryAttemptEffect(g, n, v, a);
    if res.placed {
      var g', ch := res.grid, chains[v := a];
      var w := Walk(a, v, n);
      forall u, i | u in ch && 0 <= i < u ensures At(g', WalkCell(ch[u], i, n)) == Label(u) {
        if u != v {
          var p := WalkCell(chains[u], i, n);
          assert At(g, p) == Label(u);
        }
      }
      forall r, c | 0 <= r < n && 0 <= c < n && g'[r][c] != Untouched
        ensures g'[r][c].Label? && g'[r][c].v in ch && (r, c) in Walk(ch[g'[r][c].v], g'[r][c].v, n)
      {
        if (r, c) in w {
          var i :| 0 <= i < v && w[i] == (r, c);
          assert At(g', WalkCell(a, i, n)) == Label(v);
        } else {
          assert g'[r][c] == g[r][c];
        }
      }
    }
  }

  lemma {:induction false} PlaceLoopPreservesChains(g: Grid, n: nat, t: nat, v: nat, attempts: seq<Attempt>, chains: map<nat, Attempt>)
    requires ChainInv(g, n, t, v, chains)
    ensures var p := PlaceLoop(g, n, v, attempts, chains); ChainInv(p.grid, n, t, p.remaining, p.chains)
    decreases |attempts|
  {
    if v != 0 && attempts != [] {
      var res := TryAttempt(g, n, v, attempts[0]);
      AttemptPreservesChains(g, n, t, v, chains, attempts[0]);
      if res.placed {
        PlaceLoopPreservesChains(res.grid, n, t, v - 1, attempts[1..], chains[v := attempts[0]]);
      } else {
        PlaceLoopPreservesChains(g, n, t, v, attempts[1..], chains);
      }
    }
  }

  // ---------------------------------------------------------------- counting

  /** The cells holding label v. */
  function LabelCells(g: Grid, n: nat, v: nat): set<Cell>
    requires IsSquare(g, n)
  {
    set r, c | 0 <= r < n && 0 <= c < n && g[r][c] == Label(v) :: (r, c)
  }

  /** The cells holding a label in lo+1..hi. */
  function LabelsBetween(g: Grid, n: nat, lo: nat, hi: nat): set<Cell>
    requires IsSquare(g, n)
  {
    set r, c | 0 <= r < n && 0 <= c < n && g[r][c].Label? && lo < g[r][c].v <= hi :: (r, c)
  }

  /** The cells that are no longer '_'. */
  function UsedCells(g: Grid, n: nat): set<Cell>
    requires IsSquare(g, n)
  {
    set r, c | 0 <= r < n && 0 <= c < n && g[r][c] != Untouched :: (r, c)
  }

  /** t + (t-1) + ... + 1. */
  function Tri(t: nat): nat
  {
    if t == 0 then 0 else t + Tri(t - 1)
  }

  lemma {:induction false} TriClosedForm(t: nat)
    ensures 2 * Tri(t) == t * (t + 1)
  {
    if t > 0 { TriClosedForm(t - 1); }
  }

  /** Under the invariant, label v occupies exactly the v cells of its recorded walk. */
  lemma ChainCells(g: Grid, n: nat, t: nat, lo: nat, chains: map<nat, Attempt>, v: nat)
    requires ChainInv(g, n, t, lo, chains) && v in chains
    ensures LabelCells(g, n, v) == WalkSet(chains[v], v, n)
    ensures |LabelCells(g, n, v)| == v
  {
    var a := chains[v];
    forall p | p in WalkSet(a, v, n) ensures p in LabelCells(g, n, v) {
      var i :| 0 <= i < v && Walk(a, v, n)[i] == p;
      assert At(g, WalkCell(a, i, n)) == Label(v);
    }
    WalkSetSize(a, v, n);
  }

  lemma {:induction false} LabelsBetweenSize(g: Grid, n: nat, t: nat, lo: nat, chains: map<nat, Attempt>, hi: nat)
    requires ChainInv(g, n, t, lo, chains) && lo <= hi <= t
    ensures |LabelsBetween(g, n, lo, hi)| + Tri(lo) == Tri(hi)
    decreases hi
  {
    if hi == lo {
      assert LabelsBetween(g, n, lo, hi) == {};
    } else {
      LabelsBetweenSize(g, n, t, lo, chains, hi - 1);
      ChainCells(g, n, t, lo, chains, hi);
      assert LabelsBetween(g, n, lo, hi) == LabelsBetween(g, n, lo, hi - 1) + LabelCells(g, n, hi);
      assert LabelsBetween(g, n, lo, hi - 1) !! LabelCells(g, n, hi);
    }
  }

  /**
   * Placement from a blank board with t <= n: each placed label v covers exactly v cells
   * forming the straight wrapped walk of the draw that placed it, only placed labels
   * appear, and t + (t-1) + ... + (remaining+1) cells are taken; when the oracle sufficed
   * (remaining == 0) that is t + (t-1) + ... + 1.
   */
  lemma PlacementCounts(n: nat, t: nat, attempts: seq<Attempt>)
    requires 1 <= t <= n
    ensures var p := PlaceLoop(Blank(n), n, t, attempts, map[]);
      && (forall v :: p.remaining < v <= t ==>
            v in p.chains && LabelCells(p.grid, n, v) == WalkSet(p.chains[v], v, n) && |LabelCells(p.grid, n, v)| == v)
      && (forall r, c :: 0 <= r < n && 0 <= c < n ==>
            p.grid[r][c] == Untouched || (p.grid[r][c].Label? && p.remaining < p.grid[r][c].v <= t))
      && |UsedCells(p.grid, n)| == Tri(t) - Tri(p.remaining)
      && (p.remaining == 0 ==> |UsedCells(p.grid, n)| == Tri(t))
  {
    var p := PlaceLoop(Blank(n), n, t, attempts, map[]);
    BlankChainInv(n, t);
    PlaceLoopPreservesChains(Blank(n), n, t, t, attempts, map[]);
    forall v | p.remaining < v <= t
      ensures LabelCells(p.grid, n, v) == WalkSet(p.chains[v], v, n) && |LabelCells(p.grid, n, v)| == v
    {
      ChainCells(p.grid, n, t, p.remaining, p.chains, v);
    }
    assert UsedCells(p.grid, n) == LabelsBetween(p.grid, n, p.remaining, t);
    LabelsBetweenSize(p.grid, n, t, p.remaining, p.chains, t);
  }

  // ---------------------------------------------------------------- pick

  datatype BoardError = OutOfRange

  datatype PickResult = PickResult(value: Result<nat, BoardError>, grid: Grid)

  /** `pick(row, col)`: bounds check, then return the old value and overwrite the cell with ' '. */
  function PickOn(g: Grid, n: nat, row: int, col: int): (res: PickResult)
    requires IsSquare(g, n)
    ensures IsSquare(res.grid, n)
  {
    if row < 0 || row >= n || col < 0 || col >= n then PickResult(Failure(OutOfRange), g)
    else PickResult(Success(TileValue(g[row][col])), g[row := g[row][col := Picked]])
  }

  /**
   * An out-of-range pick fails and changes nothing; an in-range pick returns the label
   * (0 for '_' or ' '), leaves ' ' in that cell and changes no other cell.
   */
  lemma PickEffect(g: Grid, n: nat, row: int, col: int)
    requires IsSquare(g, n)
    ensures var res := PickOn(g, n, row, col);
      && (res.value.Failure? <==> !InBoard((row, col), n))
      && (res.value.Failure? ==> res.grid == g)
      && (res.value.Success? ==>
            && res.value.value == TileValue(g[row][col])
            && (g[row][col].Label? ==> res.value.value == g[row][col].v && ParseNat(TileText(g[row][col])) == Some(res.value.value))
            && (!g[row][col].Label? ==> res.value.value == 0)
            && res.grid[row][col] == Picked
            && forall r, c :: 0 <= r < n && 0 <= c < n && (r, c) != (row, col) ==> res.grid[r][c] == g[r][c])
  {
    if InBoard((row, col), n) { TileTextFaithful(g[row][col], g[row][col]); }
  }

  /** Picking the same cell again returns 0 and leaves the board as the first pick left it. */
  lemma PickIdempotent(g: Grid, n: nat, row: int, col: int)
    requires IsSquare(g, n)
    ensures var first := PickOn(g, n, row, col);
      var second := PickOn(first.grid, n, row, col);
      && second.grid == first.grid
      && (first.value.Success? ==> second.value == Success(0))
      && (first.value.Failure? ==> second.value == first.value)
  {
    var first := PickOn(g, n, row, col);
    if first.value.Success? {
      var h := first.grid;
      assert h[row][col] == Picked;
      assert h[row][col := Picked] == h[row];
      assert h[row := h[row][col := Picked]] == h;
    }
  }

  /** On a freshly placed board, picking any cell of chain v returns v. */
  lemma PickOnChainReturnsLabel(n: nat, t: nat, attempts: seq<Attempt>, v: nat, i: nat)
    requires 1 <= t <= n
    requires PlaceLoop(Blank(n), n, t, attempts, map[]).remaining < v <= t && i < v
    ensures var p := PlaceLoop(Blank(n), n, t, attempts, map[]);
      && v in p.chains
      && var cell := WalkCell(p.chains[v], i, n);
         PickOn(p.grid, n, cell.0, cell.1).value == Success(v)
  {
    BlankChainInv(n, t);
    PlaceLoopPreservesChains(Blank(n), n, t, t, attempts, map[]);
  }

  // ---------------------------------------------------------------- mask_board and __str__

  /** `'  '` for a picked tile, `'_ '` for any other. */
  function MaskCell(t: Tile): string
  {
    if t == Picked then "  " else "_ "
  }

  /** One row of `mask_board`, built left to right as the loop does. */
  function MaskRow(row: seq<Tile>): string
  {
    if row == [] then "" else MaskRow(row[..|row| - 1]) + MaskCell(row[|row| - 1])
  }

  function MaskRows(g: Grid): seq<string>
  {
    seq(|g|, r requires 0 <= r < |g| => MaskRow(g[r]))
  }

  /** `mask_board()`: the rows joined by newlines. */
  function Mask(g: Grid): string
  {
    Join(MaskRows(g), "\n")
  }

  /** Each row is two characters per tile: '_' or ' ' for the tile, then a space. */
  lemma {:induction false} MaskRowShape(row: seq<Tile>)
    ensures |MaskRow(row)| == 2 * |row|
    ensures forall k :: 0 <= k < |row| ==>
      MaskRow(row)[2 * k] == (if row[k] == Picked then ' ' else '_') && MaskRow(row)[2 * k + 1] == ' '
  {
    if row != [] {
      var init := row[..|row| - 1];
      MaskRowShape(init);
      var s := MaskRow(row);
      assert s == MaskRow(init) + MaskCell(row[|row| - 1]);
      forall k | 0 <= k < |row|
        ensures s[2 * k] == (if row[k] == Picked then ' ' else '_') && s[2 * k + 1] == ' '
      {
        if k < |init| {
          assert init[k] == row[k];
          assert s[2 * k] == MaskRow(init)[2 * k];
          assert s[2 * k + 1] == MaskRow(init)[2 * k + 1];
        }
      }
    }
  }

  lemma {:induction false} MaskRowAlphabet(row: seq<Tile>)
    ensures forall j :: 0 <= j < |MaskRow(row)| ==> MaskRow(row)[j] in {'_', ' '}
  {
    if row != [] {
      var init := row[..|row| - 1];
      MaskRowAlphabet(init);
      var s := MaskRow(row);
      assert s == MaskRow(init) + MaskCell(row[|row| - 1]);
      forall j | 0 <= j < |s| ensures s[j] in {'_', ' '} {
        if j < |MaskRow(init)| { assert s[j] == MaskRow(init)[j]; }
      }
    }
  }

  /** Every character of the masked board is '_', ' ' or a newline; in particular no digit. */
  lemma MaskAlphabet(g: Grid)
    ensures forall i :: 0 <= i < |Mask(g)| ==> Mask(g)[i] in {'_', ' ', '\n'}
    ensures forall i :: 0 <= i < |Mask(g)| ==> !IsDigitChar(Mask(g)[i])
  {
    var rows := MaskRows(g);
    forall i, j | 0 <= i < |rows| && 0 <= j < |rows[i]| ensures rows[i][j] in {'_', ' ', '\n'} {
      MaskRowAlphabet(g[i]);
    }
    JoinAlphabet(rows, "\n", {'_', ' ', '\n'});
  }

  /** For an n-by-n board the mask has n rows of 2n characters and n-1 newlines. */
  lemma MaskLength(g: Grid, n: nat)
    requires IsSquare(g, n) && n > 0
    ensures |Mask(g)| == n * (2 * n) + (n - 1)
  {
    forall r | 0 <= r < n ensures |MaskRows(g)[r]| == 2 * n { MaskRowShape(g[r]); }
    JoinLength(MaskRows(g), "\n", 2 * n);
  }

  /** The mask depends only on which cells are picked: boards that differ only in hidden labels mask alike. */
  lemma MaskHidesLabels(g1: Grid, g2: Grid)
    requires |g1| == |g2|
    requires forall r :: 0 <= r < |g1| ==> |g1[r]| == |g2[r]|
    requires forall r, c :: 0 <= r < |g1| && 0 <= c < |g1[r]| ==> (g1[r][c] == Picked <==> g2[r][c] == Picked)
    ensures Mask(g1) == Mask(g2)
  {
    forall r | 0 <= r < |g1| ensures MaskRow(g1[r]) == MaskRow(g2[r]) {
      MaskRowsAgree(g1[r], g2[r]);
    }
    assert MaskRows(g1) == MaskRows(g2);
  }

  lemma {:induction false} MaskRowsAgree(row1: seq<Tile>, row2: seq<Tile>)
    requires |row1| == |row2|
    requires forall c :: 0 <= c < |row1| ==> (row1[c] == Picked <==> row2[c] == Picked)
    ensures MaskRow(row1) == MaskRow(row2)
  {
    if row1 != [] {
      MaskRowsAgree(row1[..|row1| - 1], row2[..|row2| - 1]);
    }
  }

  /** One row of `__str__`: the tile strings separated by single spaces. */
  function RenderRow(row: seq<Tile>): string
  {
    Join(seq(|row|, c requires 0 <= c < |row| => TileText(row[c])), " ")
  }

  /** `__str__`: rows of space-separated tile strings joined by newlines. */
  function Render(g: Grid): string
  {
    Join(seq(|g|, r requires 0 <= r < |g| => RenderRow(g[r])), "\n")
  }

  lemma {:induction false} JoinSingles(parts: seq<string>, sep: char)
    requires forall i :: 0 <= i < |parts| ==> |parts[i]| == 1
    ensures |parts| > 0 ==> |Join(parts, [sep])| == 2 * |parts| - 1
    ensures forall k :: 0 <= k < |parts| ==> Join(parts, [sep])[2 * k] == parts[k][0]
    ensures forall k :: 0 <= k < |parts| - 1 ==> Join(parts, [sep])[2 * k + 1] == sep
  {
    if |parts| > 1 {
      var init := parts[..|parts| - 1];
      JoinSingles(init, sep);
      var s := Join(parts, [sep]);
      assert s == Join(init, [sep]) + [sep] + parts[|parts| - 1];
      forall k | 0 <= k < |parts| ensures s[2 * k] == parts[k][0] {
        if k < |init| { assert init[k] == parts[k]; }
      }
    }
  }

  /**
   * On a board whose labels are single digits, `__str__` shows each row as 2n-1
   * characters: tile c's string at offset 2c with single spaces between, so unlike the
   * mask it shows every label.
   */
  lemma RenderRowShape(row: seq<Tile>)
    requires |row| > 0
    requires forall c :: 0 <= c < |row| && row[c].Label? ==> row[c].v < 10
    ensures |RenderRow(row)| == 2 * |row| - 1
    ensures forall c :: 0 <= c < |row| ==> RenderRow(row)[2 * c] == TileText(row[c])[0]
    ensures forall c :: 0 <= c < |row| - 1 ==> RenderRow(row)[2 * c + 1] == ' '
  {
    var parts := seq(|row|, c requires 0 <= c < |row| => TileText(row[c]));
    JoinSingles(parts, ' ');
  }
}
