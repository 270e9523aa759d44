/**
 * The Board class of Board.py: an n-by-n grid updated in place by treasure placement
 * and by `pick`. Every method is proved against the board-value functions of BoardSpec.
 */
module TreasureBoard {
  import opened Wrappers
  import opened Text
  import opened BoardSpec

  /** The ValueErrors `__init__` raises, in the order it checks them. */
  datatype ParamError =
    | SizeBelowTwo      // "n must not be less than 2"
    | BadTreasureCount  // "t must be digit greater 0"
    | TreasureTooLong   // "Treasure t length cant be greater than n board length"

  /** The argument checks of `__init__`: the treasure count `int(t)` when they pass. */
  function CheckParams(n: int, t: string): (r: Result<nat, ParamError>)
    ensures r.Success? <==> n >= 2 && ParseNat(t).Some? && 1 <= ParseNat(t).value <= n
    ensures r.Success? ==> ParseNat(t) == Some(r.value)
    ensures n < 2 ==> r == Failure(SizeBelowTwo)
    ensures n >= 2 && (ParseNat(t).None? || ParseNat(t).value == 0) ==> r == Failure(BadTreasureCount)
    ensures n >= 2 && ParseNat(t).Some? && ParseNat(t).value > n ==> r == Failure(TreasureTooLong)
  {
    if n < 2 then Failure(SizeBelowTwo)
    else match ParseNat(t)
      case None => Failure(BadTreasureCount)
      case Some(v) =>
        if v <= 0 then Failure(BadTreasureCount)
        else if v > n then Failure(TreasureTooLong)
        else Success(v)
  }

  class Board {
    const n: nat
    const t: nat
    const grid: array2<Tile>

    ghost predicate Valid()
      reads this
    {
      grid.Length0 == n && grid.Length1 == n && 2 <= n && 1 <= t <= n
    }

    /** The board as a value. */
    function Cells(): (g: Grid)
      reads this, grid
      ensures |g| == grid.Length0
      ensures forall r :: 0 <= r < grid.Length0 ==> |g[r]| == grid.Length1
      ensures forall r, c :: 0 <= r < grid.Length0 && 0 <= c < grid.Length1 ==> g[r][c] == grid[r, c]
    {
      seq(grid.Length0, r requires 0 <= r < grid.Length0 reads grid =>
        seq(grid.Length1, c requires 0 <= c < grid.Length1 reads grid => grid[r, c]))
    }

    /** `__init__` once its checks passed: an n-by-n grid of '_', then `place_treasure()`. */
    constructor (n: nat, t: string, attempts: seq<Attempt>)
      requires CheckParams(n, t).Success?
      ensures Valid() && fresh(grid)
      ensures this.n == n && this.t == CheckParams(n, t).value
      ensures Cells() == PlaceLoop(Blank(n), n, this.t, attempts, map[]).grid
    {
      this.n := n;
      this.t := CheckParams(n, t).value;
      grid := new Tile[n, n]((_, _) => Untouched);
      new;
      SquareExt(Cells(), Blank(n), n);
      var _ := PlaceTreasure(attempts);
    }

    /** `Board(n, t)`: raise on bad arguments, otherwise build and place treasure. */
    static method Create(n: int, t: string, attempts: seq<Attempt>) returns (r: Result<Board, ParamError>)
      ensures r.Failure? <==> CheckParams(n, t).Failure?
      ensures r.Failure? ==> r.error == CheckParams(n, t).error
      ensures r.Success? ==>
        && fresh(r.value) && fresh(r.value.grid) && r.value.Valid()
        && r.value.n == n && r.value.t == CheckParams(n, t).value
        && r.value.Cells() == PlaceLoop(Blank(n), n, r.value.t, attempts, map[]).grid
    {
      match CheckParams(n, t)
      case Failure(e) => r := Failure(e);
      case Success(_) =>
        var b := new Board(n, t, attempts);
        r := Success(b);
    }

    /**
     * The inner `for` loop of `place_treasure`: follow the walk of draw `a` for at most v
     * cells and stop at the first cell that is not '_'; the cells collected so far.
     */
    method CollectWalk(v: nat, a: Attempt) returns (positions: seq<Cell>)
      requires Valid()
      ensures |positions| <= v && positions == Walk(a, |positions|, n)
      ensures |positions| == v <==> AllFree(Cells(), n, a, v)
    {
      var row, col := a.row, a.col;
      positions := [];
      var k := 0;
      while k < v
        invariant 0 <= k <= v
        invariant positions == Walk(a, k, n)
        invariant forall i :: 0 <= i < k ==> At(Cells(), WalkCell(a, i, n)) == Untouched
        invariant row % n == WalkCell(a, k, n).0 && col % n == WalkCell(a, k, n).1
      {
        row := row % n;
        col := col % n;
        if grid[row, col] != Untouched { break; }
        positions := positions + [(row, col)];
        WalkIsStraight(a, k, n);
        row := row + DeltaRow(a.dir);
        col := col + DeltaCol(a.dir);
        k := k + 1;
      }
    }

    /** Writes label v into every collected cell of the walk. */
    method WriteLabel(positions: seq<Cell>, v: nat)
      requires Valid()
      requires forall i :: 0 <= i < |positions| ==> InBoard(positions[i], n)
      modifies grid
      ensures Valid()
      ensures forall r, c :: 0 <= r < n && 0 <= c < n ==>
        grid[r, c] == if (r, c) in positions then Label(v) else old(grid[r, c])
    {
      var j := 0;
      while j < |positions|
        invariant 0 <= j <= |positions|
        invariant forall r, c :: 0 <= r < n && 0 <= c < n ==>
          grid[r, c] == if (r, c) in positions[..j] then Label(v) else old(grid[r, c])
      {
        grid[positions[j].0, positions[j].1] := Label(v);
        j := j + 1;
      }
      assert positions[..j] == positions;
    }

    /** One try of the inner `while not placed` loop of `place_treasure`. */
    method TryPlace(v: nat, a: Attempt) returns (placed: bool)
      requires Valid()
      modifies grid
      ensures Valid()
      ensures var res := TryAttempt(old(Cells()), n, v, a); placed == res.placed && Cells() == res.grid
    {
      ghost var g := Cells();
      var positions := CollectWalk(v, a);
      if |positions| == v {
        WriteLabel(positions, v);
        SquareExt(Cells(), Stamp(g, n, Walk(a, v, n), Label(v)), n);
        placed := true;
      } else {
        placed := false;
      }
    }

    /**
     * The inner `while not placed` loop of `place_treasure` for label v: draw attempts
     * from index i on until one is placed or the oracle runs out; the next unused index.
     */
    method PlaceLabel(v: nat, attempts: seq<Attempt>, i: nat, ghost chains: map<nat, Attempt>)
      returns (placed: bool, j: nat, ghost next: map<nat, Attempt>)
      requires Valid() && 0 < v && i < |attempts|
      modifies grid
      ensures Valid() && i < j <= |attempts|
      ensures placed ==> next == chains[v := attempts[j - 1]]
      ensures !placed ==> j == |attempts| && next == chains
      ensures PlaceLoop(Cells(), n, if placed then v - 1 else v, attempts[j..], next)
              == PlaceLoop(old(Cells()), n, v, attempts[i..], chains)
    {
      ghost var target := PlaceLoop(Cells(), n, v, attempts[i..], chains);
      placed := false;
      j := i;
      while !placed && j < |attempts|
        invariant i <= j <= |attempts| && Valid()
        invariant placed ==> j > i
        invariant !placed ==> PlaceLoop(Cells(), n, v, attempts[j..], chains) == target
        invariant placed ==> PlaceLoop(Cells(), n, v - 1, attempts[j..], chains[v := attempts[j - 1]]) == target
        decreases |attempts| - j, !placed
      {
        assert attempts[j..][0] == attempts[j] && attempts[j..][1..] == attempts[j + 1..];
        PlaceLoopUnfold(Cells(), n, v, attempts[j..], chains);
        placed := TryPlace(v, attempts[j]);
        j := j + 1;
      }
      next := if placed then chains[v := attempts[j - 1]] else chains;
    }

    /**
     * `place_treasure()`: for each label from t down to 1, keep drawing attempts until one
     * lands on free cells. Returns the label still unplaced when the oracle runs out (0 when all are placed).
     */
    method PlaceTreasure(attempts: seq<Attempt>) returns (remaining: nat)
      requires Valid()
      modifies grid
      ensures Valid()
      ensures var p := PlaceLoop(old(Cells()), n, t, attempts, map[]); Cells() == p.grid && remaining == p.remaining
    {
      ghost var target := PlaceLoop(Cells(), n, t, attempts, map[]);
      ghost var chains: map<nat, Attempt> := map[];
      var count := t;
      var i := 0;
      assert attempts[i..] == attempts;
      while count > 0 && i < |attempts|
        invariant 0 <= i <= |attempts| && Valid()
        invariant PlaceLoop(Cells(), n, count, attempts[i..], chains) == target
        decreases |attempts| - i
      {
        var placed, j;
        placed, j, chains := PlaceLabel(count, attempts, i, chains);
        if placed {
          count := count - 1;
        }
        i := j;
      }
      assert count == 0 || attempts[i..] == [];
      assert PlaceLoop(Cells(), n, count, attempts[i..], chains) == Placement(Cells(), count, chains);
      remaining := count;
    }

    /** `pick(row, col)`. */
    method Pick(row: int, col: int) returns (r: Result<nat, BoardError>)
      requires Valid()
      modifies grid
      ensures Valid()
      ensures var res := PickOn(old(Cells()), n, row, col); r == res.value && Cells() == res.grid
    {
      if row < 0 || row >= n || col < 0 || col >= n {
        return Failure(OutOfRange);
      }
      ghost var g := Cells();
      var value := grid[row, col];
      grid[row, col] := Picked;
      SquareExt(Cells(), g[row := g[row][col := Picked]], n);
      if value == Untouched || value == Picked {
        return Success(0);
      }
      return Success(value.v);
    }

    /** `mask_board()`: builds each row string tile by tile, then joins the rows with newlines. */
    method MaskBoard() returns (s: string)
      requires Valid()
      ensures s == Mask(Cells())
    {
      var result: seq<string> := [];
      var r := 0;
      while r < n
        invariant 0 <= r <= n
        invariant result == MaskRows(Cells())[..r]
      {
        var rowStr := "";
        var c := 0;
        while c < n
          invariant 0 <= c <= n
          invariant rowStr == MaskRow(Cells()[r][..c])
        {
          assert Cells()[r][..c + 1][..c] == Cells()[r][..c];
          if grid[r, c] == Picked {
            rowStr := rowStr + "  ";
          } else {
            rowStr := rowStr + "_ ";
          }
          c := c + 1;
        }
        assert Cells()[r][..n] == Cells()[r];
        result := result + [rowStr];
        r := r + 1;
      }
      assert result == MaskRows(Cells());
      s := Join(result, "\n");
    }

    /** `__str__`. */
    function ToString(): string
      reads this, grid
    {
      Render(Cells())
    }
  }
}
