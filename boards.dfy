/** The punto board of player.py: an 11 x 11 array of cells updated in place,
    with the map the scan is specified over kept beside it as a ghost field. */
module Boards {
  import opened Selectability

  class Board {
    var round: int
    var gameStart: bool
    /** board[(x, y)] is cells[x, y]. */
    const cells: array2<Cell>
    /** The same dictionary as a map, for the specification. */
    ghost var grid: Grid

    ghost predicate Valid()
      reads this`grid, cells
    {
      && cells.Length0 == N && cells.Length1 == N
      && WellFormed(grid)
      && forall x, y :: 0 <= x < N && 0 <= y < N ==> cells[x, y] == grid[Pos(x, y)]
    }

    /** Board(): every key (i, j) with 0 <= i, j < 11 holds (-1, CARD_EMPTY),
        then the first scan stamps the centre as selectable. */
    constructor()
      ensures Valid() && fresh(cells)
      ensures round == 0 && gameStart
      ensures forall p :: p in grid ==> grid[p] == if p == Centre then SelectableCell else EmptyCell
    {
      round := 0;
      gameStart := true;
      cells := new Cell[N, N];
      new;
      Clear();
      var _ := SetSelectable();
    }

    /** The constructor's loops: board[(i, j)] = (-1, CARD_EMPTY) for i
        outer and j inner, inserting every key. */
    method Clear()
      requires cells.Length0 == N && cells.Length1 == N
      modifies this`grid, cells
      ensures Valid()
      ensures forall p :: p in grid ==> grid[p] == EmptyCell
    {
      grid := map[];
      for i := 0 to N
        invariant forall p :: p in grid <==> OnBoard(p) && p.x < i
        invariant forall p :: p in grid ==> grid[p] == EmptyCell
        invariant forall x, y :: 0 <= x < i && 0 <= y < N ==> cells[x, y] == EmptyCell
      {
        for j := 0 to N
          invariant forall p :: p in grid <==> OnBoard(p) && (p.x < i || (p.x == i && p.y < j))
          invariant forall p :: p in grid ==> grid[p] == EmptyCell
          invariant forall x, y :: 0 <= y < N && ((0 <= x < i) || (x == i && y < j)) ==> cells[x, y] == EmptyCell
        {
          cells[i, j] := EmptyCell;
          grid := grid[Pos(i, j) := EmptyCell];
        }
      }
      forall p ensures p in grid <==> p in BoardKeys {
        BoardKey(p);
      }
    }

    /** update(pos, data): stores the card, ends the opening for good and
        rescans. The key set is unchanged because pos is a board key. */
    method Update(pos: Pos, data: Cell)
      requires Valid() && OnBoard(pos)
      modifies this`gameStart, this`grid, cells
      ensures Valid() && !gameStart
      ensures grid == AllSelectables(old(grid)[pos := data], false).grid
    {
      BoardKey(pos);
      Store(pos, data);
      if gameStart {
        gameStart := false;
      }
      var _ := SetSelectable();
    }

    /** board[pos] = c for a key pos. */
    method Store(pos: Pos, c: Cell)
      requires Valid() && OnBoard(pos)
      modifies this`grid, cells
      ensures Valid() && grid == old(grid)[pos := c]
    {
      BoardKey(pos);
      cells[pos.x, pos.y] := c;
      grid := grid[pos := c];
    }

    /** set_selectable(): stamps (-1, CARD_SELECTABLE) on every position
        get_all_selectables yields, each before the generator resumes, and
        returns them in order. */
    method SetSelectable() returns (res: seq<Pos>)
      requires Valid()
      modifies this`grid, cells
      ensures Valid()
      ensures res == AllSelectables(old(grid), gameStart).marks
      ensures grid == AllSelectables(old(grid), gameStart).grid
    {
      if gameStart {
        Store(Centre, SelectableCell);
        return [Centre];
      }
      res := [];
      ghost var keys := KeyOrder();
      ghost var whole := ScanFrom(grid, keys);
      for k := 0 to N * N
        invariant Valid()
        invariant whole == Then(res, ScanFrom(grid, keys[k..]))
      {
        var x, y := k / N, k % N;
        KeyOrderIndex(k);
        ScanNext(grid, keys, k);
        BoardKey(Pos(x, y));
        var val := cells[x, y].value;
        if val >= 0 {
          var marked := MarkFromPos(x, y, val);
          ThenThen(res, marked, ScanFrom(grid, keys[k + 1..]));
          res := res + marked;
        } else {
          ThenNothing(ScanFrom(grid, keys[k + 1..]));
        }
      }
    }

    /** get_selectables_from_pos(x, y, val) with the consumer's marks: tries
        the 8 shifts dx outer, dy inner, and stamps each board neighbour that
        is empty or holds more than val. */
    method MarkFromPos(x: int, y: int, val: int) returns (marked: seq<Pos>)
      requires Valid()
      modifies this`grid, cells
      ensures Valid()
      ensures marked == SelectablesFromPos(old(grid), x, y, val, -1, -1).marks
      ensures grid == SelectablesFromPos(old(grid), x, y, val, -1, -1).grid
    {
      marked := [];
      ghost var whole := SelectablesFromPos(grid, x, y, val, -1, -1);
      for dx := -1 to 2
        invariant Valid()
        invariant whole == Then(marked, SelectablesFromPos(grid, x, y, val, dx, -1))
      {
        for dy := -1 to 2
          invariant Valid()
          invariant whole == Then(marked, SelectablesFromPos(grid, x, y, val, dx, dy))
        {
          var yielded := TryShift(x, y, val, dx, dy);
          ThenThen(marked, yielded, SelectablesFromPos(grid, x, y, val, dx, dy + 1));
          marked := marked + yielded;
        }
        FromPosNextRow(grid, x, y, val, dx);
      }
      FromPosDone(grid, x, y, val);
    }

    /** One pass of the inner loop of get_selectables_from_pos: shift
        (dx, dy) yields (x + dx, y + dy) when it is not (0, 0), is a board key,
        and holds CARD_EMPTY or a value above val; the consumer then stamps it. */
    method TryShift(x: int, y: int, val: int, dx: int, dy: int) returns (yielded: seq<Pos>)
      requires Valid() && -1 <= dx <= 1 && -1 <= dy <= 1
      modifies this`grid, cells
      ensures Valid()
      ensures SelectablesFromPos(old(grid), x, y, val, dx, dy) == Then(yielded, SelectablesFromPos(grid, x, y, val, dx, dy + 1))
    {
      yielded := [];
      if dx == 0 && dy == 0 {
        FromPosPass(grid, x, y, val, dx, dy);
        return;
      }
      var nx, ny := x + dx, y + dy;
      BoardKey(Pos(nx, ny));
      if 0 <= nx < N && 0 <= ny < N && (cells[nx, ny].value == CARD_EMPTY || cells[nx, ny].value > val) {
        FromPosYield(grid, x, y, val, dx, dy, Pos(nx, ny));
        Store(Pos(nx, ny), SelectableCell);
        yielded := [Pos(nx, ny)];
      } else {
        FromPosPass(grid, x, y, val, dx, dy);
      }
    }
  }
}
