/** The cell map of a punto board and the scan that marks "selectable" cells,
    as pure values. The scan follows the order of the Python generators exactly:
    board keys are visited x outer, y inner, neighbour shifts dx outer, dy inner,
    and every mark is written before the next cell is examined. */
module Selectability {

  /** Side of the square board (N_COL == N_ROW == 11). */
  const N: nat := 11

  /** Card-value sentinels. Real cards have values 1..9. */
  const CARD_EMPTY: int := -1
  const CARD_SELECTABLE: int := -2
  const CARD_HOVER: int := -3

  /** What a board key maps to: the owning player (-1 for nobody) and a card value or sentinel. */
  datatype Cell = Cell(owner: int, value: int)

  const EmptyCell: Cell := Cell(-1, CARD_EMPTY)
  const SelectableCell: Cell := Cell(-1, CARD_SELECTABLE)

  /** A board key (x, y). */
  datatype Pos = Pos(x: int, y: int)

  /** The board dictionary. */
  type Grid = map<Pos, Cell>

  /** The board after a scan, with the positions the scan yielded, in order. */
  datatype Marking = Marking(grid: Grid, marks: seq<Pos>)

  /** The one cell offered before the first card is placed. */
  const Centre: Pos := Pos(5, 5)

  predicate OnBoard(p: Pos) {
    0 <= p.x < N && 0 <= p.y < N
  }

  /** The keys the Board constructor inserts. */
  ghost const BoardKeys: set<Pos> := set x: int, y: int | 0 <= x < N && 0 <= y < N :: Pos(x, y)

  lemma BoardKey(p: Pos)
    ensures p in BoardKeys <==> OnBoard(p)
  {
    if OnBoard(p) {
      assert p == Pos(p.x, p.y);
    }
  }

  /** The key set is exactly the N x N positions. */
  ghost predicate WellFormed(g: Grid) {
    g.Keys == BoardKeys
  }

  predicate Distinct(s: seq<Pos>) {
    forall i, j :: 0 <= i < j < |s| ==> s[i] != s[j]
  }

  /** q is one of the 8 Moore neighbours of p. */
  predicate Adjacent(p: Pos, q: Pos) {
    p.x - 1 <= q.x <= p.x + 1 && p.y - 1 <= q.y <= p.y + 1 && p != q
  }

  /** Neighbour q of source (x, y) whose shift the scan has not tried yet when
      it stands at shift (dx, dy). */
  predicate Pending(x: int, y: int, dx: int, dy: int, q: Pos) {
    Adjacent(Pos(x, y), q) && (q.x > x + dx || (q.x == x + dx && q.y >= y + dy))
  }

  /** A neighbour holding `target` is yielded by a source of value `val`. */
  predicate Eligible(target: int, val: int) {
    target == CARD_EMPTY || target > val
  }

  /** The marks `earlier` followed by those of m, ending on m's board. */
  function Then(earlier: seq<Pos>, m: Marking): (r: Marking)
    ensures r.grid == m.grid && |r.marks| == |earlier| + |m.marks|
  {
    Marking(m.grid, earlier + m.marks)
  }

  lemma ThenNothing(m: Marking)
    ensures Then([], m) == m
  {
    assert [] + m.marks == m.marks;
  }

  lemma ThenThen(a: seq<Pos>, b: seq<Pos>, m: Marking)
    ensures Then(a, Then(b, m)) == Then(a + b, m)
  {
    assert a + (b + m.marks) == (a + b) + m.marks;
  }

  /** get_selectables_from_pos(x, y, val) together with the marks the consumer
      writes between two yields, from shift (dx, dy) on. The key set never
      changes; which neighbours are yielded is YieldedFromPos, what becomes of
      each cell is FromPosCell. */
  function SelectablesFromPos(g: Grid, x: int, y: int, val: int, dx: int, dy: int): (r: Marking)
    requires -1 <= dx <= 2 && -1 <= dy <= 2
    ensures r.grid.Keys == g.Keys
    decreases 2 - dx, 2 - dy
  {
    if dx == 2 then Marking(g, [])
    else if dy == 2 then SelectablesFromPos(g, x, y, val, dx + 1, -1)
    else if dx == 0 && dy == 0 then SelectablesFromPos(g, x, y, val, dx, dy + 1)
    else
      var q := Pos(x + dx, y + dy);
      if q in g && Eligible(g[q].value, val) then
        var rest := SelectablesFromPos(g[q := SelectableCell], x, y, val, dx, dy + 1);
        Marking(rest.grid, [q] + rest.marks)
      else
        SelectablesFromPos(g, x, y, val, dx, dy + 1)
  }

  /** A neighbour is yielded from shift (dx, dy) on exactly when it is on the
      board, not yet tried, and empty or holding more than val. */
  lemma {:induction false} YieldedFromPos(g: Grid, x: int, y: int, val: int, dx: int, dy: int, p: Pos)
    requires -1 <= dx <= 2 && -1 <= dy <= 2
    ensures p in SelectablesFromPos(g, x, y, val, dx, dy).marks
        <==> p in g && Pending(x, y, dx, dy, p) && Eligible(g[p].value, val)
    decreases 2 - dx, 2 - dy, 2
  {
    if dx == 2 {
    } else if dy == 2 {
      YieldedFromPos(g, x, y, val, dx + 1, -1, p);
    } else if dx == 0 && dy == 0 {
      YieldedFromPos(g, x, y, val, dx, dy + 1, p);
    } else {
      YieldedFromPosStep(g, x, y, val, dx, dy, p);
    }
  }

  lemma {:induction false} YieldedFromPosStep(g: Grid, x: int, y: int, val: int, dx: int, dy: int, p: Pos)
    requires -1 <= dx <= 1 && -1 <= dy <= 1 && !(dx == 0 && dy == 0)
    ensures p in SelectablesFromPos(g, x, y, val, dx, dy).marks
        <==> p in g && Pending(x, y, dx, dy, p) && Eligible(g[p].value, val)
    decreases 2 - dx, 2 - dy, 1
  {
    var q := Pos(x + dx, y + dy);
    if q in g && Eligible(g[q].value, val) {
      YieldedFromPosTaken(g, x, y, val, dx, dy, q, p);
    } else {
      var r := SelectablesFromPos(g, x, y, val, dx, dy);
      assert r == SelectablesFromPos(g, x, y, val, dx, dy + 1);
      YieldedFromPos(g, x, y, val, dx, dy + 1, p);
      assert Pending(x, y, dx, dy, p) <==> p == q || Pending(x, y, dx, dy + 1, p);
    }
  }

  /** The shift (dx, dy) lands on an eligible neighbour, which is yielded and marked. */
  lemma {:induction false} YieldedFromPosTaken(g: Grid, x: int, y: int, val: int, dx: int, dy: int, q: Pos, p: Pos)
    requires -1 <= dx <= 1 && -1 <= dy <= 1 && !(dx == 0 && dy == 0)
    requires q == Pos(x + dx, y + dy) && q in g && Eligible(g[q].value, val)
    ensures p in SelectablesFromPos(g, x, y, val, dx, dy).marks
        <==> p in g && Pending(x, y, dx, dy, p) && Eligible(g[p].value, val)
    decreases 2 - dx, 2 - dy, 0
  {
    var r := SelectablesFromPos(g, x, y, val, dx, dy);
    var g' := g[q := SelectableCell];
    var rest := SelectablesFromPos(g', x, y, val, dx, dy + 1);
    assert r == Marking(rest.grid, [q] + rest.marks);
    if p == q {
      assert p in r.marks;
      assert Pending(x, y, dx, dy, p);
    } else {
      YieldedFromPos(g', x, y, val, dx, dy + 1, p);
      assert p in r.marks <==> p in rest.marks;
      assert Pending(x, y, dx, dy, p) <==> Pending(x, y, dx, dy + 1, p);
    }
  }

  /** One shift of get_selectables_from_pos that yields nothing: (0, 0), a
      position off the board, or a neighbour that is not eligible. */
  lemma FromPosPass(g: Grid, x: int, y: int, val: int, dx: int, dy: int)
    requires -1 <= dx <= 1 && -1 <= dy <= 1
    requires (dx == 0 && dy == 0) || Pos(x + dx, y + dy) !in g || !Eligible(g[Pos(x + dx, y + dy)].value, val)
    ensures SelectablesFromPos(g, x, y, val, dx, dy) == SelectablesFromPos(g, x, y, val, dx, dy + 1)
  {
  }

  /** One shift of get_selectables_from_pos that yields q, which is marked
      before the generator resumes. */
  lemma FromPosYield(g: Grid, x: int, y: int, val: int, dx: int, dy: int, q: Pos)
    requires -1 <= dx <= 1 && -1 <= dy <= 1 && !(dx == 0 && dy == 0)
    requires q == Pos(x + dx, y + dy) && q in g && Eligible(g[q].value, val)
    ensures var rest := SelectablesFromPos(g[q := SelectableCell], x, y, val, dx, dy + 1);
      SelectablesFromPos(g, x, y, val, dx, dy) == Marking(rest.grid, [q] + rest.marks)
  {
  }

  /** The inner shift loop ends and the outer one moves to the next dx. */
  lemma FromPosNextRow(g: Grid, x: int, y: int, val: int, dx: int)
    requires -1 <= dx <= 1
    ensures SelectablesFromPos(g, x, y, val, dx, 2) == SelectablesFromPos(g, x, y, val, dx + 1, -1)
  {
  }

  /** Past the last shift nothing more is yielded. */
  lemma FromPosDone(g: Grid, x: int, y: int, val: int)
    ensures SelectablesFromPos(g, x, y, val, 2, -1) == Marking(g, [])
  {
  }

  /** Every yielded neighbour becomes (-1, CARD_SELECTABLE); every other cell
      keeps what it held. */
  lemma {:induction false} FromPosCell(g: Grid, x: int, y: int, val: int, dx: int, dy: int, p: Pos)
    requires -1 <= dx <= 2 && -1 <= dy <= 2
    requires p in g
    ensures var r := SelectablesFromPos(g, x, y, val, dx, dy);
      r.grid[p] == if p in r.marks then SelectableCell else g[p]
    decreases 2 - dx, 2 - dy
  {
    if dx == 2 {
    } else if dy == 2 {
      FromPosCell(g, x, y, val, dx + 1, -1, p);
    } else if dx == 0 && dy == 0 {
      FromPosCell(g, x, y, val, dx, dy + 1, p);
    } else {
      var q := Pos(x + dx, y + dy);
      if q in g && Eligible(g[q].value, val) {
        var g' := g[q := SelectableCell];
        FromPosCell(g', x, y, val, dx, dy + 1, p);
      } else {
        FromPosCell(g, x, y, val, dx, dy + 1, p);
      }
    }
  }

  /** get_selectables_from_pos never yields the same neighbour twice. */
  lemma {:induction false} FromPosDistinct(g: Grid, x: int, y: int, val: int, dx: int, dy: int)
    requires -1 <= dx <= 2 && -1 <= dy <= 2
    ensures Distinct(SelectablesFromPos(g, x, y, val, dx, dy).marks)
    decreases 2 - dx, 2 - dy
  {
    if dx == 2 {
    } else if dy == 2 {
      FromPosDistinct(g, x, y, val, dx + 1, -1);
    } else if dx == 0 && dy == 0 {
      FromPosDistinct(g, x, y, val, dx, dy + 1);
    } else {
      var q := Pos(x + dx, y + dy);
      if q in g && Eligible(g[q].value, val) {
        var g' := g[q := SelectableCell];
        FromPosDistinct(g', x, y, val, dx, dy + 1);
        YieldedFromPos(g', x, y, val, dx, dy + 1, q);
        DistinctConcat([q], SelectablesFromPos(g', x, y, val, dx, dy + 1).marks);
      } else {
        FromPosDistinct(g, x, y, val, dx, dy + 1);
      }
    }
  }

  /** The board's keys in dictionary order: the constructor inserts them x
      outer, y inner, and assigning to an existing key keeps its place. */
  function KeyOrder(): (keys: seq<Pos>)
    ensures |keys| == N * N
  {
    seq(N * N, k requires 0 <= k < N * N => Pos(k / N, k % N))
  }

  /** What get_all_selectables yields, and the consumer marks, for key s:
      nothing when its value is negative when the iteration reaches it,
      otherwise the neighbours get_selectables_from_pos yields for that value. */
  function VisitKey(g: Grid, s: Pos): (r: Marking)
    ensures r.grid.Keys == g.Keys
  {
    if s !in g || g[s].value < 0 then Marking(g, [])
    else SelectablesFromPos(g, s.x, s.y, g[s].value, -1, -1)
  }

  /** The loop of get_all_selectables after game start over the keys still
      to come. The key set never changes; what becomes of each cell is
      ScanCell. */
  function ScanFrom(g: Grid, keys: seq<Pos>): (r: Marking)
    ensures r.grid.Keys == g.Keys
    decreases |keys|
  {
    if keys == [] then Marking(g, [])
    else
      var step := VisitKey(g, keys[0]);
      var rest := ScanFrom(step.grid, keys[1..]);
      Marking(rest.grid, step.marks + rest.marks)
  }

  /** The key iteration at index k visits keys[k] and goes on with the rest. */
  lemma ScanNext(g: Grid, keys: seq<Pos>, k: nat)
    requires k < |keys|
    ensures var step := VisitKey(g, keys[k]);
      ScanFrom(g, keys[k..]) == Then(step.marks, ScanFrom(step.grid, keys[k + 1..]))
  {
    assert keys[k..][0] == keys[k] && keys[k..][1..] == keys[k + 1..];
  }

  /** Key s yields p exactly when s holds a value v >= 0 and p is a neighbour
      of s, empty or holding more than v; what it yields becomes
      (-1, CARD_SELECTABLE) and every other cell is kept. */
  lemma VisitKeyFacts(g: Grid, s: Pos, p: Pos)
    requires p in g
    ensures var r := VisitKey(g, s);
      && (p in r.marks <==> s in g && 0 <= g[s].value && Adjacent(s, p) && Eligible(g[p].value, g[s].value))
      && r.grid[p] == if p in r.marks then SelectableCell else g[p]
  {
    if s in g && 0 <= g[s].value {
      YieldedFromPos(g, s.x, s.y, g[s].value, -1, -1, p);
      FromPosCell(g, s.x, s.y, g[s].value, -1, -1, p);
    }
  }

  lemma VisitKeyDistinct(g: Grid, s: Pos)
    ensures Distinct(VisitKey(g, s).marks)
  {
    if s in g && 0 <= g[s].value {
      FromPosDistinct(g, s.x, s.y, g[s].value, -1, -1);
    }
  }

  /** Everything a visit yields is on the board. */
  lemma VisitKeyOnBoard(g: Grid, s: Pos, p: Pos)
    requires p in VisitKey(g, s).marks
    ensures p in g
  {
    YieldedFromPos(g, s.x, s.y, g[s].value, -1, -1, p);
  }

  /** A scan yields only cells that were empty or held a card of value at
      least 1: never a selectable, hover or 0 cell. */
  lemma {:induction false} ScanYieldsEmptyOrCard(g: Grid, keys: seq<Pos>, p: Pos)
    requires p in ScanFrom(g, keys).marks
    ensures p in g && (g[p].value == CARD_EMPTY || g[p].value > 0)
    decreases |keys|
  {
    if keys != [] {
      var step := VisitKey(g, keys[0]);
      var rest := ScanFrom(step.grid, keys[1..]);
      assert p in step.marks || p in rest.marks;
      if p in rest.marks {
        ScanYieldsEmptyOrCard(step.grid, keys[1..], p);
      } else {
        VisitKeyOnBoard(g, keys[0], p);
      }
      VisitKeyFacts(g, keys[0], p);
    }
  }

  /** The cells a scan yields become (-1, CARD_SELECTABLE), discarding any card
      they held; every other cell keeps what it held. */
  lemma {:induction false} ScanCell(g: Grid, keys: seq<Pos>, p: Pos)
    requires p in g
    ensures var r := ScanFrom(g, keys);
      r.grid[p] == if p in r.marks then SelectableCell else g[p]
    decreases |keys|
  {
    if keys != [] {
      var step := VisitKey(g, keys[0]);
      VisitKeyFacts(g, keys[0], p);
      ScanCell(step.grid, keys[1..], p);
    }
  }

  /** One scan never yields the same cell twice. */
  lemma {:induction false} ScanDistinct(g: Grid, keys: seq<Pos>)
    ensures Distinct(ScanFrom(g, keys).marks)
    decreases |keys|
  {
    if keys != [] {
      var step := VisitKey(g, keys[0]);
      var rest := ScanFrom(step.grid, keys[1..]);
      VisitKeyDistinct(g, keys[0]);
      ScanDistinct(step.grid, keys[1..]);
      forall p | p in step.marks ensures p !in rest.marks {
        VisitKeyOnBoard(g, keys[0], p);
        VisitKeyFacts(g, keys[0], p);
        if p in rest.marks {
          ScanYieldsEmptyOrCard(step.grid, keys[1..], p);
        }
      }
      DistinctConcat(step.marks, rest.marks);
    }
  }

  /** p has a source among `keys`: a cell s >= 0 next to p for which p is
      eligible, all read in g. */
  ghost predicate SupportedBy(g: Grid, keys: seq<Pos>, p: Pos)
    requires p in g
  {
    exists s :: s in keys && s in g && 0 <= g[s].value && Adjacent(s, p) && Eligible(g[p].value, g[s].value)
  }

  /** Only what a source yields is marked: a marked cell is a neighbour of a
      visited cell that held a value >= 0, and was empty or held more than
      that value. Sources are read as they were before the scan, because the
      only writes are marks, and a marked cell is no longer a source. */
  lemma {:induction false} ScanSound(g: Grid, keys: seq<Pos>, p: Pos)
    requires p in ScanFrom(g, keys).marks
    ensures p in g && SupportedBy(g, keys, p)
    decreases |keys|
  {
    var step := VisitKey(g, keys[0]);
    var rest := ScanFrom(step.grid, keys[1..]);
    ScanYieldsEmptyOrCard(g, keys, p);
    VisitKeyFacts(g, keys[0], p);
    if p in step.marks {
      assert keys[0] in keys;
    } else {
      assert p in rest.marks;
      ScanSound(step.grid, keys[1..], p);
      var t :| t in keys[1..] && t in step.grid && 0 <= step.grid[t].value && Adjacent(t, p)
        && Eligible(step.grid[p].value, step.grid[t].value);
      VisitKeyFacts(g, keys[0], t);
      assert t in keys;
    }
  }

  /** A visited source that no earlier source marked yields every eligible
      neighbour: such a neighbour is marked by this source or was already. */
  lemma {:induction false} ScanComplete(g: Grid, keys: seq<Pos>, s: Pos, p: Pos)
    requires s in keys && s in g && 0 <= g[s].value && s !in ScanFrom(g, keys).marks
    requires p in g && Adjacent(s, p) && Eligible(g[p].value, g[s].value)
    ensures p in ScanFrom(g, keys).marks
    decreases |keys|
  {
    var step := VisitKey(g, keys[0]);
    var rest := ScanFrom(step.grid, keys[1..]);
    VisitKeyFacts(g, keys[0], p);
    if keys[0] != s && p !in step.marks {
      VisitKeyFacts(g, keys[0], s);
      assert s in keys[1..];
      ScanComplete(step.grid, keys[1..], s, p);
    }
  }

  /** No cell holding a value >= 0 has an eligible neighbour left. */
  ghost predicate Stable(g: Grid) {
    forall s, p :: s in g && p in g && 0 <= g[s].value && Adjacent(s, p) ==> !Eligible(g[p].value, g[s].value)
  }

  /** A scan over every key leaves a stable board. */
  lemma ScanLeavesStable(g: Grid, keys: seq<Pos>)
    requires forall s :: s in g ==> s in keys
    ensures Stable(ScanFrom(g, keys).grid)
  {
    var r := ScanFrom(g, keys);
    forall s, p | s in r.grid && p in r.grid && 0 <= r.grid[s].value && Adjacent(s, p)
      ensures !Eligible(r.grid[p].value, r.grid[s].value)
    {
      ScanCell(g, keys, s);
      ScanCell(g, keys, p);
      if p !in r.marks && Eligible(g[p].value, g[s].value) {
        ScanComplete(g, keys, s, p);
      }
    }
  }

  /** On a stable board a scan yields nothing and writes nothing. */
  lemma {:induction false} StableScanIsNoOp(g: Grid, keys: seq<Pos>)
    requires Stable(g)
    ensures ScanFrom(g, keys) == Marking(g, [])
    decreases |keys|
  {
    if keys != [] {
      var step := VisitKey(g, keys[0]);
      forall p | p in g ensures p !in step.marks && step.grid[p] == g[p] {
        VisitKeyFacts(g, keys[0], p);
      }
      forall p | p in step.marks ensures false {
        VisitKeyOnBoard(g, keys[0], p);
      }
      assert step.grid == g;
      StableScanIsNoOp(g, keys[1..]);
    }
  }

  /** The k-th key of the iteration is (k / N, k % N), a board key. */
  lemma KeyOrderIndex(k: int)
    requires 0 <= k < N * N
    ensures KeyOrder()[k] == Pos(k / N, k % N) && OnBoard(KeyOrder()[k])
  {
  }

  /** Every board key appears in the iteration order, at index x * N + y. */
  lemma KeyOrderAt(p: Pos)
    requires OnBoard(p)
    ensures p.x * N + p.y < N * N && KeyOrder()[p.x * N + p.y] == p && p in KeyOrder()
  {
    var k := p.x * N + p.y;
    assert k / N == p.x && k % N == p.y;
  }

  lemma DistinctConcat(a: seq<Pos>, b: seq<Pos>)
    requires Distinct(a) && Distinct(b)
    requires forall p :: p in a ==> p !in b
    ensures Distinct(a + b)
  {
    forall i, j | 0 <= i < j < |a + b| ensures (a + b)[i] != (a + b)[j] {
      if j < |a| {
      } else if i >= |a| {
        assert (a + b)[i] == b[i - |a|] && (a + b)[j] == b[j - |a|];
      } else {
        assert (a + b)[i] == a[i] && (a + b)[j] == b[j - |a|];
        assert b[j - |a|] in b;
      }
    }
  }

  /** set_selectable's generator get_all_selectables: while the game has not
      started only the centre (5, 5) is yielded and marked, whatever the board
      holds; afterwards the full scan runs. The key set never changes. */
  function AllSelectables(g: Grid, gameStart: bool): (r: Marking)
    requires WellFormed(g)
    ensures WellFormed(r.grid)
    ensures gameStart ==> r.marks == [Centre]
  {
    if gameStart then Marking(g[Centre := SelectableCell], [Centre])
    else ScanFrom(g, KeyOrder())
  }

  /** set_selectable stamps exactly the cells it returns with
      (-1, CARD_SELECTABLE), never returns a cell twice, and leaves every
      other cell as it was. */
  lemma AllSelectablesCell(g: Grid, gameStart: bool, p: Pos)
    requires WellFormed(g) && p in g
    ensures var r := AllSelectables(g, gameStart);
      && Distinct(r.marks)
      && r.grid[p] == if p in r.marks then SelectableCell else g[p]
  {
    if !gameStart {
      ScanCell(g, KeyOrder(), p);
      ScanDistinct(g, KeyOrder());
    }
  }

  /** After game start a returned cell was empty or held a card of value at
      least 1, and lies next to a cell with a value >= 0 that it is eligible
      against; the drawn card plays no part. */
  lemma AllSelectablesSound(g: Grid, p: Pos)
    requires WellFormed(g) && p in AllSelectables(g, false).marks
    ensures p in g && (g[p].value == CARD_EMPTY || g[p].value > 0)
    ensures exists s :: s in g && 0 <= g[s].value && Adjacent(s, p) && Eligible(g[p].value, g[s].value)
  {
    ScanYieldsEmptyOrCard(g, KeyOrder(), p);
    ScanSound(g, KeyOrder(), p);
  }

  /** After game start a cell >= 0 that the scan leaves alone has made every
      eligible neighbour selectable. */
  lemma AllSelectablesComplete(g: Grid, s: Pos, p: Pos)
    requires WellFormed(g) && s in g && 0 <= g[s].value && s !in AllSelectables(g, false).marks
    requires p in g && Adjacent(s, p) && Eligible(g[p].value, g[s].value)
    ensures p in AllSelectables(g, false).marks
  {
    KeyOrderAt(s);
    ScanComplete(g, KeyOrder(), s, p);
  }

  /** After game start, a second consecutive set_selectable returns [] and
      changes nothing. */
  lemma SecondScanIsNoOp(g: Grid)
    requires WellFormed(g)
    ensures var r := AllSelectables(g, false);
      Stable(r.grid) && AllSelectables(r.grid, false) == Marking(r.grid, [])
  {
    forall s | s in g ensures s in KeyOrder() {
      KeyOrderAt(s);
    }
    var r := AllSelectables(g, false);
    ScanLeavesStable(g, KeyOrder());
    StableScanIsNoOp(r.grid, KeyOrder());
  }

  /** update's scan can wipe out the card just placed: a card at pos higher
      than a lone neighbouring card q is marked from q and becomes
      (-1, CARD_SELECTABLE). */
  lemma UpdateCanEraseThePlacedCard(g: Grid, pos: Pos, card: Cell, q: Pos)
    requires WellFormed(g) && OnBoard(pos) && q in g && Adjacent(q, pos)
    requires 0 <= g[q].value < card.value
    requires forall s :: s in g && s != q ==> g[s].value < 0
    ensures var r := AllSelectables(g[pos := card], false);
      pos in r.marks && r.grid[pos] == SelectableCell
  {
    var g' := g[pos := card];
    var r := AllSelectables(g', false);
    if q in r.marks {
      ScanSound(g', KeyOrder(), q);
      assert false;
    }
    AllSelectablesComplete(g', q, pos);
    AllSelectablesCell(g', false, pos);
  }
}
