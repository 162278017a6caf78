/** The rule engine's state and queries (src/game_master.rs): the board, whose
    turn it is, the directional capture walk and the board synchronisation.
 */
module GameMaster {
  import opened Stone

  /** One cell of the board: `None` when empty. */
  type Cell = Option<Color>

  predicate IsBoard(b: seq<seq<Cell>>) {
    |b| == BoardSize && forall y :: 0 <= y < |b| ==> |b[y]| == BoardSize
  }

  /** The 8x8 grid, indexed `board[y][x]` as in the source. */
  type Board = b: seq<seq<Cell>> | IsBoard(b)
    witness seq(8, _ => seq(8, _ => None))

  /** The cell at an in-range position. */
  function At(b: Board, p: Position): Cell
    requires InRange(p)
  {
    b[p.y][p.x]
  }

  /** Overwrite one cell; every other cell keeps its content. */
  function SetCell(b: Board, p: Position, c: Cell): (r: Board)
    requires InRange(p)
    ensures At(r, p) == c
    ensures forall q :: InRange(q) && q != p ==> At(r, q) == At(b, q)
  {
    b[p.y := b[p.y][p.x := c]]
  }

  /** Two boards with the same content in every cell are the same board. */
  lemma BoardExtensionality(a: Board, b: Board)
    requires forall p :: InRange(p) ==> At(a, p) == At(b, p)
    ensures a == b
  {
    forall y | 0 <= y < BoardSize
      ensures a[y] == b[y]
    {
      forall x | 0 <= x < BoardSize
        ensures a[y][x] == b[y][x]
      {
        assert At(a, Position(x, y)) == At(b, Position(x, y));
      }
    }
  }

  /** The board with no stone on it. */
  function EmptyBoard(): (b: Board)
    ensures forall p :: InRange(p) ==> At(b, p) == None
  {
    seq(BoardSize, _ => seq(BoardSize, _ => None))
  }

  /** The set of occupied positions. */
  function Occupied(b: Board): (s: set<Position>)
    ensures forall p :: p in s <==> InRange(p) && At(b, p).Some?
  {
    set x: nat, y: nat | x < BoardSize && y < BoardSize && b[y][x].Some? :: Position(x, y)
  }

  /** The `GameMaster` resource: the side to move, the latch that records
      that a placement request is pending, and the board. */
  datatype State = State(turn: Color, stonePlaced: bool, board: Board)

  /** `GameMaster::default`: Black to move, no pending placement, empty board. */
  function Default(): (g: State)
    ensures g.turn == Black && !g.stonePlaced
    ensures Occupied(g.board) == {}
  {
    State(Black, false, EmptyBoard())
  }

  /** `next_turn`: hand the move to the other colour and clear the latch. */
  function NextTurn(g: State): (r: State)
    ensures r.turn != g.turn
    ensures !r.stonePlaced
    ensures r.board == g.board
  {
    g.(turn := Reverse(g.turn), stonePlaced := false)
  }

  /** Two turn changes give the move back and leave the board alone. */
  lemma NextTurnTwice(g: State)
    ensures NextTurn(NextTurn(g)) == g.(stonePlaced := false)
  {
  }

  // ---------------------------------------------------------------------------
  // Directions and the directional walk

  /** A step vector (`Direction` in the source). */
  datatype Direction = Direction(dx: int, dy: int)

  predicate IsUnit(d: Direction) {
    -1 <= d.dx <= 1 && -1 <= d.dy <= 1 && (d.dx != 0 || d.dy != 0)
  }

  /** One of the eight unit directions. */
  type UnitDirection = d: Direction | IsUnit(d) witness Direction(1, 0)

  /** The eight directions in the order the source's loops visit them:
      `dx` outer, `dy` inner, each over -1..=1, with (0, 0) skipped. */
  const Directions: seq<UnitDirection> := [
    Direction(-1, -1), Direction(-1, 0), Direction(-1, 1),
    Direction(0, -1), Direction(0, 1),
    Direction(1, -1), Direction(1, 0), Direction(1, 1)
  ]

  /** A signed coordinate reached during a walk (`i32` in the source). */
  datatype Point = Point(x: int, y: int)

  predicate OnBoard(p: Point) {
    0 <= p.x < BoardSize && 0 <= p.y < BoardSize
  }

  function AsPoint(p: Position): Point {
    Point(p.x, p.y)
  }

  function ToPosition(p: Point): (r: Position)
    requires OnBoard(p)
    ensures AsPoint(r) == p && InRange(r)
  {
    Position(p.x, p.y)
  }

  /** The point `pos + k·d`. */
  function Offset(pos: Position, d: Direction, k: int): Point {
    Point(pos.x + k * d.dx, pos.y + k * d.dy)
  }

  /** True when `p` is on the board and holds a stone of colour `c`. */
  predicate HoldsColor(b: Board, p: Point, c: Color) {
    OnBoard(p) && b[p.y][p.x] == Some(c)
  }

  /** An upper bound on the steps left before a walk along `d` leaves the board. */
  function StepsToEdge(p: Point, d: Direction): int {
    (if d.dx > 0 then BoardSize - p.x else if d.dx < 0 then p.x + 1 else 0)
    + (if d.dy > 0 then BoardSize - p.y else if d.dy < 0 then p.y + 1 else 0)
  }

  lemma OffsetStep(pos: Position, d: Direction, k: int)
    ensures Offset(pos, d, k + 1) == Point(Offset(pos, d, k).x + d.dx, Offset(pos, d, k).y + d.dy)
  {
  }

  /** The loop of `get_reversible` from its `k`-th step on. `None` is a run the
      source discards (it reaches an edge or an empty cell); `Some(s)` is a run
      closed by a stone of `turn`, `s` holding the opponent stones met from
      step `k` up to the closing stone. */
  function Run(b: Board, turn: Color, pos: Position, d: UnitDirection, k: nat): Option<seq<Position>>
    decreases StepsToEdge(Offset(pos, d, k), d)
  {
    var p := Offset(pos, d, k);
    if !OnBoard(p) then None
    else match b[p.y][p.x]
      case None => None
      case Some(stone) =>
        if stone == turn then Some([])
        else
          OffsetStep(pos, d, k);
          match Run(b, turn, pos, d, k + 1)
          case None => None
          case Some(rest) => Some([ToPosition(p)] + rest)
  }

  /** `get_reversible`: the opponent stones captured along `d` by placing a
      stone of `g.turn` at `pos`; empty when `pos` is off the board or
      occupied, or when the run is not closed by a stone of `g.turn`. */
  function GetReversible(g: State, pos: Position, d: UnitDirection): seq<Position> {
    if !InRange(pos) then []
    else if At(g.board, pos).Some? then []
    else match Run(g.board, g.turn, pos, d, 1)
      case None => []
      case Some(s) => s
  }

  /** A run of captures along one direction holds at most six stones: the
      closing stone must still be on the board. */
  lemma GetReversibleAtMostSix(g: State, pos: Position, d: UnitDirection)
    ensures |GetReversible(g, pos, d)| <= BoardSize - 2
  {
    var r := GetReversible(g, pos, d);
    if r != [] {
      GetReversibleSound(g, pos, d);
      RunWithinBoard(pos, d, |r| + 1);
    }
  }

  /** From a cell of the board, a walk is off the board by step `BoardSize`. */
  lemma WalkLeavesBoard(pos: Position, d: UnitDirection)
    requires InRange(pos)
    ensures !OnBoard(Offset(pos, d, BoardSize))
  {
  }

  /** A walk from a cell of the board that is still on the board at step `k`
      has taken fewer than `BoardSize` steps. */
  lemma RunWithinBoard(pos: Position, d: UnitDirection, k: nat)
    requires InRange(pos) && OnBoard(Offset(pos, d, k))
    ensures k < BoardSize
  {
    var p := Offset(pos, d, k);
    if d.dx == 1 {
      assert p.x == pos.x + k;
    } else if d.dx == -1 {
      assert p.x == pos.x - k;
    } else if d.dy == 1 {
      assert p.y == pos.y + k;
    } else {
      assert p.y == pos.y - k;
    }
  }

  /** Reference definition of a capture along `d`: `pos` is an empty cell, the
      `n` cells after it hold stones of the opponent of `turn`, and the cell
      after those holds a stone of `turn`. */
  predicate Brackets(b: Board, turn: Color, pos: Position, d: Direction, n: nat) {
    && InRange(pos)
    && At(b, pos) == None
    && (forall k :: 1 <= k <= n ==> HoldsColor(b, Offset(pos, d, k), Reverse(turn)))
    && HoldsColor(b, Offset(pos, d, n + 1), turn)
  }

  /** What a closed run contains: the element met at step `j` is `pos + j·d`
      and holds an opponent stone; the cell right after the run holds `turn`. */
  lemma {:induction false} RunSound(b: Board, turn: Color, pos: Position, d: UnitDirection, k: nat)
    requires Run(b, turn, pos, d, k).Some?
    ensures var s := Run(b, turn, pos, d, k).value;
      && (forall j :: k <= j < k + |s| ==>
            AsPoint(s[j - k]) == Offset(pos, d, j) && HoldsColor(b, Offset(pos, d, j), Reverse(turn)))
      && HoldsColor(b, Offset(pos, d, k + |s|), turn)
    decreases StepsToEdge(Offset(pos, d, k), d)
  {
    var p := Offset(pos, d, k);
    var s := Run(b, turn, pos, d, k).value;
    if b[p.y][p.x] != Some(turn) {
      OffsetStep(pos, d, k);
      var rest := Run(b, turn, pos, d, k + 1).value;
      RunSound(b, turn, pos, d, k + 1);
      assert s == [ToPosition(p)] + rest;
      forall j | k <= j < k + |s|
        ensures AsPoint(s[j - k]) == Offset(pos, d, j) && HoldsColor(b, Offset(pos, d, j), Reverse(turn))
      {
        if j > k {
          assert s[j - k] == rest[j - (k + 1)];
        }
      }
    }
  }

  /** A run of `n` opponent stones from step `k` closed by a stone of `turn`
      is found in full. */
  lemma {:induction false} RunComplete(b: Board, turn: Color, pos: Position, d: UnitDirection, k: nat, n: nat)
    requires forall j :: k <= j < k + n ==> HoldsColor(b, Offset(pos, d, j), Reverse(turn))
    requires HoldsColor(b, Offset(pos, d, k + n), turn)
    ensures Run(b, turn, pos, d, k).Some? && |Run(b, turn, pos, d, k).value| == n
    decreases n
  {
    if n > 0 {
      assert HoldsColor(b, Offset(pos, d, k), Reverse(turn));
      RunComplete(b, turn, pos, d, k + 1, n - 1);
    }
  }

  /** A non-empty directional result is exactly a bracketed run: its `k`-th
      element is `pos + (k + 1)·d`, each holds an opponent stone, and the cell
      after the last one holds a stone of the side to move. */
  lemma GetReversibleSound(g: State, pos: Position, d: UnitDirection)
    requires GetReversible(g, pos, d) != []
    ensures var r := GetReversible(g, pos, d);
      && Brackets(g.board, g.turn, pos, d, |r|)
      && forall k :: 0 <= k < |r| ==> AsPoint(r[k]) == Offset(pos, d, k + 1)
  {
    var b, turn := g.board, g.turn;
    assert InRange(pos) && At(b, pos) == None;
    var r := Run(b, turn, pos, d, 1).value;
    assert r == GetReversible(g, pos, d);
    RunSound(b, turn, pos, d, 1);
    forall k | 0 <= k < |r|
      ensures AsPoint(r[k]) == Offset(pos, d, k + 1)
    {
      assert AsPoint(r[(k + 1) - 1]) == Offset(pos, d, k + 1);
    }
  }

  /** Every bracketed run of length at least one is found, at its full length. */
  lemma GetReversibleComplete(g: State, pos: Position, d: UnitDirection, n: nat)
    requires 1 <= n && Brackets(g.board, g.turn, pos, d, n)
    ensures |GetReversible(g, pos, d)| == n
  {
    forall j | 1 <= j < 1 + n
      ensures HoldsColor(g.board, Offset(pos, d, j), Reverse(g.turn))
    {
    }
    assert n + 1 == 1 + n;
    RunComplete(g.board, g.turn, pos, d, 1, n);
  }

  /** The directional result is non-empty exactly when some run is bracketed. */
  lemma GetReversibleNonEmptyIff(g: State, pos: Position, d: UnitDirection)
    ensures GetReversible(g, pos, d) != [] <==> exists n :: 1 <= n && Brackets(g.board, g.turn, pos, d, n)
  {
    if GetReversible(g, pos, d) != [] {
      GetReversibleSound(g, pos, d);
      assert Brackets(g.board, g.turn, pos, d, |GetReversible(g, pos, d)|);
    }
    if n :| 1 <= n && Brackets(g.board, g.turn, pos, d, n) {
      GetReversibleComplete(g, pos, d, n);
    }
  }

  /** A walk that meets the board edge or an empty cell after a run of
      opponent stones is discarded. */
  lemma {:induction false} RunUnclosed(b: Board, turn: Color, pos: Position, d: UnitDirection, k: nat, m: nat)
    requires k <= m + 1
    requires forall j :: k <= j <= m ==> HoldsColor(b, Offset(pos, d, j), Reverse(turn))
    requires var p := Offset(pos, d, m + 1); !OnBoard(p) || b[p.y][p.x] == None
    ensures Run(b, turn, pos, d, k) == None
    decreases m + 1 - k
  {
    if k <= m {
      assert HoldsColor(b, Offset(pos, d, k), Reverse(turn));
      RunUnclosed(b, turn, pos, d, k + 1, m);
    }
  }

  /** The empty cases of the walk: after `m` opponent stones (possibly none)
      the walk meets the board edge or an empty cell. */
  lemma GetReversibleEmptyWhenUnclosed(g: State, pos: Position, d: UnitDirection, m: nat)
    requires forall k :: 1 <= k <= m ==> HoldsColor(g.board, Offset(pos, d, k), Reverse(g.turn))
    requires var p := Offset(pos, d, m + 1); !OnBoard(p) || g.board[p.y][p.x] == None
    ensures GetReversible(g, pos, d) == []
  {
    RunUnclosed(g.board, g.turn, pos, d, 1, m);
  }

  /** The remaining empty case: the immediate neighbour already holds a stone
      of the side to move. */
  lemma GetReversibleEmptyWhenOwnNeighbour(g: State, pos: Position, d: UnitDirection)
    requires HoldsColor(g.board, Offset(pos, d, 1), g.turn)
    ensures GetReversible(g, pos, d) == []
  {
    assert Run(g.board, g.turn, pos, d, 1) == Some([]);
  }

  // ---------------------------------------------------------------------------
  // Combining the eight directions

  /** The directional results for `ds`, concatenated in order. */
  function Collect(g: State, pos: Position, ds: seq<UnitDirection>): seq<Position> {
    if ds == [] then [] else GetReversible(g, pos, ds[0]) + Collect(g, pos, ds[1..])
  }

  /** `get_reversible_at` as a value: every capture of a placement at `pos`,
      in the order the directions are scanned. */
  function ReversibleAt(g: State, pos: Position): seq<Position> {
    Collect(g, pos, Directions)
  }

  lemma {:induction false} CollectAppend(g: State, pos: Position, ds1: seq<UnitDirection>, ds2: seq<UnitDirection>)
    ensures Collect(g, pos, ds1 + ds2) == Collect(g, pos, ds1) + Collect(g, pos, ds2)
  {
    if ds1 == [] {
      assert ds1 + ds2 == ds2;
    } else {
      assert (ds1 + ds2)[1..] == ds1[1..] + ds2;
      CollectAppend(g, pos, ds1[1..], ds2);
    }
  }

  /** An element of a combined result comes from one of the directions. */
  lemma {:induction false} CollectMember(g: State, pos: Position, ds: seq<UnitDirection>, e: Position)
    requires e in Collect(g, pos, ds)
    ensures exists i :: 0 <= i < |ds| && e in GetReversible(g, pos, ds[i])
  {
    if e !in GetReversible(g, pos, ds[0]) {
      CollectMember(g, pos, ds[1..], e);
      var i :| 0 <= i < |ds[1..]| && e in GetReversible(g, pos, ds[1..][i]);
      assert e in GetReversible(g, pos, ds[i + 1]);
    }
  }

  /** A combined result is empty exactly when every direction is. */
  lemma {:induction false} CollectEmpty(g: State, pos: Position, ds: seq<UnitDirection>)
    ensures Collect(g, pos, ds) == [] <==> forall i :: 0 <= i < |ds| ==> GetReversible(g, pos, ds[i]) == []
  {
    if ds != [] {
      CollectEmpty(g, pos, ds[1..]);
      if forall i :: 0 <= i < |ds[1..]| ==> GetReversible(g, pos, ds[1..][i]) == [] {
        forall i | 1 <= i < |ds|
          ensures GetReversible(g, pos, ds[i]) == []
        {
          assert ds[i] == ds[1..][i - 1];
        }
      }
    }
  }

  /** Off the board, or on an occupied cell, nothing is ever captured. */
  lemma ReversibleAtBlocked(g: State, pos: Position)
    requires !InRange(pos) || At(g.board, pos).Some?
    ensures ReversibleAt(g, pos) == []
  {
    CollectEmpty(g, pos, Directions);
  }

  /** Every capture is an in-range opponent stone (so never `pos` itself)
      lying on a run that some direction brackets, and a non-empty result
      means `pos` is an empty cell of the board. */
  lemma ReversibleAtMembers(g: State, pos: Position)
    ensures ReversibleAt(g, pos) != [] ==> InRange(pos) && At(g.board, pos) == None
    ensures forall e :: e in ReversibleAt(g, pos) ==>
      InRange(e) && At(g.board, e) == Some(Reverse(g.turn)) && e != pos
    ensures forall e :: e in ReversibleAt(g, pos) ==>
      (exists i, n, k :: 0 <= i < |Directions| && 1 <= k <= n
        && Brackets(g.board, g.turn, pos, Directions[i], n) && AsPoint(e) == Offset(pos, Directions[i], k))
  {
    if ReversibleAt(g, pos) != [] {
      if !InRange(pos) || At(g.board, pos).Some? {
        ReversibleAtBlocked(g, pos);
      }
    }
    forall e | e in ReversibleAt(g, pos)
      ensures InRange(e) && At(g.board, e) == Some(Reverse(g.turn)) && e != pos
      ensures (exists i, n, k :: 0 <= i < |Directions| && 1 <= k <= n
                 && Brackets(g.board, g.turn, pos, Directions[i], n) && AsPoint(e) == Offset(pos, Directions[i], k))
    {
      CollectMember(g, pos, Directions, e);
      var i :| 0 <= i < |Directions| && e in GetReversible(g, pos, Directions[i]);
      var d := Directions[i];
      var r := GetReversible(g, pos, d);
      GetReversibleSound(g, pos, d);
      var k :| 0 <= k < |r| && r[k] == e;
      assert AsPoint(e) == Offset(pos, d, k + 1);
      assert HoldsColor(g.board, Offset(pos, d, k + 1), Reverse(g.turn));
      assert Brackets(g.board, g.turn, pos, Directions[i], |r|) && 1 <= k + 1 <= |r|;
    }
  }

  /** A placement is legal exactly when some direction holds a bracketed run. */
  lemma ReversibleAtNonEmptyIff(g: State, pos: Position)
    ensures ReversibleAt(g, pos) != [] <==>
      exists i, n :: 0 <= i < |Directions| && 1 <= n && Brackets(g.board, g.turn, pos, Directions[i], n)
  {
    CollectEmpty(g, pos, Directions);
    if ReversibleAt(g, pos) != [] {
      var i :| 0 <= i < |Directions| && GetReversible(g, pos, Directions[i]) != [];
      GetReversibleNonEmptyIff(g, pos, Directions[i]);
    }
    if i, n :| 0 <= i < |Directions| && 1 <= n && Brackets(g.board, g.turn, pos, Directions[i], n) {
      GetReversibleNonEmptyIff(g, pos, Directions[i]);
    }
  }

  /** A cell with no opponent stone next to it is never a legal placement. */
  lemma ReversibleAtNeedsOpponentNeighbour(g: State, pos: Position)
    requires forall i :: 0 <= i < |Directions| ==> !HoldsColor(g.board, Offset(pos, Directions[i], 1), Reverse(g.turn))
    ensures ReversibleAt(g, pos) == []
  {
    CollectEmpty(g, pos, Directions);
    forall i | 0 <= i < |Directions|
      ensures GetReversible(g, pos, Directions[i]) == []
    {
      var d := Directions[i];
      var p := Offset(pos, d, 1);
      if !OnBoard(p) || g.board[p.y][p.x] == None {
        GetReversibleEmptyWhenUnclosed(g, pos, d, 0);
      } else {
        ReverseIsOtherColor(g.turn, g.board[p.y][p.x].value);
        GetReversibleEmptyWhenOwnNeighbour(g, pos, d);
      }
    }
  }

  /** The number of directions the source's nested loops have visited before
      reaching `(x, y)`. */
  function ScanIndex(x: int, y: int): int {
    (x + 1) * 3 + (y + 1) - (if x > 0 || (x == 0 && y > 0) then 1 else 0)
  }

  lemma DirectionAtScanIndex(x: int, y: int)
    requires -1 <= x <= 1 && -1 <= y <= 1 && (x != 0 || y != 0)
    ensures 0 <= ScanIndex(x, y) < |Directions| && Directions[ScanIndex(x, y)] == Direction(x, y)
  {
    if x == -1 {
      if y == -1 {} else if y == 0 {} else {}
    } else if x == 0 {
      if y == -1 {} else {}
    } else {
      if y == -1 {} else if y == 0 {} else {}
    }
  }

  /** `get_reversible_at`, following the source's nested loops. */
  method GetReversibleAt(g: State, pos: Position) returns (r: seq<Position>)
    ensures r == ReversibleAt(g, pos)
  {
    r := [];
    for x := -1 to 2
      invariant r == Collect(g, pos, Directions[..ScanIndex(x, -1)])
    {
      for y := -1 to 2
        invariant r == Collect(g, pos, Directions[..ScanIndex(x, y)])
      {
        if x == 0 && y == 0 {
          continue;
        }
        var i := ScanIndex(x, y);
        DirectionAtScanIndex(x, y);
        assert Directions[..i + 1] == Directions[..i] + [Directions[i]];
        CollectAppend(g, pos, Directions[..i], [Directions[i]]);
        r := r + GetReversible(g, pos, Direction(x, y));
      }
    }
    assert Directions[..ScanIndex(2, -1)] == Directions;
  }

  /** `is_placable_at`, following the source's nested loops with their early
      return: true exactly when some direction captures, that is, exactly when
      `get_reversible_at` is non-empty. */
  method IsPlacableAt(g: State, pos: Position) returns (placable: bool)
    ensures placable <==> exists i :: 0 <= i < |Directions| && GetReversible(g, pos, Directions[i]) != []
    ensures placable <==> ReversibleAt(g, pos) != []
  {
    CollectEmpty(g, pos, Directions);
    for x := -1 to 2
      invariant forall i :: 0 <= i < ScanIndex(x, -1) ==> GetReversible(g, pos, Directions[i]) == []
    {
      for y := -1 to 2
        invariant forall i :: 0 <= i < ScanIndex(x, y) ==> GetReversible(g, pos, Directions[i]) == []
      {
        if x == 0 && y == 0 {
          continue;
        }
        DirectionAtScanIndex(x, y);
        if GetReversible(g, pos, Direction(x, y)) != [] {
          assert GetReversible(g, pos, Directions[ScanIndex(x, y)]) != [];
          return true;
        }
      }
    }
    return false;
  }

  // ---------------------------------------------------------------------------
  // Board synchronisation and the starting position

  /** A stone entity as seen by `board_sync_system`: its colour and position. */
  datatype PlacedStone = PlacedStone(stone: Color, pos: Position)

  /** Reference for the synchronisation: the colour of the last entry at `p`. */
  function LastColorAt(stones: seq<PlacedStone>, p: Position): Option<Color> {
    if stones == [] then None
    else if stones[|stones| - 1].pos == p then Some(stones[|stones| - 1].stone)
    else LastColorAt(stones[..|stones| - 1], p)
  }

  lemma {:induction false} LastColorAtFront(stones: seq<PlacedStone>, p: Position)
    requires stones != []
    ensures LastColorAt(stones, p) ==
      if LastColorAt(stones[1..], p).Some? then LastColorAt(stones[1..], p)
      else if stones[0].pos == p then Some(stones[0].stone)
      else None
    decreases |stones|
  {
    if |stones| > 1 {
      var front := stones[..|stones| - 1];
      assert front[1..] == stones[1..][..|stones[1..]| - 1];
      LastColorAtFront(front, p);
    }
  }

  /** `board_sync_system`: copy each entity's stone into its cell, in
      iteration order, skipping entities whose position is off the board. A
      cell takes the colour of the last entry at it; cells no entry mentions
      keep their content, so nothing is ever cleared. */
  function BoardSync(b: Board, stones: seq<PlacedStone>): (r: Board)
    ensures forall p :: InRange(p) ==>
      At(r, p) == (if LastColorAt(stones, p).Some? then LastColorAt(stones, p) else At(b, p))
    decreases |stones|
  {
    if stones == [] then b
    else
      var s := stones[0];
      var b' := if InRange(s.pos) then SetCell(b, s.pos, Some(s.stone)) else b;
      assert forall p :: InRange(p) ==> (LastColorAt(stones, p) ==
        if LastColorAt(stones[1..], p).Some? then LastColorAt(stones[1..], p)
        else if s.pos == p then Some(s.stone)
        else None)
      by {
        forall p | InRange(p) {
          LastColorAtFront(stones, p);
        }
      }
      BoardSync(b', stones[1..])
  }

  /** The four starting stones spawned by main.rs, in spawn order. */
  const InitialStones: seq<PlacedStone> := [
    PlacedStone(Black, Position(3, 3)), PlacedStone(Black, Position(4, 4)),
    PlacedStone(White, Position(3, 4)), PlacedStone(White, Position(4, 3))
  ]

  /** The engine once the starting stones have been synchronised into it. */
  function InitialState(): State {
    Default().(board := BoardSync(EmptyBoard(), InitialStones))
  }

  /** The content of cell `p` in the starting position. */
  function InitialCell(p: Position): Cell {
    if p == Position(3, 3) || p == Position(4, 4) then Some(Black)
    else if p == Position(3, 4) || p == Position(4, 3) then Some(White)
    else None
  }

  /** The starting position: Black to move, Black on (3, 3) and (4, 4), White
      on (3, 4) and (4, 3), every other cell empty. */
  lemma InitialPosition()
    ensures InitialState().turn == Black && !InitialState().stonePlaced
    ensures forall x, y :: 0 <= x < BoardSize && 0 <= y < BoardSize ==>
      InitialState().board[y][x] == InitialCell(Position(x, y))
    ensures Occupied(InitialState().board) ==
      {Position(3, 3), Position(4, 4), Position(3, 4), Position(4, 3)}
  {
    var s := InitialStones;
    forall x, y | 0 <= x < BoardSize && 0 <= y < BoardSize
      ensures LastColorAt(s, Position(x, y)) == InitialCell(Position(x, y))
    {
      var p := Position(x, y);
      var s3, s2, s1 := s[..3], s[..3][..2], s[..3][..2][..1];
      assert s1[..0] == [];
      assert LastColorAt(s1, p) == if p == Position(3, 3) then Some(Black) else None;
      assert LastColorAt(s2, p) == if p == Position(4, 4) then Some(Black) else LastColorAt(s1, p);
      assert LastColorAt(s3, p) == if p == Position(3, 4) then Some(White) else LastColorAt(s2, p);
      assert LastColorAt(s, p) == if p == Position(4, 3) then Some(White) else LastColorAt(s3, p);
    }
    var occupied := {Position(3, 3), Position(4, 4), Position(3, 4), Position(4, 3)};
    forall p
      ensures p in Occupied(InitialState().board) <==> p in occupied
    {
      if InRange(p) {
        assert At(InitialState().board, p) == InitialState().board[p.y][p.x];
      }
    }
  }
}
