/** The legal moves of the starting position that src/main.rs sets up: with
    Black on (3, 3) and (4, 4) and White on (3, 4) and (4, 3), Black's only
    legal cells are (2, 4), (4, 2), (3, 5) and (5, 3), each capturing one stone.
 */
module Opening {
  import opened Stone
  import opened GameMaster

  /** The directional result when the walk is decided within three steps. */
  lemma ShortWalk(g: State, pos: Position, d: UnitDirection)
    requires InRange(pos) && At(g.board, pos) == None
    ensures var b, me, opp := g.board, g.turn, Reverse(g.turn);
      && (!HoldsColor(b, Offset(pos, d, 1), opp) ==> GetReversible(g, pos, d) == [])
      && (HoldsColor(b, Offset(pos, d, 1), opp) && HoldsColor(b, Offset(pos, d, 2), me) ==>
            GetReversible(g, pos, d) == [ToPosition(Offset(pos, d, 1))])
      && (HoldsColor(b, Offset(pos, d, 1), opp)
            && !HoldsColor(b, Offset(pos, d, 2), opp) && !HoldsColor(b, Offset(pos, d, 2), me) ==>
            GetReversible(g, pos, d) == [])
      && (HoldsColor(b, Offset(pos, d, 1), opp) && HoldsColor(b, Offset(pos, d, 2), opp)
            && !HoldsColor(b, Offset(pos, d, 3), opp) && !HoldsColor(b, Offset(pos, d, 3), me) ==>
            GetReversible(g, pos, d) == [])
  {
    var b, me, opp := g.board, g.turn, Reverse(g.turn);
    var p1, p2, p3 := Offset(pos, d, 1), Offset(pos, d, 2), Offset(pos, d, 3);
    if !HoldsColor(b, p1, opp) {
      if !OnBoard(p1) || b[p1.y][p1.x] == None {
        GetReversibleEmptyWhenUnclosed(g, pos, d, 0);
      } else {
        ReverseIsOtherColor(me, b[p1.y][p1.x].value);
        GetReversibleEmptyWhenOwnNeighbour(g, pos, d);
      }
    } else if HoldsColor(b, p2, me) {
      assert Brackets(b, me, pos, d, 1);
      GetReversibleComplete(g, pos, d, 1);
      GetReversibleSound(g, pos, d);
    } else if !HoldsColor(b, p2, opp) {
      if OnBoard(p2) && b[p2.y][p2.x] != None {
        ReverseIsOtherColor(me, b[p2.y][p2.x].value);
      }
      GetReversibleEmptyWhenUnclosed(g, pos, d, 1);
    } else if !HoldsColor(b, p3, opp) && !HoldsColor(b, p3, me) {
      if OnBoard(p3) && b[p3.y][p3.x] != None {
        ReverseIsOtherColor(me, b[p3.y][p3.x].value);
      }
      GetReversibleEmptyWhenUnclosed(g, pos, d, 2);
    }
  }

  /** When every direction but `Directions[i]` captures nothing, the combined
      result is that one direction's. */
  lemma OnlyDirection(g: State, pos: Position, i: nat)
    requires i < |Directions|
    requires forall j :: 0 <= j < |Directions| && j != i ==> GetReversible(g, pos, Directions[j]) == []
    ensures ReversibleAt(g, pos) == GetReversible(g, pos, Directions[i])
  {
    var ds := Directions;
    var before, here, after := ds[..i], [ds[i]], ds[i + 1..];
    assert ds == before + here + after;
    forall j | 0 <= j < |before|
      ensures GetReversible(g, pos, before[j]) == []
    {
      assert before[j] == ds[j];
    }
    forall j | 0 <= j < |after|
      ensures GetReversible(g, pos, after[j]) == []
    {
      assert after[j] == ds[i + 1 + j];
    }
    CollectEmpty(g, pos, before);
    CollectEmpty(g, pos, after);
    assert here[1..] == [];
    assert Collect(g, pos, here) == GetReversible(g, pos, ds[i]) + Collect(g, pos, []);
    CollectAppend(g, pos, before + here, after);
    CollectAppend(g, pos, before, here);
  }

  /** Every direction from `pos` in the starting position, decided by
      `ShortWalk`: only `Directions[i]` captures, and it captures `captured`. */
  lemma OpeningCapture(pos: Position, i: nat, captured: Position)
    requires InRange(pos) && InitialCell(pos) == None && i < |Directions|
    requires forall j :: 0 <= j < |Directions| ==> OnlyCaptureAlong(pos, i, captured, j)
    ensures ReversibleAt(InitialState(), pos) == [captured]
  {
    var g := InitialState();
    InitialPosition();
    assert At(g.board, pos) == None;
    forall j | 0 <= j < |Directions|
      ensures GetReversible(g, pos, Directions[j]) == (if j == i then [captured] else [])
    {
      assert OnlyCaptureAlong(pos, i, captured, j);
      ShortWalk(g, pos, Directions[j]);
      var p1, p2 := Offset(pos, Directions[j], 1), Offset(pos, Directions[j], 2);
      if OnBoard(p1) {
        assert g.board[p1.y][p1.x] == InitialCell(ToPosition(p1));
      }
      if j == i {
        assert g.board[p2.y][p2.x] == InitialCell(ToPosition(p2));
      }
    }
    OnlyDirection(g, pos, i);
  }

  /** The geometric side condition of `OpeningCapture`, checked direction by
      direction. */
  predicate OnlyCaptureAlong(pos: Position, i: nat, captured: Position, j: nat)
    requires j < |Directions|
  {
    var d := Directions[j];
    var p1, p2 := Offset(pos, d, 1), Offset(pos, d, 2);
    if j == i then
      OnBoard(p1) && OnBoard(p2) && captured == ToPosition(p1)
      && InitialCell(ToPosition(p1)) == Some(White) && InitialCell(ToPosition(p2)) == Some(Black)
    else
      !OnBoard(p1) || InitialCell(ToPosition(p1)) != Some(White)
  }

  /** Black's four opening moves: the cell played and the White stone it
      captures. */
  predicate IsOpeningMove(pos: Position, captured: Position) {
    || (pos == Position(2, 4) && captured == Position(3, 4))
    || (pos == Position(3, 5) && captured == Position(3, 4))
    || (pos == Position(4, 2) && captured == Position(4, 3))
    || (pos == Position(5, 3) && captured == Position(4, 3))
  }

  /** The index in `Directions` of the one direction an opening move captures along. */
  function OpeningDirection(pos: Position): nat {
    if pos == Position(2, 4) then 6
    else if pos == Position(3, 5) then 3
    else if pos == Position(4, 2) then 4
    else 1
  }

  lemma OpeningMoveAlong(pos: Position, captured: Position, j: nat)
    requires IsOpeningMove(pos, captured) && j < |Directions|
    ensures OnlyCaptureAlong(pos, OpeningDirection(pos), captured, j)
  {
    if j == 0 {} else if j == 1 {} else if j == 2 {} else if j == 3 {}
    else if j == 4 {} else if j == 5 {} else if j == 6 {} else {}
  }

  /** Each opening move of Black captures exactly one White stone. */
  lemma OpeningCaptures()
    ensures forall pos, captured :: IsOpeningMove(pos, captured) ==>
      ReversibleAt(InitialState(), pos) == [captured]
  {
    forall pos, captured | IsOpeningMove(pos, captured)
      ensures ReversibleAt(InitialState(), pos) == [captured]
    {
      forall j | 0 <= j < |Directions|
        ensures OnlyCaptureAlong(pos, OpeningDirection(pos), captured, j)
      {
        OpeningMoveAlong(pos, captured, j);
      }
      OpeningCapture(pos, OpeningDirection(pos), captured);
    }
  }

  /** The cells where Black may open. */
  const OpeningMoves: set<Position> := {Position(2, 4), Position(3, 5), Position(4, 2), Position(5, 3)}

  /** True when `c` is on the board and holds a stone in the starting position. */
  predicate InitiallyHolds(c: Point, stone: Color) {
    OnBoard(c) && InitialCell(ToPosition(c)) == Some(stone)
  }

  /** Along `Directions[j]` from `pos`, the starting position offers Black no
      capture: no White neighbour, or the White stones next to `pos` (one or
      two of them) are followed by an empty cell or the edge. */
  predicate NoCaptureAlong(pos: Position, j: nat)
    requires j < |Directions|
  {
    var d := Directions[j];
    var p1, p2, p3 := Offset(pos, d, 1), Offset(pos, d, 2), Offset(pos, d, 3);
    || !InitiallyHolds(p1, White)
    || (!InitiallyHolds(p2, White) && !InitiallyHolds(p2, Black))
    || (InitiallyHolds(p2, White) && !InitiallyHolds(p3, White) && !InitiallyHolds(p3, Black))
  }

  /** An empty starting cell with no capture along any direction is illegal. */
  lemma OpeningNoCapture(pos: Position)
    requires InRange(pos) && InitialCell(pos) == None
    requires forall j :: 0 <= j < |Directions| ==> NoCaptureAlong(pos, j)
    ensures ReversibleAt(InitialState(), pos) == []
  {
    var g := InitialState();
    InitialPosition();
    assert At(g.board, pos) == None;
    forall j | 0 <= j < |Directions|
      ensures GetReversible(g, pos, Directions[j]) == []
    {
      assert NoCaptureAlong(pos, j);
      ShortWalk(g, pos, Directions[j]);
      var d := Directions[j];
      var p1, p2, p3 := Offset(pos, d, 1), Offset(pos, d, 2), Offset(pos, d, 3);
      if OnBoard(p1) {
        assert g.board[p1.y][p1.x] == InitialCell(ToPosition(p1));
      }
      if OnBoard(p2) {
        assert g.board[p2.y][p2.x] == InitialCell(ToPosition(p2));
      }
      if OnBoard(p3) {
        assert g.board[p3.y][p3.x] == InitialCell(ToPosition(p3));
      }
    }
    CollectEmpty(g, pos, Directions);
  }

  /** An empty starting cell other than the four opening moves offers no
      capture along `Directions[j]`. */
  lemma OpeningGeometry(p: Position, j: nat)
    requires InRange(p) && InitialCell(p) == None && p !in OpeningMoves && j < |Directions|
    ensures NoCaptureAlong(p, j)
  {
    if j == 0 {} else if j == 1 {} else if j == 2 {} else if j == 3 {}
    else if j == 4 {} else if j == 5 {} else if j == 6 {} else {}
  }

  /** One cell of the starting position: legal for Black exactly when it is
      one of the four opening moves. */
  lemma OpeningCell(p: Position)
    requires InRange(p)
    ensures ReversibleAt(InitialState(), p) != [] <==> p in OpeningMoves
  {
    if InitialCell(p).Some? {
      InitialPosition();
      assert At(InitialState().board, p) == InitialState().board[p.y][p.x];
      ReversibleAtBlocked(InitialState(), p);
    } else if p in OpeningMoves {
      OpeningCaptures();
      var captured := if p.x == 2 || p.y == 5 then Position(3, 4) else Position(4, 3);
      assert IsOpeningMove(p, captured);
    } else {
      forall j | 0 <= j < |Directions|
        ensures NoCaptureAlong(p, j)
      {
        OpeningGeometry(p, j);
      }
      OpeningNoCapture(p);
    }
  }

  /** Black's legal opening cells are exactly (2, 4), (3, 5), (4, 2) and (5, 3). */
  lemma OpeningLegalMoves()
    ensures forall p :: InRange(p) ==> (ReversibleAt(InitialState(), p) != [] <==> p in OpeningMoves)
  {
    forall p | InRange(p)
      ensures ReversibleAt(InitialState(), p) != [] <==> p in OpeningMoves
    {
      OpeningCell(p);
    }
  }
}
