/** The decision logic of `handle_stone_placed` (src/stone.rs): accept or
    reject a batch of placement events and apply an accepted placement to the
    board. The source spawns and despawns stone entities and lets
    `board_sync_system` copy them into the board; here the board is written
    directly.
 */
module Placement {
  import opened Stone
  import opened GameMaster

  /** The `StonePlaced` event: the colour to place and the target cell. */
  datatype StonePlaced = StonePlaced(stone: Color, position: Position)

  /** Write colour `c` into every listed cell, one after the other. */
  function Recolor(b: Board, cells: seq<Position>, c: Color): (r: Board)
    requires forall p :: p in cells ==> InRange(p)
    ensures forall p :: InRange(p) ==> At(r, p) == (if p in cells then Some(c) else At(b, p))
    decreases |cells|
  {
    if cells == [] then b else Recolor(SetCell(b, cells[0], Some(c)), cells[1..], c)
  }

  /** The batch is accepted: it holds exactly one event, and a stone of the
      side to move would capture something at the event's position. */
  predicate Accepts(g: State, events: seq<StonePlaced>) {
    |events| == 1 && ReversibleAt(g, events[0].position) != []
  }

  /** `handle_stone_placed`. A batch that is not exactly one event is rejected
      and clears the latch. A single event whose position captures nothing
      (captures are computed for the side to move, `g.turn`) leaves the state
      alone. Otherwise the event's stone is placed, every captured cell takes
      its colour, and the turn passes. */
  function HandleStonePlaced(g: State, events: seq<StonePlaced>): (r: State)
    ensures |events| != 1 ==> r == g.(stonePlaced := false)
    ensures |events| == 1 && ReversibleAt(g, events[0].position) == [] ==> r == g
    ensures Accepts(g, events) ==>
      var ev := events[0];
      var captures := ReversibleAt(g, ev.position);
      && r.turn != g.turn && !r.stonePlaced
      && HoldsColor(r.board, AsPoint(ev.position), ev.stone)
      && (forall p :: p in captures ==> HoldsColor(r.board, AsPoint(p), ev.stone))
      && (forall p :: InRange(p) && p != ev.position && p !in captures ==> At(r.board, p) == At(g.board, p))
  {
    if |events| != 1 then g.(stonePlaced := false)
    else
      var ev := events[0];
      var captures := ReversibleAt(g, ev.position);
      if captures == [] then g
      else
        ReversibleAtMembers(g, ev.position);
        var placed := SetCell(g.board, ev.position, Some(ev.stone));
        NextTurn(g.(board := Recolor(placed, captures, ev.stone)))
  }

  /** An accepted placement puts a stone on an empty cell and only recolours
      stones already on the board, so exactly one cell becomes occupied. */
  lemma PlacementAddsOneStone(g: State, events: seq<StonePlaced>)
    requires Accepts(g, events)
    ensures var pos := events[0].position;
      && pos !in Occupied(g.board)
      && Occupied(HandleStonePlaced(g, events).board) == Occupied(g.board) + {pos}
      && |Occupied(HandleStonePlaced(g, events).board)| == |Occupied(g.board)| + 1
  {
    var pos := events[0].position;
    var r := HandleStonePlaced(g, events);
    var captures := ReversibleAt(g, pos);
    ReversibleAtMembers(g, pos);
    forall p
      ensures p in Occupied(r.board) <==> p in Occupied(g.board) + {pos}
    {
      if InRange(p) && p != pos && p in captures {
        assert At(g.board, p).Some?;
        assert HoldsColor(r.board, AsPoint(p), events[0].stone);
      }
    }
  }

  /** When the event carries the colour of the side to move (the only events
      the click handler sends), the cells that change are exactly the target
      and the captures: the target was empty and each capture held an
      opponent stone, and all of them now hold the mover's colour. */
  lemma PlacementChangesExactly(g: State, events: seq<StonePlaced>)
    requires Accepts(g, events) && events[0].stone == g.turn
    ensures var r := HandleStonePlaced(g, events);
      var pos := events[0].position;
      forall p :: InRange(p) ==>
        (At(r.board, p) != At(g.board, p) <==> p == pos || p in ReversibleAt(g, pos))
  {
    var r := HandleStonePlaced(g, events);
    var pos := events[0].position;
    ReversibleAtMembers(g, pos);
    forall p | InRange(p) && (p == pos || p in ReversibleAt(g, pos))
      ensures At(r.board, p) == Some(g.turn) && At(r.board, p) != At(g.board, p)
    {
      assert HoldsColor(r.board, AsPoint(p), g.turn);
    }
  }

  /** A capture found along one direction is part of the combined result. */
  lemma {:induction false} CollectContains(g: State, pos: Position, ds: seq<UnitDirection>, i: nat, e: Position)
    requires i < |ds| && e in GetReversible(g, pos, ds[i])
    ensures e in Collect(g, pos, ds)
  {
    if i > 0 {
      CollectContains(g, pos, ds[1..], i - 1, e);
    }
  }

  /** Every bracketed run, in every direction, is flipped to the placed colour:
      nothing the rules capture is left out. */
  lemma PlacementFlipsEveryBracketedRun(g: State, events: seq<StonePlaced>, i: nat, n: nat)
    requires |events| == 1 && i < |Directions| && 1 <= n
    requires Brackets(g.board, g.turn, events[0].position, Directions[i], n)
    ensures Accepts(g, events)
    ensures forall k :: 1 <= k <= n ==>
      HoldsColor(HandleStonePlaced(g, events).board, Offset(events[0].position, Directions[i], k), events[0].stone)
  {
    var pos, d := events[0].position, Directions[i];
    var run := GetReversible(g, pos, d);
    GetReversibleComplete(g, pos, d, n);
    GetReversibleSound(g, pos, d);
    CollectContains(g, pos, Directions, i, run[0]);
    forall k | 1 <= k <= n
      ensures HoldsColor(HandleStonePlaced(g, events).board, Offset(pos, d, k), events[0].stone)
    {
      CollectContains(g, pos, Directions, i, run[k - 1]);
      assert AsPoint(run[k - 1]) == Offset(pos, d, k);
    }
  }
}
