# Othello rule engine (bevy_othello) in Dafny

This project models the rule engine of a two-player Othello game written in
Rust on the Bevy engine, and proves properties of the model. The engine is the
`GameMaster` resource and one placement handler:

- `GameMaster` (src/game_master.rs) holds an 8×8 board of optional stones,
  the colour to move (`turn`), and a `stone_placed` latch. Its queries are
  the directional capture walk `get_reversible`, its eight-direction
  combinations `get_reversible_at` and `is_placable_at`, and `next_turn`.
  `board_sync_system` copies the stone entities' colours and positions into
  the board.
- `handle_stone_placed` (src/stone.rs) takes the batch of pending
  `StonePlaced` events. It rejects a batch that is not exactly one event. It
  ignores a placement that captures nothing. Otherwise it places the stone,
  recolours every captured stone and passes the turn.

Modules, one per concern:

- `stone.dfy`, module `Stone`: the two-valued `Color` (the source's `Stone` enum and
  its `StoneType`), `Position`, and `Reverse`.
- `game_master.dfy`, module `GameMaster`: the `Board` (a `seq<seq<Option<Color>>>`
  constrained to 8×8 and indexed `board[y][x]` as in the source), the
  `State` record, `Default`, `NextTurn`, and the directional walk `Run` /
  `GetReversible`. The walk's reference definition is the `Brackets`
  predicate. The module also holds the eight-direction results
  `ReversibleAt`, the loop-shaped methods `GetReversibleAt` and `IsPlacableAt`,
  `BoardSync`, and the starting position.
- `placement.dfy`, module `Placement`: `HandleStonePlaced`, the accept, reject
  and apply logic of `handle_stone_placed`, as a pure function on the state
  and the event batch.
- `opening.dfy`, module `Opening`: the legal moves of the starting position.

The walk is a recursive function over the step count. Its termination measure,
`StepsToEdge`, is an upper bound on the steps left before the walk leaves the
board (on a diagonal it counts both coordinates, so it can exceed 8). The
actual bound is proved separately: from any cell of the board the walk is off
the board by step 8 (`WalkLeavesBoard`), so a run of captures along one
direction holds at most six stones (`GetReversibleAtMostSix`).

The `State` record models the `GameMaster` resource (src/game_master.rs:6-10),
the `StonePlaced` datatype models the event of the same name
(src/main.rs:126-130), and the constant `InitialStones` lists the four stones
src/main.rs:49-73 spawns, in spawn order.

Behaviour worth knowing, as the source has it:

- Captures are computed for `turn`, but the placed and recoloured stones take
  the event's colour. The click handler always stamps events with `turn`
  (src/main.rs:106), so the two agree in practice. `PlacementChangesExactly`
  assumes this agreement.
- A placement adds exactly one stone to the board: captured cells were
  already occupied and are only recoloured, so the occupied count grows by
  exactly one.
- With the starting stones of src/main.rs (Black on (3, 3) and (4, 4), White
  on (3, 4) and (4, 3)), Black's legal opening cells are (2, 4), (3, 5),
  (4, 2) and (5, 3).
- No skip counter, pass detection or end-of-game check exists in the source
  (`GameMaster` has only `turn`, `stone_placed` and `board`), so none is
  modelled.
- src/main.rs does not register `handle_stone_placed` as a system. The model
  describes what the function does when it runs.

## Model

| member | source | states |
|---|---|---|
| `Stone.Reverse` | src/stone.rs:33-38 | the flip always changes the colour; it has no fixed point |
| `Stone.ReverseInvolutive` | src/stone.rs:33-38 | flipping twice gives back the original colour |
| `Stone.ReverseIsOtherColor` | src/stone.rs:5-9 | with two colours, a colour differs from `c` exactly when it is `Reverse(c)` |
| `GameMaster.Default` | src/game_master.rs:12-20 | the default state has Black to move, the latch cleared and no occupied cell |
| `GameMaster.NextTurn` | src/game_master.rs:23-29 | the side to move changes, the latch is cleared, the board is untouched |
| `GameMaster.NextTurnTwice` | src/game_master.rs:23-29 | two turn changes restore the original side to move and board |
| `GameMaster.Run` | src/game_master.rs:67-89 | the walk loop from step k on: `None` where the source clears its result at the edge or an empty cell, `Some` of the opponent stones met before a stone of the side to move; its meaning is stated by `RunSound`, `RunComplete` and `RunUnclosed` |
| `GameMaster.GetReversible` | src/game_master.rs:58-91 | `get_reversible`: empty off the board or on an occupied cell, otherwise the walk's closed run; its meaning is stated by `GetReversibleSound`, `GetReversibleComplete` and `GetReversibleNonEmptyIff` |
| `GameMaster.GetReversibleAtMostSix` | src/game_master.rs:67-89 | a run of captures along one direction holds at most six stones, because the stone that closes it is still on the board |
| `GameMaster.WalkLeavesBoard` | src/game_master.rs:70-76 | from any cell of the board, the walk is off the board by step 8, where the loop's bounds check ends it |
| `GameMaster.RunWithinBoard` | src/game_master.rs:70-76 | a walk still on the board at step k has taken fewer than 8 steps |
| `GameMaster.RunSound` | src/game_master.rs:67-89 | a run the loop keeps holds opponent stones at consecutive steps along the direction and is closed by a stone of the side to move |
| `GameMaster.RunComplete` | src/game_master.rs:67-89 | a run of n opponent stones closed by a stone of the side to move is kept in full, with length n |
| `GameMaster.RunUnclosed` | src/game_master.rs:73-88 | a run that reaches the edge or an empty cell is discarded |
| `GameMaster.GetReversibleSound` | src/game_master.rs:58-91 | a non-empty directional result starts from an in-range empty cell; its k-th element is pos+(k+1)·d and holds an opponent stone; the cell after the last one holds a stone of the side to move |
| `GameMaster.GetReversibleComplete` | src/game_master.rs:58-91 | every bracketed run of length n ≥ 1 is returned at its full length |
| `GameMaster.GetReversibleNonEmptyIff` | src/game_master.rs:58-91 | the directional result is non-empty exactly when some run of n ≥ 1 opponent stones is bracketed along that direction |
| `GameMaster.GetReversibleEmptyWhenUnclosed` | src/game_master.rs:73-88 | the result is empty when, after zero or more opponent stones, the walk meets the edge or an empty cell |
| `GameMaster.GetReversibleEmptyWhenOwnNeighbour` | src/game_master.rs:77-79 | the result is empty when the immediate neighbour already holds a stone of the side to move |
| `GameMaster.Collect` | src/game_master.rs:46-55 | the directional results for a list of directions, concatenated in list order, as `extend` appends them; its meaning is stated by `CollectAppend`, `CollectMember` and `CollectEmpty` |
| `GameMaster.CollectAppend` | src/game_master.rs:46-55 | collecting over two lists of directions is the concatenation of collecting over each |
| `GameMaster.CollectMember` | src/game_master.rs:46-55 | every element of a combined result comes from one of the directions |
| `GameMaster.CollectEmpty` | src/game_master.rs:46-55 | a combined result is empty exactly when every direction's result is |
| `Placement.CollectContains` | src/game_master.rs:46-55 | a capture found along one direction is part of the combined result |
| `GameMaster.ReversibleAt` | src/game_master.rs:45-56 | `get_reversible_at` as a value: the eight directional results in the loops' scan order; its meaning is stated by `ReversibleAtMembers`, `ReversibleAtNonEmptyIff` and `GetReversibleAt` |
| `GameMaster.ReversibleAtBlocked` | src/game_master.rs:59-65 | off the board (x ≥ 8 or y ≥ 8) or on an occupied cell, nothing is captured in any direction |
| `GameMaster.ReversibleAtMembers` | src/game_master.rs:45-91 | every capture is an in-range opponent stone other than the target and lies on a run that some direction brackets, and a non-empty result implies the target is an empty in-range cell |
| `GameMaster.ReversibleAtNonEmptyIff` | src/game_master.rs:45-91 | the combined result is non-empty exactly when some direction brackets a run of opponent stones |
| `GameMaster.ReversibleAtNeedsOpponentNeighbour` | src/game_master.rs:45-89 | a cell with no opponent stone next to it captures nothing |
| `GameMaster.GetReversibleAt` | src/game_master.rs:45-56 | the nested loops return the concatenation of the eight directional results, dx outer and dy inner over -1..=1, (0, 0) skipped |
| `GameMaster.IsPlacableAt` | src/game_master.rs:31-43 | the early-returning loops answer true exactly when some direction captures, that is, exactly when `get_reversible_at` is non-empty |
| `GameMaster.BoardSync` | src/game_master.rs:99-107 | each in-range cell takes the colour of the last entity at it; entities off the board are skipped; cells no entity names keep their content, so nothing is cleared |
| `GameMaster.InitialState` | src/main.rs:49-73 | the default state after the four starting stones are synchronised into its board; its content is stated by `InitialPosition` |
| `GameMaster.InitialPosition` | src/main.rs:49-73 | the synchronised starting stones give Black on (3, 3) and (4, 4), White on (3, 4) and (4, 3), every other cell empty, four occupied cells, Black to move |
| `Placement.Recolor` | src/stone.rs:113-126 | every listed cell takes the placed colour and every other cell keeps its content |
| `Placement.HandleStonePlaced` | src/stone.rs:93-128 | a batch that is not exactly one event only clears the latch; a capture-free event changes nothing; an accepted event puts its stone on the target, recolours every capture, leaves all other cells alone, switches the turn and clears the latch |
| `Placement.PlacementAddsOneStone` | src/stone.rs:107-126 | an accepted placement fills the previously empty target and nothing else, so the occupied count grows by exactly one |
| `Placement.PlacementChangesExactly` | src/stone.rs:107-126 | with the event in the mover's colour, the cells that change are exactly the target and the captured cells |
| `Placement.PlacementFlipsEveryBracketedRun` | src/stone.rs:102-126 | any bracketed run in any direction makes the event acceptable, and every stone of that run ends up in the placed colour |
| `Opening.ShortWalk` | src/game_master.rs:70-89 | the directional result when the walk is decided within three steps |
| `Opening.OpeningCaptures` | src/main.rs:49-73 | each of Black's four opening moves captures exactly the one White stone it brackets |
| `Opening.OpeningLegalMoves` | src/main.rs:49-73 | in the starting position Black may play exactly at (2, 4), (3, 5), (4, 2) and (5, 3) |

## Left out

- src/settings.rs: screen geometry and the cursor-to-cell mapping use `f32`, which is not modelled.
- src/assets.rs: Bevy material and mesh loading is I/O.
- src/main.rs: app wiring, camera setup and `cursor_system` (mouse input) are I/O. Only the four starting stones are kept, as `InitialStones`.
- `StoneBundle::new`: its `f32` sprite transform is rendering.
- `Stone::new`, `Stone::black` and `Stone::white` are constructors with no logic; `Color` values are used directly.
- `handle_stone_placed` entity handling: the source spawns a stone entity at the target and despawns and respawns one at every captured position, and `board_sync_system` later copies them into the board. The model writes the board directly and treats the board as the record of which cells hold stones.
- `handle_stone_placed` and `board_sync_system` logging (`println!`, `eprintln!`) is output only.
- `Position`: coordinates are `nat` rather than `u32`. No arithmetic is done on a `Position`, so the width never matters. The walk's signed `i32` coordinates stay within -1..8 and cannot overflow.
- A skip counter, pass detection and an end-of-game check do not exist in the source and are not modelled.
