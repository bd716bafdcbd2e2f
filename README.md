# Knight's travail in Dafny

A model of a small C++ program that finds the shortest sequence of knight
moves between two squares of an 8×8 chess board, with proofs of what the
program promises.

The program has four parts, and the model has one module for each:

- `Positions` (`position.dfy`, from `Position.h`). A square is two
  characters: the rank `'A'..'H'` and the file `'1'..'8'`. A `Delta` is a
  move offset, and it is added to the character codes. `Position` is a
  value type with the bounds check, `==`/`!=`, rendering and parsing. The
  in-place `move`/`+=` and the copying `+` act on a variable that holds a
  position, so they are methods of the class `MovablePosition`, whose
  fields `rank` and `file` stand for `m_rank` and `m_file`. `getRank`/`getFile` are the datatype's
  `rank`/`file` fields.
- `ChessPieces` (`chess_piece.dfy`, from `ChessPiece.h`). This module has
  the knight's table of 8 deltas and `MovesFrom`, the specification of
  `getValidMoves`. It also has the class `ChessPiece`, whose constructor
  `Knight` installs the knight table through `InitDeltas`. Its method
  `GetValidMoves` fills the `mutable` cache lazily and is proved equal to
  `MovesFrom`. `GetDeltas`/`GetPosition` are plain field reads.
- `UniformCostSearch` (`uniform_cost_search.dfy`, from
  `UniformCostSearch.h`). This is a generic breadth-first search. It keeps a
  FIFO frontier of paths (`seq<seq<State>>`) and an `explored` list
  (`seq<State>`). A state is marked explored when it is discovered, and the
  search returns the first extended path that reaches a goal. As in the
  code, `explored` starts empty, so the start state can be pushed onto the
  frontier once more when a neighbour rediscovers it. The abstract
  `SearchHelper` is a datatype that holds two functions, the goal test and
  the successor function. The inner `for` loop over the successors is the
  method `ExploreSuccessors`. The proof that the search is optimal uses
  `Reach(n)`, the set of states reachable in at most `n` steps.
- `KnightsTravail` (`knights_travail_helper.dfy`, from
  `KnightsTravailHelper.h`). `isGoal` is equality with a fixed goal.
  `getSuccessors` builds a fresh `Knight` and asks it for its valid moves.
  `FindKnightPath` runs the search on the 64 squares.

`wrappers.dfy` holds `Result` and `Outcome`. They stand for the
`std::invalid_argument` exceptions of the C++ code.

Parsing follows the code where the two-character input format suggests
otherwise. Only the first two characters are read, so `"a1xyz"` parses as
A1. A one-character string fails, because its NUL terminator is read as the
file.

## Model

| member | source | states |
|---|---|---|
| `Positions.Narrow` | Position.h:194-205 | the narrowing of an `int` argument to a `char` parameter keeps the code modulo 256 |
| `Positions.IsValidRank` | Position.h:194-197 | a character code passes iff it is one of the eight rank letters `'A'..'H'` |
| `Positions.IsValidFile` | Position.h:202-205 | a character code passes iff it is one of the eight file digits `'1'..'8'` |
| `Positions.Position.IsValidMove` | Position.h:85-88 | the bounds check on exact integer sums: it passes iff both target codes fall inside the 8×8 grid; from a board square, a passing move has an offset of at most 7 on each axis |
| `Positions.Position.IsValidMoveAsWritten` | Position.h:85-88 | the bounds check as written, with the sums narrowed to `char`: it accepts every move the exact check accepts, and it is the exact check applied to the delta left after narrowing |
| `Positions.Position.ShiftedAsWritten` | Position.h:102-103 | the in-place update as written, with the sums narrowed back into the `char` fields: the result is on the board and agrees with the integer target modulo 256 |
| `Positions.Position.Shifted` | Position.h:93-111 | a move that passes the bounds check lands on the board, exactly `d` away from the old square |
| `Positions.Position.Equals` | Position.h:132-135 | `==` compares rank and file, which is exactly structural equality |
| `Positions.Position.NotEquals` | Position.h:140-146 | `!=` is the negation of `==`, and holds exactly for different squares |
| `Positions.ToUpper` | Position.h:68 | `toupper` never yields a lower-case letter, and changes a character only by mapping `'a'..'z'` to `'A'..'Z'` |
| `Positions.Render` | Position.h:170-174 | `operator<<` writes the rank character, then the file character |
| `Positions.Parse` | Position.h:63-80 | parsing succeeds iff the first character is a letter A–H in either case and the second is a digit 1–8; on success the square is on the board and keeps the file; otherwise it fails with the out-of-range error |
| `Positions.DefaultPosition` | Position.h:56 | the default square A1 is on the board and equals the parse of "A1" |
| `Positions.ParseIgnoresCase` | Position.h:68-74 | a lower-case rank letter parses to the same square as its upper-case form |
| `Positions.RenderParse` | Position.h:170-174 | parsing the two-character rendering of a valid square gives the square back |
| `Positions.ParseRender` | Position.h:63-80 | rendering a parsed square gives the upper-cased rank and the file that were read |
| `Positions.ShiftThenNegate` | Position.h:93-111 | moving by `d` and then by `-d` is allowed and returns to the start |
| `Positions.AsWrittenAcceptsWrappedDelta` | Position.h:85-88 | the bounds check as written accepts `Delta(256, 0)` from A1, which the exact check rejects, and the update as written then leaves the square at A1 |
| `Positions.AsWrittenAgreesOnCharDeltas` | Position.h:85-88 | for deltas in the signed-char range, the check as written and the exact check agree |
| `Positions.MovablePosition.Default` | Position.h:56 | the default constructor gives A1 |
| `Positions.MovablePosition.Copy` | Position.h:160-165 | a copy holds the same square |
| `Positions.MovablePosition.Move` | Position.h:93-111 | `move` succeeds iff the move stays on the board and then adds `d` to both fields; otherwise it throws and leaves both fields unchanged; the square stays on the board |
| `Positions.MovablePosition.AddAssign` | Position.h:151-154 | `+=` behaves as `move` |
| `Positions.MovablePosition.Plus` | Position.h:160-165 | `+` returns the shifted square iff the move is valid, throws otherwise, and modifies nothing that existed before |
| `ChessPieces.KnightDeltas` | ChessPiece.h:14-19 | the table has 8 distinct entries, holds exactly the deltas of shape (±1,±2)/(±2,±1), and is closed under negation |
| `ChessPieces.MovesFrom` | ChessPiece.h:69-77 | the squares the table's on-board deltas lead to, in table order; every listed square is on the board |
| `ChessPieces.MovesFromMembers` | ChessPiece.h:69-77 | a square is among the moves iff some delta of the table passes the bounds check and leads to it |
| `ChessPieces.MovesFromLength` | ChessPiece.h:69-77 | there is at most one move per delta of the table |
| `ChessPieces.KnightMoves` | ChessPiece.h:61-80 | a knight has at most 8 moves, each on the board, and they are exactly the on-board knight jumps from its square |
| `ChessPieces.KnightMovesSymmetric` | ChessPiece.h:14-19 | on the board, `q` is a knight move from `p` iff `p` is a knight move from `q` |
| `ChessPieces.KnightMovesFromA1` | ChessPiece.h:69-77 | from A1 the moves are B3 then C2, in table order |
| `ChessPieces.ChessPiece.Knight` | ChessPiece.h:129-135 | a new knight stands on the given square, carries the knight table and has an empty cache |
| `ChessPieces.ChessPiece.InitDeltas` | ChessPiece.h:96-99 | installs the given table and leaves the square and the cache unchanged |
| `ChessPieces.ChessPiece.GetDeltas` | ChessPiece.h:48-51 | returns the piece's table of deltas |
| `ChessPieces.ChessPiece.GetPosition` | ChessPiece.h:85-88 | returns the square the piece stands on |
| `ChessPieces.ChessPiece.GetValidMoves` | ChessPiece.h:61-80 | returns the on-board moves in table order, leaves them in the cache, and changes neither the square nor the table |
| `ChessPieces.GetValidMovesTwice` | ChessPiece.h:63-79 | asking a knight twice gives the same list |
| `UniformCostSearch.PathEndReached` | UniformCostSearch.h:102-125 | the end of a path with `k` steps is reachable in `k` steps |
| `UniformCostSearch.ClosedSetHoldsReach` | UniformCostSearch.h:144-148 | a set that holds the start and the successors of its members holds every reachable state |
| `UniformCostSearch.AdvanceLevel` | UniformCostSearch.h:95-142 | when the front path grows by one state, every state one step further away has already been discovered |
| `UniformCostSearch.NoShorterGoalPath` | UniformCostSearch.h:126-131 | if no goal lies within `n` steps, every path to a goal has more than `n + 1` states |
| `UniformCostSearch.ClosedNoGoalPath` | UniformCostSearch.h:144-148 | if the discovered states are closed under successors and hold no goal, no path from the start reaches a goal |
| `UniformCostSearch.PushStep` | UniformCostSearch.h:115-138 | marking a new non-goal successor explored and pushing its path keeps `explored` duplicate-free, the frontier sorted by length within one of the front, and every discovered state expanded or pending |
| `UniformCostSearch.GoalStep` | UniformCostSearch.h:124-131 | a goal found one step past the front path gives a path to a goal no longer than any other |
| `UniformCostSearch.ExploreSuccessors` | UniformCostSearch.h:107-141 | the inner loop either returns a shortest path to a goal, or expands the state with every successor discovered and keeps the search invariant |
| `UniformCostSearch.FindShortestPathToGoal` | UniformCostSearch.h:52-149 | returns `[start]` when the start is a goal; otherwise a path from the start along successor edges to a goal with the fewest states, or empty exactly when no path reaches a goal |
| `KnightsTravail.KnightsTravailHelper.IsGoal` | KnightsTravailHelper.h:15-18 | a square is the goal exactly when it equals the fixed goal |
| `KnightsTravail.KnightsTravailHelper.GetSuccessors` | KnightsTravailHelper.h:20-24 | the successors are the knight's moves from the square, in table order, computed by a fresh knight |
| `KnightsTravail.KnightsTravailHelper.AsSearchHelper` | KnightsTravailHelper.h:10-13 | the search is given equality with the goal as goal test and the knight's moves as successors |
| `KnightsTravail.Board` | Position.h:48-51 | the board holds exactly the valid squares |
| `KnightsTravail.BoardClosed` | ChessPiece.h:72-75 | every knight move from a board square is a board square, so the search over the board terminates |
| `KnightsTravail.FindKnightPath` | main.cpp:11-16 | `solveKnightsTravail` builds a `KnightsTravailHelper` for the goal and runs the search from the start; the result is a shortest knight path from start to goal, `[start]` when they coincide, and empty exactly when no knight path reaches the goal |
| `KnightsTravail.KnightPathOnBoard` | KnightsTravailHelper.h:20-24 | every square of a knight path from a board square is on the board |
| `KnightsTravail.ReversedKnightPath` | KnightsTravailHelper.h:20-24 | a knight path read backwards is a knight path from its end to its start |
| `KnightsTravail.Examples` | main.cpp:11-16 | the travail from A1 to A1 is `[A1]`, and from A1 to B3 it is `[A1, B3]` |
| `KnightsTravail.KnightDistanceSymmetric` | KnightsTravailHelper.h:20-24 | the shortest travail from `a` to `b` has as many squares as the one from `b` to `a` |

## Left out

- The null-pointer check of the string constructor (Position.h:65-66) is left out. A Dafny string cannot be null.
- The stream operators `<<` and `>>` (Position.h:170-187) are modelled only as `Render` and `Parse` on strings. Stream state and whitespace handling are left out.
- Parsing the empty string reads past the terminator in C++, which is undefined behaviour. `Parse` treats it as the out-of-range error.
- `Delta` offsets are unbounded integers. The C++ `int` overflow of `m_rank + delta.rank` near `INT_MAX` is not modelled. Only the 8-bit narrowing in `isValidMove` is modelled, in `IsValidMoveAsWritten`.
- Virtual dispatch and inheritance (`SearchHelper`, `ChessPiece`/`Knight`) are not modelled. The helper is a record of two functions, and `Knight` is the constructor of `ChessPiece`.
- The `UniformCostSearch` object only stores the start and the helper, so the model passes them straight to `FindShortestPathToGoal`.
- UniformCostSearch.FindShortestPathToGoal: it needs a ghost finite `universe` that holds the start and is closed under successors, to prove termination. The C++ template has no such parameter. It runs forever only when infinitely many states are reachable from the start and none of them is a goal. The finite universe also excludes infinite reachable spaces that contain a reachable goal, where the C++ search stops with a shortest path; the model makes no promise for those. For the knight, the universe is the 64 squares.
- KnightsTravail.FindKnightPath: it requires the start square to be on the board. Every `Position` the C++ code can construct is on the board.
- Positions.MovablePosition.Move: it uses the exact bounds check `IsValidMove` and the exact update, which is the behaviour the C++ code evidently intends. The C++ `move` narrows both the check (Position.h:87) and the update (Position.h:102-103) to 8 bits. The two can differ only for offsets outside the signed-char range -128..127. For example, from A1 the C++ `move(Delta(256, 0))` succeeds and stays at A1, while `Move` fails with `MoveOutOfRange`. `IsValidMoveAsWritten` and `ShiftedAsWritten` model the narrowed behaviour.
- Positions.MovablePosition.AddAssign: it calls `Move`, so it has the same difference from the C++ `+=` for offsets outside -128..127.
- Positions.MovablePosition.Plus: it calls `AddAssign` on a copy, so it has the same difference from the C++ `+` for offsets outside -128..127.
- ChessPieces.MovesFrom: it uses the exact `IsValidMove`/`Shifted` for any table, while the C++ `getValidMoves` (ChessPiece.h:72-74) uses the narrowed check and update. For a table holding an offset outside -128..127 the two differ: for the table `[Delta(256, 0)]` from A1, `MovesFrom` is empty, but the C++ code would list A1. The same applies to `ChessPiece.GetValidMoves`. The program never reaches this case: `initDeltas` is protected and only the knight table is installed (ChessPiece.h:134), and `AsWrittenAgreesOnCharDeltas` covers every knight delta.
- The model does not prove that the knight graph is connected, so it does not prove that the result is non-empty for every pair of squares.
- main.cpp (prompts, reading from `cin`, printing the path, `try`/`catch`) is not part of this model.
- The linear `find` over `explored` is modelled as sequence membership. Its running time is not modelled.

## Findings

| source | as written | input that shows it | evidently intended | confidence | as-written member | corrected member |
|---|---|---|---|---|---|---|
| Position.h:85-88 | `isValidMove` passes the integer sums `m_rank + delta.rank` and `m_file + delta.file` to `char` parameters, so they are narrowed to 8 bits before the range check; `move` then narrows the update in the same way (Position.h:102-103) | `Delta(256, 0)` from A1: the narrowed rank is `'A'`, so the move is accepted and leaves the square at A1 | accept a delta only when the integer sums stay within `'A'..'H'` and `'1'..'8'` | medium; not executed | `Positions.AsWrittenAcceptsWrappedDelta` | `Positions.Position.Shifted` |
