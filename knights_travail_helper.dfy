/**
  The search problem of the knight's travail (KnightsTravailHelper.h): the
  goal test is equality with a fixed goal square, and the successors of a
  square are the knight's valid moves from it.
*/
module KnightsTravail {
  import opened Positions
  import opened ChessPieces
  import opened UniformCostSearch

  /** The helper holds its goal; a datatype value, so it cannot be changed after construction. */
  datatype KnightsTravailHelper = KnightsTravailHelper(goal: Position) {

    /** `isGoal`: `s == m_goal`, using `operator==`. */
    predicate IsGoal(s: Position)
      ensures IsGoal(s) <==> s == goal
    {
      s.Equals(goal)
    }

    /**
      `getSuccessors`: asks a fresh knight standing on `s` for its valid
      moves.  The knight is built for this call alone, so the answer comes
      from its own, initially empty, cache and never from one filled for
      another square.
    */
    method GetSuccessors(s: Position) returns (succ: seq<Position>)
      ensures succ == KnightMoves(s)
    {
      var theKnight := new ChessPiece.Knight(s);
      succ := theKnight.GetValidMoves();
    }

    /** The helper as the pair of functions the search is parameterised by. */
    function AsSearchHelper(): (h: SearchHelper<Position>)
      ensures forall s :: h.isGoal(s) <==> s == goal
      ensures forall s :: h.getSuccessors(s) == KnightMoves(s)
    {
      SearchHelper(s => IsGoal(s), KnightMoves)
    }
  }

  /** The 64 squares of the board. */
  function Board(): (b: set<Position>)
    ensures forall p :: p in b <==> p.Valid()
  {
    set r: char, f: char | MinRank <= r <= MaxRank && MinFile <= f <= MaxFile :: Position(r, f)
  }

  /** The board is closed under knight moves. */
  lemma BoardClosed()
    ensures forall s, t :: s in Board() && t in KnightMoves(s) ==> t in Board()
  {
  }

  /**
    The knight's travail from `start` to `goal`: a shortest sequence of
    knight moves, or empty exactly when no sequence of moves reaches the goal.
  */
  method FindKnightPath(start: Position, goal: Position) returns (path: seq<Position>)
    requires start.Valid()
    ensures start == goal ==> path == [start]
    ensures path != [] ==> path[0] == start && Last(path) == goal
    ensures path != [] ==> forall i :: 1 <= i < |path| ==> path[i] in KnightMoves(path[i - 1])
    ensures path != [] ==> forall p :: IsPathFrom(KnightMoves, start, p) && Last(p) == goal ==> |path| <= |p|
    ensures path == [] <==> forall p :: IsPathFrom(KnightMoves, start, p) ==> Last(p) != goal
  {
    var helper := KnightsTravailHelper(goal).AsSearchHelper();
    BoardClosed();
    path := FindShortestPathToGoal(start, helper, Board());
  }

  /** `p` read backwards. */
  function Reversed<T>(p: seq<T>): (r: seq<T>)
    ensures |r| == |p| && forall i :: 0 <= i < |p| ==> r[i] == p[|p| - 1 - i]
  {
    seq(|p|, i requires 0 <= i < |p| => p[|p| - 1 - i])
  }

  /** Every square of a knight path from a square on the board is on the board. */
  lemma KnightPathOnBoard(a: Position, p: seq<Position>)
    requires a.Valid() && IsPathFrom(KnightMoves, a, p)
    ensures forall i :: 0 <= i < |p| ==> p[i].Valid()
  {
    forall i | 0 <= i < |p| ensures p[i].Valid() {
      if i > 0 {
        assert p[i] in KnightMoves(p[i - 1]);
      }
    }
  }

  /** A knight path read backwards is a knight path from its end back to its start. */
  lemma ReversedKnightPath(a: Position, p: seq<Position>)
    requires a.Valid() && IsPathFrom(KnightMoves, a, p)
    ensures IsPathFrom(KnightMoves, Last(p), Reversed(p)) && Last(Reversed(p)) == a
  {
    KnightPathOnBoard(a, p);
    var r, n := Reversed(p), |p|;
    forall i | 1 <= i < n ensures r[i] in KnightMoves(r[i - 1]) {
      assert p[n - i] in KnightMoves(p[n - i - 1]);
      KnightMovesSymmetric(p[n - i - 1], p[n - i]);
    }
  }

  /**
    The knight graph is undirected, so the travail from `a` to `b` takes as
    many moves as the travail from `b` to `a`.
  */
  method KnightDistanceSymmetric(a: Position, b: Position) returns (there: seq<Position>, back: seq<Position>)
    requires a.Valid() && b.Valid()
    ensures |there| == |back|
    ensures there != [] ==> there[0] == a && Last(there) == b
    ensures back != [] ==> back[0] == b && Last(back) == a
  {
    there := FindKnightPath(a, b);
    back := FindKnightPath(b, a);
    if there != [] {
      ReversedKnightPath(a, there);
    }
    if back != [] {
      ReversedKnightPath(b, back);
    }
  }

  /** A1 to A1 takes no move; A1 to B3 takes one, by the table's first delta. */
  method Examples() returns (a1a1: seq<Position>, a1b3: seq<Position>)
    ensures a1a1 == [A1]
    ensures a1b3 == [A1, Position('B', '3')]
  {
    a1a1 := FindKnightPath(A1, A1);
    var b3 := Position('B', '3');
    KnightMovesFromA1();
    assert IsPathFrom(KnightMoves, A1, [A1, b3]);
    a1b3 := FindKnightPath(A1, b3);
  }
}
