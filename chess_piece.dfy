/**
  Chess pieces and the knight (ChessPiece.h): a piece stands on a position,
  carries the table of offsets it may move by, and lists the squares it can
  reach, caching that list on first use.
*/
module ChessPieces {
  import opened Positions

  function Abs(x: int): nat {
    if x < 0 then -x else x
  }

  /** One square along one axis and two along the other. */
  predicate IsKnightShape(d: Delta) {
    (Abs(d.rank) == 1 && Abs(d.file) == 2) || (Abs(d.rank) == 2 && Abs(d.file) == 1)
  }

  /**
    The knight's table of eight jumps, in the order of ChessPiece.h:14-19.
    It holds every knight-shaped delta exactly once, and only those, so it
    is closed under negation.
  */
  function KnightDeltas(): (ds: seq<Delta>)
    ensures |ds| == 8
    ensures forall i, j :: 0 <= i < j < |ds| ==> ds[i] != ds[j]
    ensures forall d :: d in ds <==> IsKnightShape(d)
    ensures forall d :: d in ds ==> Negate(d) in ds
  {
    [ Delta(1, 2), Delta(2, 1),
      Delta(2, -1), Delta(1, -2),
      Delta(-2, -1), Delta(-1, -2),
      Delta(-2, 1), Delta(-1, 2) ]
  }

  /**
    The squares reachable from `p` by the deltas of `ds` that stay on the
    board, in the order of `ds`: what `getValidMoves` computes.
  */
  function MovesFrom(p: Position, ds: seq<Delta>): (moves: seq<Position>)
    ensures forall q :: q in moves ==> q.Valid()
  {
    if ds == [] then []
    else
      var d := ds[|ds| - 1];
      MovesFrom(p, ds[..|ds| - 1]) + (if p.IsValidMove(d) then [p.Shifted(d)] else [])
  }

  /** A square is in the list exactly when some delta of the table that stays on the board leads to it. */
  lemma {:induction false} MovesFromMembers(p: Position, ds: seq<Delta>, q: Position)
    ensures q in MovesFrom(p, ds) <==> exists d :: d in ds && p.IsValidMove(d) && q == p.Shifted(d)
  {
    if ds != [] {
      var init := ds[..|ds| - 1];
      MovesFromMembers(p, init, q);
      assert ds == init + [ds[|ds| - 1]];
      if q in MovesFrom(p, ds) && q !in MovesFrom(p, init) {
        assert q == p.Shifted(ds[|ds| - 1]);
      }
    }
  }

  /** At most one square per delta. */
  lemma {:induction false} MovesFromLength(p: Position, ds: seq<Delta>)
    ensures |MovesFrom(p, ds)| <= |ds|
  {
    if ds != [] {
      MovesFromLength(p, ds[..|ds| - 1]);
    }
  }

  /**
    The knight's moves from `p`: at most eight, each on the board and one
    knight jump away from `p`; and every on-board knight jump is listed.
  */
  function KnightMoves(p: Position): (moves: seq<Position>)
    ensures |moves| <= 8
    ensures forall q :: q in moves ==> q.Valid()
    ensures forall q :: q in moves <==>
      exists d :: IsKnightShape(d) && p.IsValidMove(d) && q == p.Shifted(d)
  {
    var moves := MovesFrom(p, KnightDeltas());
    MovesFromLength(p, KnightDeltas());
    forall q ensures q in moves <==> exists d :: d in KnightDeltas() && p.IsValidMove(d) && q == p.Shifted(d) {
      MovesFromMembers(p, KnightDeltas(), q);
    }
    moves
  }

  /** The knight-move relation is symmetric on the board. */
  lemma KnightMovesSymmetric(p: Position, q: Position)
    requires p.Valid() && q.Valid()
    ensures q in KnightMoves(p) <==> p in KnightMoves(q)
  {
    if q in KnightMoves(p) {
      var d :| IsKnightShape(d) && p.IsValidMove(d) && q == p.Shifted(d);
      ShiftThenNegate(p, d);
      assert IsKnightShape(Negate(d));
    }
    if p in KnightMoves(q) {
      var d :| IsKnightShape(d) && q.IsValidMove(d) && p == q.Shifted(d);
      ShiftThenNegate(q, d);
      assert IsKnightShape(Negate(d));
    }
  }

  /** From A1 only two jumps stay on the board: B3 and C2, in table order. */
  lemma KnightMovesFromA1()
    ensures KnightMoves(A1) == [Position('B', '3'), Position('C', '2')]
  {
    var ds := KnightDeltas();
    assert ds[..1][..0] == [];
    assert MovesFrom(A1, ds[..1]) == [Position('B', '3')];
    assert ds[..2][..1] == ds[..1];
    assert MovesFrom(A1, ds[..2]) == [Position('B', '3'), Position('C', '2')];
    assert ds[..3][..2] == ds[..2];
    assert MovesFrom(A1, ds[..3]) == MovesFrom(A1, ds[..2]);
    assert ds[..4][..3] == ds[..3];
    assert MovesFrom(A1, ds[..4]) == MovesFrom(A1, ds[..3]);
    assert ds[..5][..4] == ds[..4];
    assert MovesFrom(A1, ds[..5]) == MovesFrom(A1, ds[..4]);
    assert ds[..6][..5] == ds[..5];
    assert MovesFrom(A1, ds[..6]) == MovesFrom(A1, ds[..5]);
    assert ds[..7][..6] == ds[..6];
    assert MovesFrom(A1, ds[..7]) == MovesFrom(A1, ds[..6]);
    assert ds[..8][..7] == ds[..7];
    assert ds[..8] == ds;
  }

  /**
    A piece (`ChessPiece`, with `Knight` as its constructor).  `currentPos`
    and `deltas` are fixed once the piece is built; `validMoves` is the
    `mutable` cache that `GetValidMoves` fills lazily.
  */
  class ChessPiece {
    var currentPos: Position
    var deltas: seq<Delta>
    var validMoves: seq<Position>

    /** The cache is empty or holds the moves for the current position and table. */
    ghost predicate Valid()
      reads this
    {
      validMoves == [] || validMoves == MovesFrom(currentPos, deltas)
    }

    /** `Knight(pos)`: the base constructor stores the position, then `initDeltas` installs the knight table. */
    constructor Knight(pos: Position)
      ensures currentPos == pos && deltas == KnightDeltas() && validMoves == []
      ensures Valid()
    {
      currentPos := pos;
      deltas := [];
      validMoves := [];
      new;
      InitDeltas(KnightDeltas());
    }

    /** `initDeltas`: replaces the table and touches neither the square nor the cache. */
    method InitDeltas(ds: seq<Delta>)
      modifies this`deltas
      ensures deltas == ds
      ensures validMoves == old(validMoves) && currentPos == old(currentPos)
    {
      deltas := ds;
    }

    /** `getDeltas`. */
    function GetDeltas(): (ds: seq<Delta>)
      reads this
      ensures ds == deltas
    {
      deltas
    }

    /** `getPosition`. */
    function GetPosition(): (p: Position)
      reads this
      ensures p == currentPos
    {
      currentPos
    }

    /**
      `getValidMoves`: fills the cache when it is empty, walking the table
      in order, and returns it.  Only the cache is written.
    */
    method GetValidMoves() returns (moves: seq<Position>)
      requires Valid()
      modifies this`validMoves
      ensures Valid()
      ensures moves == MovesFrom(currentPos, deltas)
      ensures validMoves == moves
      ensures currentPos == old(currentPos) && deltas == old(deltas)
    {
      if |validMoves| == 0 {
        var i := 0;
        while i < |deltas|
          invariant 0 <= i <= |deltas|
          invariant validMoves == MovesFrom(currentPos, deltas[..i])
        {
          var d := deltas[i];
          if currentPos.IsValidMove(d) {
            validMoves := validMoves + [currentPos.Shifted(d)];
          }
          assert deltas[..i + 1][..i] == deltas[..i];
          i := i + 1;
        }
        assert deltas[..i] == deltas;
      }
      moves := validMoves;
    }
  }

  /** Asking a knight twice gives the same list; the second answer comes from the cache. */
  method GetValidMovesTwice(pos: Position) returns (first: seq<Position>, second: seq<Position>)
    ensures first == second == KnightMoves(pos)
  {
    var knight := new ChessPiece.Knight(pos);
    first := knight.GetValidMoves();
    second := knight.GetValidMoves();
  }
}
