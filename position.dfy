/**
  A square of the chess board in algebraic notation (Position.h).

  The rank is stored as an upper-case letter 'A'..'H' and the file as a
  digit '1'..'8', both as characters, and a move offset (`Delta`) is added
  to their character codes.  A `Position` is a value: the search copies
  positions into paths and compares them structurally.  The in-place
  `move`, `+=` and the copying `+` act on a variable holding a position,
  modelled by the class `MovablePosition`.
*/
module Positions {
  import opened Wrappers

  /** Board bounds (Position.h:48-51). */
  const MinRank: char := 'A'
  const MaxRank: char := 'H'
  const MinFile: char := '1'
  const MaxFile: char := '8'

  /** A move offset: signed offsets added to the rank and to the file. */
  datatype Delta = Delta(rank: int, file: int)

  function Negate(d: Delta): Delta {
    Delta(-d.rank, -d.file)
  }

  /** The two errors the C++ code throws as `std::invalid_argument`. */
  datatype PositionError =
    | RankOrFileOutOfRange  // the parsing constructor got a bad rank or file
    | MoveOutOfRange        // `move` was asked to leave the board

  /** `isValidRank`: the code is one of the eight rank letters. */
  function IsValidRank(r: int): (v: bool)
    ensures v <==> 0 <= r - MinRank as int < 8
  {
    MinRank as int <= r <= MaxRank as int
  }

  /** `isValidFile`: the code is one of the eight file digits. */
  function IsValidFile(f: int): (v: bool)
    ensures v <==> 0 <= f - MinFile as int < 8
  {
    MinFile as int <= f <= MaxFile as int
  }

  /**
    C++ narrowing of an `int` to an 8-bit `char`, as happens when the
    integer sum `m_rank + delta.rank` is passed to the `char` parameter of
    `isValidRank`.  The result is the code modulo 256; whether `char` is
    signed or not does not change which codes fall in 'A'..'H' or '1'..'8'.
  */
  function Narrow(x: int): (c: int)
    ensures 0 <= c < 256
    ensures (x - c) % 256 == 0
  {
    x % 256
  }

  datatype Position = Position(rank: char, file: char) {

    /** Both coordinates on the board: the class invariant of Position. */
    predicate Valid() {
      IsValidRank(rank as int) && IsValidFile(file as int)
    }

    /**
      The bounds check of `isValidMove` with exact integer sums.  The C++ code
      narrows the sums to 8 bits first (see IsValidMoveAsWritten); the two
      agree on every delta that fits in a signed char.
    */
    function IsValidMove(d: Delta): (v: bool)
      ensures v <==> 0 <= rank as int + d.rank - MinRank as int < 8 && 0 <= file as int + d.file - MinFile as int < 8
      ensures Valid() && v ==> -7 <= d.rank <= 7 && -7 <= d.file <= 7
    {
      IsValidRank(rank as int + d.rank) && IsValidFile(file as int + d.file)
    }

    /**
      `isValidMove` as written: each sum is narrowed to a char before the
      range check.  It accepts every move the exact check accepts, and it is
      the exact check applied to the delta that the narrowing leaves.
    */
    function IsValidMoveAsWritten(d: Delta): (v: bool)
      ensures IsValidMove(d) ==> v
      ensures v <==> IsValidMove(Delta(Narrow(rank as int + d.rank) - rank as int,
                                       Narrow(file as int + d.file) - file as int))
    {
      IsValidRank(Narrow(rank as int + d.rank)) && IsValidFile(Narrow(file as int + d.file))
    }

    /**
      `m_rank += delta.rank; m_file += delta.file` as written: the sums are
      narrowed back into the `char` fields, so the result lies on the board
      but only agrees with the integer target modulo 256.
    */
    function ShiftedAsWritten(d: Delta): (q: Position)
      requires IsValidMoveAsWritten(d)
      ensures q.Valid()
      ensures (rank as int + d.rank - q.rank as int) % 256 == 0
      ensures (file as int + d.file - q.file as int) % 256 == 0
    {
      Position(Narrow(rank as int + d.rank) as char, Narrow(file as int + d.file) as char)
    }

    /**
      The square `d` leads to.  A move that passes the bounds check lands on
      the board, and it is exactly `d` away from where it started.
    */
    function Shifted(d: Delta): (q: Position)
      requires IsValidMove(d)
      ensures q.Valid()
      ensures q.rank as int - rank as int == d.rank && q.file as int - file as int == d.file
    {
      Position((rank as int + d.rank) as char, (file as int + d.file) as char)
    }

    /** `operator==`: component-wise, which is exactly structural equality. */
    function Equals(rhs: Position): (eq: bool)
      ensures eq <==> this == rhs
    {
      rank == rhs.rank && file == rhs.file
    }

    /** `operator!=`: the negation of `operator==`. */
    function NotEquals(rhs: Position): (ne: bool)
      ensures ne <==> !Equals(rhs)
      ensures ne <==> this != rhs
    {
      !Equals(rhs)
    }
  }

  /** The default position, A1 (Position.h:56). */
  const A1: Position := Position(MinRank, MinFile)

  /** C `toupper` in the default locale: only 'a'..'z' change. */
  function ToUpper(c: char): (u: char)
    ensures !('a' <= u <= 'z')
    ensures u == c || ('a' <= c <= 'z' && u as int == c as int - 32)
  {
    if 'a' <= c <= 'z' then (c as int - 32) as char else c
  }

  /** `operator<<`: the rank character, then the file character. */
  function Render(p: Position): (s: string)
    ensures |s| == 2 && s[0] == p.rank && s[1] == p.file
  {
    [p.rank, p.file]
  }

  /**
    The constructor from a C string.  Only the first two characters are
    read; a one-character string supplies its NUL terminator as the file,
    which is no digit, so every string shorter than two characters fails.
    Later characters are ignored.
  */
  function Parse(s: string): (r: Result<Position, PositionError>)
    ensures r.Success? <==>
      |s| >= 2 && ('A' <= s[0] <= 'H' || 'a' <= s[0] <= 'h') && '1' <= s[1] <= '8'
    ensures r.Success? ==> r.value.Valid() && r.value.file == s[1]
    ensures r.Success? ==> r.value.rank == s[0] || r.value.rank as int == s[0] as int - 32
    ensures r.Failure? ==> r.error == RankOrFileOutOfRange
  {
    if |s| < 2 then
      Failure(RankOrFileOutOfRange)
    else
      var r, f := ToUpper(s[0]), s[1];
      if IsValidFile(f as int) && IsValidRank(r as int) then
        Success(Position(r, f))
      else
        Failure(RankOrFileOutOfRange)
  }

  /** The default position is on the board and is what "A1" parses to. */
  lemma DefaultPosition()
    ensures A1.Valid()
    ensures Parse("A1") == Success(A1)
  {
  }

  /** Lower-case rank letters are accepted and stored upper-case. */
  lemma ParseIgnoresCase(s: string)
    requires |s| >= 2 && 'a' <= s[0] <= 'z'
    ensures Parse(s) == Parse([(s[0] as int - 32) as char] + s[1..])
  {
  }

  /** Rendering a valid position and parsing it back gives the same position. */
  lemma RenderParse(p: Position)
    requires p.Valid()
    ensures Parse(Render(p)) == Success(p)
  {
  }

  /** Parsing, then rendering, gives the first two characters with the rank upper-cased. */
  lemma ParseRender(s: string)
    requires Parse(s).Success?
    ensures Render(Parse(s).value) == [ToUpper(s[0]), s[1]]
  {
  }

  /** Moving by `d` and then by its negation returns to the start. */
  lemma ShiftThenNegate(p: Position, d: Delta)
    requires p.Valid() && p.IsValidMove(d)
    ensures p.Shifted(d).IsValidMove(Negate(d))
    ensures p.Shifted(d).Shifted(Negate(d)) == p
  {
  }

  /**
    The narrowed check accepts Delta(256, 0) from A1, a delta that leaves
    the board, and the narrowed update then leaves the square at A1.
  */
  lemma AsWrittenAcceptsWrappedDelta()
    ensures A1.IsValidMoveAsWritten(Delta(256, 0))
    ensures A1.ShiftedAsWritten(Delta(256, 0)) == A1
    ensures !A1.IsValidMove(Delta(256, 0))
  {
  }

  /** For deltas that fit in a signed char, the narrowed check and the exact check agree. */
  lemma AsWrittenAgreesOnCharDeltas(p: Position, d: Delta)
    requires p.Valid()
    requires -128 <= d.rank <= 127 && -128 <= d.file <= 127
    ensures p.IsValidMoveAsWritten(d) <==> p.IsValidMove(d)
  {
  }

  /**
    A variable holding a position, updated in place by `move` and `+=`.
    Its fields stand for `m_rank` and `m_file`.
  */
  class MovablePosition {
    var rank: char
    var file: char

    function Value(): Position
      reads this
    {
      Position(rank, file)
    }

    ghost predicate Valid()
      reads this
    {
      Value().Valid()
    }

    /** The default constructor: A1. */
    constructor Default()
      ensures Valid() && Value() == A1
    {
      rank, file := MinRank, MinFile;
    }

    /** The copy constructor. */
    constructor Copy(p: Position)
      requires p.Valid()
      ensures Valid() && Value() == p
    {
      rank, file := p.rank, p.file;
    }

    /**
      `move`: adds `d` to both fields when the move stays on the board;
      otherwise throws and leaves the position as it was.
    */
    method Move(d: Delta) returns (outcome: Outcome<PositionError>)
      requires Valid()
      modifies this
      ensures Valid()
      ensures outcome.Pass? <==> old(Value()).IsValidMove(d)
      ensures outcome.Pass? ==>
        rank as int == old(rank) as int + d.rank && file as int == old(file) as int + d.file
      ensures outcome.Fail? ==>
        outcome.error == MoveOutOfRange && rank == old(rank) && file == old(file)
    {
      if Value().IsValidMove(d) {
        rank := (rank as int + d.rank) as char;
        file := (file as int + d.file) as char;
        outcome := Pass;
      } else {
        outcome := Fail(MoveOutOfRange);
      }
    }

    /** `operator+=`: the same as `move`. */
    method AddAssign(d: Delta) returns (outcome: Outcome<PositionError>)
      requires Valid()
      modifies this
      ensures Valid()
      ensures outcome.Pass? <==> old(Value()).IsValidMove(d)
      ensures outcome.Pass? ==> Value() == old(Value()).Shifted(d)
      ensures outcome.Fail? ==> outcome.error == MoveOutOfRange && Value() == old(Value())
    {
      outcome := Move(d);
    }

    /**
      `operator+`: moves a copy and returns it; this position is not
      modified (the method may not modify anything that existed before).
    */
    method Plus(d: Delta) returns (r: Result<Position, PositionError>)
      requires Valid()
      ensures r.Success? <==> Value().IsValidMove(d)
      ensures r.Success? ==> r.value.Valid() && r.value == Value().Shifted(d)
      ensures r.Failure? ==> r.error == MoveOutOfRange
    {
      var copy := new MovablePosition.Copy(Value());
      var outcome := copy.AddAssign(d);
      if outcome.Pass? {
        r := Success(copy.Value());
      } else {
        r := Failure(outcome.error);
      }
    }
  }
}
