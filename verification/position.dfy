/**
 * A position: a board with the player to move (the `State` struct of
 * othello.cpp), its moves, the position after a move, and disc-count scoring.
 */
module Position {
  import opened Bitboard

  datatype State = State(board: Board, player: Player)

  /** `State::generate_moves`: the mover's legal moves in row-major order. */
  function LegalMoves(s: State): (r: seq<Move>)
    ensures forall m :: m in r <==> MoveIsPossible(s.board, m, s.player)
    ensures forall m :: m in r ==> OnBoard(m)
  {
    Bitboard.GenerateMoves(s.board, s.player)
  }

  /** The position after `m`: the move applied and the token flipped (as the search derives children). */
  function Child(s: State, m: Move): State
    requires OnBoard(m)
  {
    State(Apply(s.board, m, s.player), Player(Opponent(s.player.token)))
  }

  /**
   * `Child` for every move: a move off the board leaves the position as it
   * is. Generated moves are always on the board, so the search never takes
   * that branch.
   */
  function Successor(s: State, m: Move): State
  {
    if OnBoard(m) then Child(s, m) else s
  }

  /** Cells 0..63 whose disc shows `token`: the independent count the scores are checked against. */
  ghost function DiscCount(b: Board, token: char): nat
  {
    |DiscCells(b, token)|
  }

  ghost function DiscCells(b: Board, token: char): set<int>
  {
    set c | 0 <= c < SIZE * SIZE && TokenAt(b, CellMove(c)) == token
  }

  /** The plane of the player to move. */
  function MoverPlane(s: State): set<int>
  {
    Plane(s.board, TokenPlane(s.player.token))
  }

  /** The other plane, `layout[1 - idx]`. */
  function OpponentPlane(s: State): set<int>
  {
    Plane(s.board, 1 - TokenPlane(s.player.token))
  }

  /** `evaluate_result` as written: `__builtin_popcount` takes an unsigned int, so only bits 0..31 count. */
  function EvaluateResultAsWritten(s: State): nat
  {
    |set c | c in MoverPlane(s) && c < 32|
  }

  /** `evaluate_opponent_result` as written, with the same truncation. */
  function EvaluateOpponentResultAsWritten(s: State): nat
  {
    |set c | c in OpponentPlane(s) && c < 32|
  }

  /** `evaluate_result` counting the whole 64-bit plane of the mover. */
  function EvaluateResult(s: State): nat
  {
    |MoverPlane(s)|
  }

  /** `evaluate_opponent_result` counting the whole 64-bit plane of the other side. */
  function EvaluateOpponentResult(s: State): nat
  {
    |OpponentPlane(s)|
  }

  /** On a valid board a plane is exactly the set of cells showing its token. */
  lemma PlaneIsDiscs(b: Board, idx: int)
    requires Valid(b) && (idx == 0 || idx == 1)
    ensures Plane(b, idx) == DiscCells(b, if idx == 0 then 'O' else 'X')
  {
    var t := if idx == 0 then 'O' else 'X';
    forall c | InRange(c) && TokenAt(b, CellMove(c)) == t ensures c in Plane(b, idx) {
      assert Cell(CellMove(c).x, CellMove(c).y) == c;
    }
  }

  /**
   * The corrected scores: the mover's and the opponent's disc counts, which
   * together make up every disc on the board.
   */
  lemma EvaluateResultCountsDiscs(s: State)
    requires Valid(s.board) && (s.player.token == 'O' || s.player.token == 'X')
    ensures EvaluateResult(s) == DiscCount(s.board, s.player.token)
    ensures EvaluateOpponentResult(s) == DiscCount(s.board, Opponent(s.player.token))
    ensures EvaluateResult(s) + EvaluateOpponentResult(s) == |s.board.layout0 + s.board.layout1|
  {
    PlaneIsDiscs(s.board, 0);
    PlaneIsDiscs(s.board, 1);
  }

  /** Keeping only the cells below 32 loses a disc exactly when the plane has one at 32 or above. */
  lemma TruncatedCount(plane: set<int>)
    ensures |set c | c in plane && c < 32| <= |plane|
    ensures |set c | c in plane && c < 32| == |plane| <==> forall c :: c in plane ==> c < 32
  {
    var low := set c | c in plane && c < 32;
    var high := set c | c in plane && c >= 32;
    assert plane == low + high;
    assert low !! high;
    if forall c :: c in plane ==> c < 32 {
      assert high == {};
    }
  }

  /**
   * The scores as written never exceed the full counts, and agree with them
   * exactly when the side has no disc in rows 4..7 (cells 32..63).
   */
  lemma TruncatedScoreBound(s: State)
    ensures EvaluateResultAsWritten(s) <= EvaluateResult(s)
    ensures EvaluateOpponentResultAsWritten(s) <= EvaluateOpponentResult(s)
    ensures EvaluateResultAsWritten(s) == EvaluateResult(s) <==>
      forall c :: c in MoverPlane(s) ==> c < 32
    ensures EvaluateOpponentResultAsWritten(s) == EvaluateOpponentResult(s) <==>
      forall c :: c in OpponentPlane(s) ==> c < 32
  {
    TruncatedCount(MoverPlane(s));
    TruncatedCount(OpponentPlane(s));
  }

  /**
   * On the starting board each side has two discs, but the truncated count
   * sees only the one in rows 0..3: (3,3) is bit 27, (4,4) is bit 36.
   */
  lemma TruncatedScoreExample()
    ensures EvaluateResult(State(Initial(), Player('O'))) == 2
    ensures EvaluateResultAsWritten(State(Initial(), Player('O'))) == 1
    ensures EvaluateOpponentResultAsWritten(State(Initial(), Player('O'))) == 1
  {
    var b := Initial();
    assert b.layout0 == {27, 36};
    assert b.layout1 == {28, 35};
    assert (set c | c in b.layout0 && c < 32) == {27};
    assert (set c | c in b.layout1 && c < 32) == {28};
  }
}
