/**
 * Turn control (the `Game` class of othello.cpp without its I/O): the board,
 * the two players (index 0 is the user, index 1 the computer) and the index
 * of the player to move.
 */
module Controller {
  import opened Bitboard
  import opened Position
  import opened Capture
  import Search

  const USER: int := 0
  const COMPUTER: int := 1

  datatype Game = Game(board: Board, players: seq<Player>, idx: int)

  /** Both players are present and `idx` names one of them. */
  predicate WellFormed(g: Game)
  {
    |g.players| == 2 && 0 <= g.idx < 2
  }

  /** `Game(usr_token, comp_token, idx)`: the starting board and the two tokens. */
  function NewGame(user: char, computer: char, idx: int): (g: Game)
    ensures |g.players| == 2 && g.board == Initial()
    ensures g.players[USER] == Player(user) && g.players[COMPUTER] == Player(computer)
    ensures 0 <= idx < 2 ==> WellFormed(g)
  {
    Game(Initial(), [Player(user), Player(computer)], idx)
  }

  /** The player whose turn it is (`players[idx]`). */
  function Current(g: Game): Player
    requires 0 <= g.idx < |g.players|
  {
    g.players[g.idx]
  }

  /** `switch_player`: the low bit of idx + 1, which on 0 and 1 swaps the two. */
  function SwitchPlayer(g: Game): (r: Game)
    ensures 0 <= r.idx < 2
    ensures r.board == g.board && r.players == g.players
    ensures 0 <= g.idx < 2 ==> r.idx == 1 - g.idx
  {
    g.(idx := (g.idx + 1) % 2)
  }

  /** Two switches give the turn back. */
  lemma SwitchPlayerTwice(g: Game)
    requires 0 <= g.idx < 2
    ensures SwitchPlayer(SwitchPlayer(g)) == g
  {
  }

  /** `Game::move_is_possible`: the rule of the game for the player to move. */
  function MoveIsPossible(g: Game, m: Move): (r: bool)
    requires 0 <= g.idx < |g.players|
    ensures r <==> IsLegal(g.board, m, Current(g))
  {
    MoveIsPossibleIff(g.board, m, Current(g));
    Bitboard.MoveIsPossible(g.board, m, Current(g))
  }

  /** `apply_move`: the player to move plays `m`; the turn is not passed here. */
  function ApplyMove(g: Game, m: Move): (r: Game)
    requires 0 <= g.idx < |g.players| && OnBoard(m)
    ensures r.players == g.players && r.idx == g.idx
    ensures TokenAt(r.board, m) == Paint(Current(g).token)
    ensures Valid(g.board) ==> Valid(r.board)
  {
    assert Valid(g.board) ==> Valid(Apply(g.board, m, Current(g))) by {
      if Valid(g.board) {
        ApplyChangesOnlyCaptured(g.board, m, Current(g));
      }
    }
    g.(board := Apply(g.board, m, Current(g)))
  }

  /**
   * A legal move by a real token adds exactly one disc to the board, and the
   * mover gains it plus at least one captured disc.
   */
  lemma ApplyMoveCounts(g: Game, m: Move)
    requires WellFormed(g) && Valid(g.board)
    requires Current(g).token == 'O' || Current(g).token == 'X'
    requires MoveIsPossible(g, m)
    ensures |ApplyMove(g, m).board.layout0| + |ApplyMove(g, m).board.layout1| == |g.board.layout0| + |g.board.layout1| + 1
    ensures DiscCount(ApplyMove(g, m).board, Current(g).token) >= DiscCount(g.board, Current(g).token) + 2
  {
    var p := Current(g);
    assert Bitboard.MoveIsPossible(g.board, m, p);
    ApplyLegalMoveCounts(g.board, m, p);
    ApplyChangesOnlyCaptured(g.board, m, p);
    EvaluateResultCountsDiscs(State(g.board, p));
    EvaluateResultCountsDiscs(State(ApplyMove(g, m).board, p));
  }

  /** `is_finished`: neither player has a legal move. */
  function IsFinished(g: Game): (r: bool)
    requires |g.players| == 2
    ensures r <==> (forall m :: !IsLegal(g.board, m, g.players[0])) && (forall m :: !IsLegal(g.board, m, g.players[1]))
  {
    NoMobilityIffNoLegalMove(g.board, g.players[0]);
    NoMobilityIffNoLegalMove(g.board, g.players[1]);
    PlayerMobility(g.board, g.players[0]) == 0 && PlayerMobility(g.board, g.players[1]) == 0
  }

  /** `has_move(k)`: player k has a legal move. */
  function HasMove(g: Game, k: int): (r: bool)
    requires 0 <= k < |g.players|
    ensures r <==> exists m :: IsLegal(g.board, m, g.players[k])
  {
    NoMobilityIffNoLegalMove(g.board, g.players[k]);
    PlayerMobility(g.board, g.players[k]) > 0
  }

  /** Mobility is zero exactly when the rule of the game allows no move. */
  lemma NoMobilityIffNoLegalMove(b: Board, p: Player)
    ensures PlayerMobility(b, p) == 0 <==> forall m :: !IsLegal(b, m, p)
  {
    forall m {
      MoveIsPossibleIff(b, m, p);
    }
  }

  /** The game is over exactly when neither player has a move. */
  lemma FinishedIffNoPlayerHasMove(g: Game)
    requires WellFormed(g)
    ensures IsFinished(g) <==> !HasMove(g, USER) && !HasMove(g, COMPUTER)
  {
  }

  /**
   * `play()`: the computer searches from the current position with the batch
   * evaluator `evaluate` and plays the move it chose. None where the source
   * has no move to play (every score is negative, or the search has no leaf).
   */
  method Play(g: Game, evaluate: seq<State> -> seq<int>) returns (r: Search.Option<Game>)
    requires 0 <= g.idx < |g.players|
    requires forall leaves :: |evaluate(leaves)| == |leaves|
    ensures r.Some? ==> r.value.players == g.players && r.value.idx == g.idx
    ensures r.Some? ==> exists m :: Bitboard.MoveIsPossible(g.board, m, Current(g)) && r.value == ApplyMove(g, m)
    ensures var leaves := Search.Expand(Search.Othello(), State(g.board, Current(g)), 0);
      r.None? <==> forall l :: 0 <= l < |leaves| ==> evaluate(leaves)[l] < 0
    ensures r.Some? ==> exists k, m :: Search.ChosenBy(Search.Othello(), State(g.board, Current(g)), evaluate, k, m) && r.value == ApplyMove(g, m)
  {
    var start := State(g.board, Current(g));
    var rules := Search.Othello();
    var chosen := Search.Play(rules, start, evaluate);
    if chosen.None? {
      return Search.None;
    }
    var m := chosen.value;
    assert m in LegalMoves(start);
    r := Search.Some(ApplyMove(g, m));
    assert exists k :: Search.ChosenBy(rules, start, evaluate, k, m);
  }

  // ---------------------------------------------------------------- final result

  datatype Outcome = Winner | Loser | Tied

  /** The message `display_result` picks from the user's and the computer's scores. */
  function Compare(user: int, computer: int): (r: Outcome)
    ensures r == Winner <==> user > computer
    ensures r == Loser <==> user < computer
  {
    if user > computer then Winner else if user < computer then Loser else Tied
  }

  /**
   * `display_result` as written: "you" are whoever is to move at the end
   * (`players[idx]`), and both scores are the truncated popcounts.
   */
  function ReportedOutcomeAsWritten(g: Game): Outcome
    requires 0 <= g.idx < |g.players|
  {
    var s := State(g.board, Current(g));
    Compare(EvaluateResultAsWritten(s), EvaluateOpponentResultAsWritten(s))
  }

  /** `display_result` as intended: the user's discs against the computer's, counted in full. */
  function ReportedOutcome(g: Game): Outcome
    requires WellFormed(g)
  {
    var s := State(g.board, g.players[USER]);
    Compare(EvaluateResult(s), EvaluateOpponentResult(s))
  }

  /** The corrected report compares the user's disc count with the other side's, whoever moved last. */
  lemma ReportedOutcomeCountsUserDiscs(g: Game)
    requires WellFormed(g) && Valid(g.board)
    requires g.players[USER].token == 'O' || g.players[USER].token == 'X'
    ensures var u := g.players[USER].token;
      && (ReportedOutcome(g) == Winner <==> DiscCount(g.board, u) > DiscCount(g.board, Opponent(u)))
      && (ReportedOutcome(g) == Loser <==> DiscCount(g.board, u) < DiscCount(g.board, Opponent(u)))
    ensures ReportedOutcome(g) == ReportedOutcome(g.(idx := 1 - g.idx))
  {
    EvaluateResultCountsDiscs(State(g.board, g.players[USER]));
  }

  /**
   * A finished game with the computer to move, where the user ('X') holds
   * the only disc: the report as written is a loss, the user has in fact won.
   */
  lemma ReportedOutcomeExample()
    ensures var g := Game(Board({}, {0}), [Player('X'), Player('O')], COMPUTER);
      && IsFinished(g)
      && ReportedOutcomeAsWritten(g) == Loser
      && ReportedOutcome(g) == Winner
  {
    var g := Game(Board({}, {0}), [Player('X'), Player('O')], COMPUTER);
    forall m ensures !IsLegal(g.board, m, g.players[0]) && !IsLegal(g.board, m, g.players[1]) {
      OneColourHasNoMoves(g.board, m, g.players[0]);
      OneColourHasNoMoves(g.board, m, g.players[1]);
    }
    assert (set c | c in g.board.layout1 && c < 32) == {0};
  }
}
