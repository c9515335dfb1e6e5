/**
 * The computer's search (the `Game` members `minmax_gpu`, `minmax_cpu`,
 * `retrace` and `play(State)` of othello.cpp): collect every position exactly
 * MAX_DEPTH plies deep, score the batch, pick the first best leaf and map it
 * back to a move of the root.
 *
 * The search only asks the game two things: the moves of a position and the
 * position a move leads to. It is stated over any such pair of `Rules`, and
 * `Othello()` is the pair this program uses.
 */
module Search {
  import opened Bitboard
  import opened Position

  /** The fixed search depth (Game::MAX_DEPTH). */
  const MAX_DEPTH: int := 3

  datatype Option<T> = None | Some(value: T)

  /** The move generator and the successor the search walks with. */
  datatype Rules = Rules(moves: State -> seq<Move>, next: (State, Move) -> State)

  /** `State::generate_moves`, and `Board::apply` followed by the token flip. */
  function Othello(): (r: Rules)
    ensures forall s :: r.moves(s) == LegalMoves(s)
    ensures forall s, m :: OnBoard(m) ==> r.next(s, m) == Child(s, m)
  {
    Rules(LegalMoves, Successor)
  }

  /** `t` is reached from `s` by exactly `n` generated moves. */
  ghost predicate ReachableIn(rules: Rules, s: State, t: State, n: nat)
    decreases n
  {
    if n == 0 then s == t
    else exists m :: m in rules.moves(s) && ReachableIn(rules, rules.next(s, m), t, n - 1)
  }

  /** The player to move after `n` plies from `p`. */
  function PlayerAfter(p: Player, n: nat): Player
    decreases n
  {
    if n == 0 then p else PlayerAfter(Player(Opponent(p.token)), n - 1)
  }

  /** Every generated move hands the turn to the other token. */
  ghost predicate Alternates(rules: Rules)
  {
    forall s, m :: m in rules.moves(s) ==> rules.next(s, m).player == Player(Opponent(s.player.token))
  }

  /** Othello alternates: generated moves are on the board, so the successor is `Child`. */
  lemma OthelloAlternates()
    ensures Alternates(Othello())
  {
    forall s, m | m in LegalMoves(s) ensures Successor(s, m).player == Player(Opponent(s.player.token)) {
      assert OnBoard(m);
    }
  }

  /** Along alternating rules the player after `n` plies is `PlayerAfter`. */
  lemma {:induction false} ReachablePlayer(rules: Rules, s: State, t: State, n: nat)
    requires Alternates(rules) && ReachableIn(rules, s, t, n)
    ensures t.player == PlayerAfter(s.player, n)
    decreases n
  {
    if n > 0 {
      var m :| m in rules.moves(s) && ReachableIn(rules, rules.next(s, m), t, n - 1);
      ReachablePlayer(rules, rules.next(s, m), t, n - 1);
    }
  }

  // ---------------------------------------------------------------- expansion

  /**
   * `minmax_gpu(state, depth)`: the leaves below `s`, child by child in move
   * order. A position without moves above the bottom contributes nothing.
   */
  function Expand(rules: Rules, s: State, depth: int): (r: seq<State>)
    requires depth <= MAX_DEPTH
    ensures depth == MAX_DEPTH ==> r == [s]
    ensures depth < MAX_DEPTH && rules.moves(s) == [] ==> r == []
    decreases MAX_DEPTH - depth, 1
  {
    if depth == MAX_DEPTH then [s] else ExpandMoves(rules, s, rules.moves(s), depth)
  }

  /** The loop of `minmax_gpu` over `moves`. */
  function ExpandMoves(rules: Rules, s: State, moves: seq<Move>, depth: int): (r: seq<State>)
    requires depth < MAX_DEPTH
    decreases MAX_DEPTH - depth, 0, |moves|
  {
    if moves == [] then []
    else Expand(rules, rules.next(s, moves[0]), depth + 1) + ExpandMoves(rules, s, moves[1..], depth)
  }

  lemma {:induction false} ExpandMovesContains(rules: Rules, s: State, moves: seq<Move>, depth: int, m: Move, t: State)
    requires depth < MAX_DEPTH
    requires m in moves && t in Expand(rules, rules.next(s, m), depth + 1)
    ensures t in ExpandMoves(rules, s, moves, depth)
    decreases |moves|
  {
    if moves[0] != m {
      ExpandMovesContains(rules, s, moves[1..], depth, m, t);
    }
  }

  lemma {:induction false} ExpandSound(rules: Rules, s: State, depth: int, t: State)
    requires depth <= MAX_DEPTH && t in Expand(rules, s, depth)
    ensures ReachableIn(rules, s, t, MAX_DEPTH - depth)
    decreases MAX_DEPTH - depth, 1
  {
    if depth < MAX_DEPTH {
      var m := ExpandMovesSound(rules, s, rules.moves(s), depth, t);
    }
  }

  lemma {:induction false} ExpandMovesSound(rules: Rules, s: State, moves: seq<Move>, depth: int, t: State)
    returns (m: Move)
    requires depth < MAX_DEPTH
    requires forall k :: 0 <= k < |moves| ==> moves[k] in rules.moves(s)
    requires t in ExpandMoves(rules, s, moves, depth)
    ensures m in rules.moves(s) && ReachableIn(rules, rules.next(s, m), t, MAX_DEPTH - depth - 1)
    decreases MAX_DEPTH - depth, 0, |moves|
  {
    if t in Expand(rules, rules.next(s, moves[0]), depth + 1) {
      m := moves[0];
      ExpandSound(rules, rules.next(s, m), depth + 1, t);
    } else {
      m := ExpandMovesSound(rules, s, moves[1..], depth, t);
    }
  }

  lemma {:induction false} ExpandComplete(rules: Rules, s: State, depth: int, t: State)
    requires depth <= MAX_DEPTH && ReachableIn(rules, s, t, MAX_DEPTH - depth)
    ensures t in Expand(rules, s, depth)
    decreases MAX_DEPTH - depth
  {
    if depth < MAX_DEPTH {
      var m :| m in rules.moves(s) && ReachableIn(rules, rules.next(s, m), t, MAX_DEPTH - depth - 1);
      ExpandComplete(rules, rules.next(s, m), depth + 1, t);
      ExpandMovesContains(rules, s, rules.moves(s), depth, m, t);
    }
  }

  /** The leaves are exactly the positions MAX_DEPTH - depth generated plies below `s`. */
  lemma ExpandIsReachable(rules: Rules, s: State, depth: int, t: State)
    requires depth <= MAX_DEPTH
    ensures t in Expand(rules, s, depth) <==> ReachableIn(rules, s, t, MAX_DEPTH - depth)
  {
    if t in Expand(rules, s, depth) {
      ExpandSound(rules, s, depth, t);
    }
    if ReachableIn(rules, s, t, MAX_DEPTH - depth) {
      ExpandComplete(rules, s, depth, t);
    }
  }

  /** Under alternating rules (Othello among them) every leaf has the player to move after MAX_DEPTH plies. */
  lemma LeafPlayer(rules: Rules, s: State, t: State)
    requires Alternates(rules) && t in Expand(rules, s, 0)
    ensures t.player == PlayerAfter(s.player, MAX_DEPTH)
  {
    ExpandSound(rules, s, 0, t);
    ReachablePlayer(rules, s, t, MAX_DEPTH);
  }

  // ---------------------------------------------------------------- selection

  /** Index k holds a non-negative score, no score exceeds it and every earlier one is smaller. */
  ghost predicate IsFirstMax(results: seq<int>, k: int)
  {
    && 0 <= k < |results|
    && 0 <= results[k]
    && (forall l :: 0 <= l < |results| ==> results[l] <= results[k])
    && (forall l :: 0 <= l < k ==> results[l] < results[k])
  }

  /**
   * `minmax_cpu`'s selection loop over the evaluator's scores: start from
   * -1 and move on only on a strictly greater score. When no score beats -1
   * the index stays -1, which the source then uses out of bounds.
   */
  method MinmaxCpu(leaves: seq<State>, results: seq<int>) returns (best: Option<State>)
    requires |results| == |leaves|
    ensures best.None? <==> forall l :: 0 <= l < |results| ==> results[l] < 0
    ensures best.Some? ==> exists k :: IsFirstMax(results, k) && best.value == leaves[k]
  {
    var maxx := -1;
    var idx := -1;
    var i := 0;
    while i < |results|
      invariant 0 <= i <= |results|
      invariant -1 <= idx < i
      invariant idx == -1 ==> maxx == -1 && forall l :: 0 <= l < i ==> results[l] < 0
      invariant idx != -1 ==> maxx == results[idx] && 0 <= maxx
      invariant forall l :: 0 <= l < i ==> results[l] <= maxx
      invariant forall l :: 0 <= l < idx ==> results[l] < maxx
    {
      if maxx < results[i] {
        maxx := results[i];
        idx := i;
      }
      i := i + 1;
    }
    if idx == -1 {
      return None;
    }
    assert IsFirstMax(results, idx);
    return Some(leaves[idx]);
  }

  // ---------------------------------------------------------------- reconstruction

  /**
   * `retrace(current, desired, depth)`: some position from `current`
   * down to, but not including, depth MAX_DEPTH has `desired`'s board. Only
   * the boards are compared, never the player to move.
   */
  function Retrace(rules: Rules, current: State, desired: State, depth: int): bool
    requires depth <= MAX_DEPTH
    decreases MAX_DEPTH - depth, 1
  {
    if depth == MAX_DEPTH then false
    else if Equals(current.board, desired.board) then true
    else RetraceMoves(rules, current, rules.moves(current), desired, depth)
  }

  /** The loop of `retrace` over `moves`. */
  function RetraceMoves(rules: Rules, current: State, moves: seq<Move>, desired: State, depth: int): bool
    requires depth < MAX_DEPTH
    decreases MAX_DEPTH - depth, 0, |moves|
  {
    moves != []
    && (Retrace(rules, rules.next(current, moves[0]), desired, depth + 1)
        || RetraceMoves(rules, current, moves[1..], desired, depth))
  }

  lemma {:induction false} RetraceSound(rules: Rules, current: State, desired: State, depth: int)
    returns (n: nat, t: State)
    requires depth <= MAX_DEPTH && Retrace(rules, current, desired, depth)
    ensures n < MAX_DEPTH - depth && ReachableIn(rules, current, t, n) && t.board == desired.board
    decreases MAX_DEPTH - depth, 1
  {
    if Equals(current.board, desired.board) {
      n, t := 0, current;
    } else {
      var m, n', t' := RetraceMovesSound(rules, current, rules.moves(current), desired, depth);
      n, t := n' + 1, t';
    }
  }

  lemma {:induction false} RetraceMovesSound(rules: Rules, current: State, moves: seq<Move>, desired: State, depth: int)
    returns (m: Move, n: nat, t: State)
    requires depth < MAX_DEPTH
    requires forall k :: 0 <= k < |moves| ==> moves[k] in rules.moves(current)
    requires RetraceMoves(rules, current, moves, desired, depth)
    ensures m in rules.moves(current) && n < MAX_DEPTH - depth - 1
    ensures ReachableIn(rules, rules.next(current, m), t, n) && t.board == desired.board
    decreases MAX_DEPTH - depth, 0, |moves|
  {
    if Retrace(rules, rules.next(current, moves[0]), desired, depth + 1) {
      m := moves[0];
      n, t := RetraceSound(rules, rules.next(current, m), desired, depth + 1);
    } else {
      m, n, t := RetraceMovesSound(rules, current, moves[1..], desired, depth);
    }
  }

  lemma {:induction false} RetraceMovesComplete(rules: Rules, current: State, moves: seq<Move>, desired: State, depth: int, m: Move)
    requires depth < MAX_DEPTH
    requires m in moves && Retrace(rules, rules.next(current, m), desired, depth + 1)
    ensures RetraceMoves(rules, current, moves, desired, depth)
    decreases |moves|
  {
    if moves[0] != m {
      RetraceMovesComplete(rules, current, moves[1..], desired, depth, m);
    }
  }

  lemma {:induction false} RetraceComplete(rules: Rules, current: State, desired: State, depth: int, n: nat, t: State)
    requires depth <= MAX_DEPTH && n < MAX_DEPTH - depth
    requires ReachableIn(rules, current, t, n) && t.board == desired.board
    ensures Retrace(rules, current, desired, depth)
    decreases n
  {
    if n > 0 && !Equals(current.board, desired.board) {
      var m :| m in rules.moves(current) && ReachableIn(rules, rules.next(current, m), t, n - 1);
      RetraceComplete(rules, rules.next(current, m), desired, depth + 1, n - 1, t);
      RetraceMovesComplete(rules, current, rules.moves(current), desired, depth, m);
    }
  }

  /** `retrace` succeeds exactly when a board equal to the target lies fewer than MAX_DEPTH - depth plies down. */
  lemma RetraceIff(rules: Rules, current: State, desired: State, depth: int)
    requires depth <= MAX_DEPTH
    ensures Retrace(rules, current, desired, depth) <==>
      exists n: nat, t :: n < MAX_DEPTH - depth && ReachableIn(rules, current, t, n) && t.board == desired.board
  {
    if Retrace(rules, current, desired, depth) {
      var n, t := RetraceSound(rules, current, desired, depth);
      assert n < MAX_DEPTH - depth && ReachableIn(rules, current, t, n) && t.board == desired.board;
    }
    if exists n: nat, t :: n < MAX_DEPTH - depth && ReachableIn(rules, current, t, n) && t.board == desired.board {
      var n: nat, t :| n < MAX_DEPTH - depth && ReachableIn(rules, current, t, n) && t.board == desired.board;
      RetraceComplete(rules, current, desired, depth, n, t);
    }
  }

  /** Two targets with the same board are indistinguishable to `retrace`. */
  lemma RetraceIgnoresPlayer(rules: Rules, current: State, desired: State, depth: int, q: Player)
    requires depth <= MAX_DEPTH
    ensures Retrace(rules, current, desired, depth) == Retrace(rules, current, State(desired.board, q), depth)
  {
    RetraceIff(rules, current, desired, depth);
    RetraceIff(rules, current, State(desired.board, q), depth);
  }

  /** moves[k] is the first of `moves` whose child retraces to `leaf`. */
  ghost predicate IsFirstRetracing(rules: Rules, start: State, moves: seq<Move>, leaf: State, k: int)
  {
    && 0 <= k < |moves|
    && Retrace(rules, rules.next(start, moves[k]), leaf, 0)
    && (forall l :: 0 <= l < k ==> !Retrace(rules, rules.next(start, moves[l]), leaf, 0))
  }

  /**
   * The loop of `play(State)`: the first of `moves` whose child retraces
   * to `leaf`; None where the source falls off the end without a result.
   */
  function FirstRetracingMove(rules: Rules, start: State, moves: seq<Move>, leaf: State): (r: Option<Move>)
    ensures r.None? <==> forall k :: 0 <= k < |moves| ==> !Retrace(rules, rules.next(start, moves[k]), leaf, 0)
    ensures r.Some? ==> exists k :: IsFirstRetracing(rules, start, moves, leaf, k) && moves[k] == r.value
  {
    if moves == [] then None
    else if Retrace(rules, rules.next(start, moves[0]), leaf, 0) then Some(moves[0])
    else
      var r := FirstRetracingMove(rules, start, moves[1..], leaf);
      assert r.Some? ==> exists k :: IsFirstRetracing(rules, start, moves, leaf, k) && moves[k] == r.value by {
        if r.Some? {
          var k :| IsFirstRetracing(rules, start, moves[1..], leaf, k) && moves[1..][k] == r.value;
          assert IsFirstRetracing(rules, start, moves, leaf, k + 1);
        }
      }
      r
  }

  /** Every leaf of the search is recovered: some root move's subtree reaches its board. */
  lemma PlayRecoversLeaf(rules: Rules, start: State, leaf: State)
    requires leaf in Expand(rules, start, 0)
    ensures FirstRetracingMove(rules, start, rules.moves(start), leaf).Some?
  {
    ExpandSound(rules, start, 0, leaf);
    var moves := rules.moves(start);
    var m :| m in moves && ReachableIn(rules, rules.next(start, m), leaf, MAX_DEPTH - 1);
    RetraceComplete(rules, rules.next(start, m), leaf, 0, MAX_DEPTH - 1, leaf);
    var k :| 0 <= k < |moves| && moves[k] == m;
    assert Retrace(rules, rules.next(start, moves[k]), leaf, 0);
  }

  /** Leaf k is the first best one and `m` is the first root move leading to it. */
  ghost predicate ChosenBy(rules: Rules, start: State, evaluate: seq<State> -> seq<int>, k: int, m: Move)
    requires |evaluate(Expand(rules, start, 0))| == |Expand(rules, start, 0)|
  {
    && IsFirstMax(evaluate(Expand(rules, start, 0)), k)
    && FirstRetracingMove(rules, start, rules.moves(start), Expand(rules, start, 0)[k]) == Some(m)
  }

  /**
   * `play(State)`: expand, score the leaves with `evaluate` (the batch
   * evaluator, a parameter here), select the first best leaf and return the
   * first root move leading to it. None when no score is non-negative.
   */
  method Play(rules: Rules, start: State, evaluate: seq<State> -> seq<int>) returns (r: Option<Move>)
    requires |evaluate(Expand(rules, start, 0))| == |Expand(rules, start, 0)|
    ensures r.None? <==> forall l :: 0 <= l < |Expand(rules, start, 0)| ==> evaluate(Expand(rules, start, 0))[l] < 0
    ensures r.Some? ==> r.value in rules.moves(start)
    ensures r.Some? ==> exists k :: ChosenBy(rules, start, evaluate, k, r.value)
  {
    var leaves := Expand(rules, start, 0);
    var results := evaluate(leaves);
    var best := MinmaxCpu(leaves, results);
    if best.None? {
      return None;
    }
    ghost var k :| IsFirstMax(results, k) && best.value == leaves[k];
    PlayRecoversLeaf(rules, start, best.value);
    r := FirstRetracingMove(rules, start, rules.moves(start), best.value);
    assert ChosenBy(rules, start, evaluate, k, r.value);
  }
}
