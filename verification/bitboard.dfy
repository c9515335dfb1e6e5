/**
 * The 8x8 board as two occupancy planes (the `Board` struct of othello.cpp):
 * cell access, the eight-direction legality scan, row-major move generation
 * and move application.
 *
 * A plane is the set of cell indices whose bit is set; cell (x, y) is bit
 * x*8+y. Plane 0 holds the 'O' discs and plane 1 the 'X' discs.
 *
 * The recursions over a direction or cell index also name the board in
 * their decreases clause. The board never changes along them, so this only
 * keeps the verifier from unrolling a recursion that starts at a literal
 * index all the way down on every board it meets.
 */
module Bitboard {

  /** Board side and number of scan directions (Board::SIZE, Board::MOVES). */
  const SIZE: int := 8
  const MOVES: int := 8

  /** Direction vectors, one per scan direction (Board::X, Board::Y). */
  const DX: seq<int> := [-1, -1, 0, 1, 1, 1, 0, -1]
  const DY: seq<int> := [0, -1, -1, -1, 0, 1, 1, 1]

  /** What `get_token` reports for a cell held by neither plane. */
  const EMPTY: char := '-'

  datatype Move = Move(x: int, y: int)

  datatype Player = Player(token: char)

  datatype Board = Board(layout0: set<int>, layout1: set<int>)

  /** The token of the other side: anything but 'X' is answered with 'X'. */
  function Opponent(token: char): (r: char)
    ensures r != token
    ensures r == 'O' || r == 'X'
    ensures token != 'X' ==> r == 'X'
  {
    if token == 'X' then 'O' else 'X'
  }

  /** The plane a token is written to; every token but 'O' is written as 'X'. */
  function TokenPlane(token: char): int
  {
    if token == 'O' then 0 else 1
  }

  /** The token `get_token` reports for a disc written with `token`. */
  function Paint(token: char): char
  {
    if token == 'O' then 'O' else 'X'
  }

  // ---------------------------------------------------------------- cells

  predicate IsOnBoard(x: int, y: int)
  {
    0 <= x < SIZE && 0 <= y < SIZE
  }

  predicate OnBoard(m: Move)
  {
    IsOnBoard(m.x, m.y)
  }

  predicate InRange(c: int)
  {
    0 <= c < SIZE * SIZE
  }

  /** The bit index of cell (x, y); on the board it is a bijection onto 0..63. */
  function Cell(x: int, y: int): (c: int)
    ensures IsOnBoard(x, y) ==> InRange(c) && c / SIZE == x && c % SIZE == y
  {
    x * SIZE + y
  }

  /** The cell a bit index stands for. */
  function CellMove(c: int): (m: Move)
    requires InRange(c)
    ensures OnBoard(m) && Cell(m.x, m.y) == c
  {
    Move(c / SIZE, c % SIZE)
  }

  lemma CellInjective(m: Move, n: Move)
    requires OnBoard(m) && OnBoard(n) && Cell(m.x, m.y) == Cell(n.x, n.y)
    ensures m == n
  {
  }

  // ---------------------------------------------------------------- planes

  function Plane(b: Board, idx: int): set<int>
    requires idx == 0 || idx == 1
  {
    if idx == 0 then b.layout0 else b.layout1
  }

  function WithPlane(b: Board, idx: int, plane: set<int>): Board
    requires idx == 0 || idx == 1
  {
    if idx == 0 then b.(layout0 := plane) else b.(layout1 := plane)
  }

  /** Every set bit addresses a cell and no cell is set in both planes. */
  ghost predicate Valid(b: Board)
  {
    && (forall c :: c in b.layout0 ==> InRange(c))
    && (forall c :: c in b.layout1 ==> InRange(c))
    && b.layout0 !! b.layout1
  }

  predicate Fired(b: Board, x: int, y: int, idx: int)
    requires idx == 0 || idx == 1
  {
    Cell(x, y) in Plane(b, idx)
  }

  function FireBit(b: Board, x: int, y: int, idx: int): (r: Board)
    requires IsOnBoard(x, y) && (idx == 0 || idx == 1)
    ensures Fired(r, x, y, idx)
    ensures Plane(r, 1 - idx) == Plane(b, 1 - idx)
    ensures forall c :: c != Cell(x, y) ==> (c in Plane(r, idx) <==> c in Plane(b, idx))
  {
    WithPlane(b, idx, Plane(b, idx) + {Cell(x, y)})
  }

  function DissipateBit(b: Board, x: int, y: int, idx: int): (r: Board)
    requires IsOnBoard(x, y) && (idx == 0 || idx == 1)
    ensures !Fired(r, x, y, idx)
    ensures Plane(r, 1 - idx) == Plane(b, 1 - idx)
    ensures forall c :: c != Cell(x, y) ==> (c in Plane(r, idx) <==> c in Plane(b, idx))
  {
    if Fired(b, x, y, idx) then WithPlane(b, idx, Plane(b, idx) - {Cell(x, y)}) else b
  }

  /** 'O' wins over 'X' when a cell is set in both planes. */
  function GetToken(b: Board, x: int, y: int): (t: char)
    requires IsOnBoard(x, y)
    ensures t == 'O' || t == 'X' || t == EMPTY
    ensures Valid(b) ==> (t == 'O' <==> Cell(x, y) in b.layout0)
    ensures Valid(b) ==> (t == 'X' <==> Cell(x, y) in b.layout1)
  {
    if Fired(b, x, y, 0) then 'O' else if Fired(b, x, y, 1) then 'X' else EMPTY
  }

  function TokenAt(b: Board, m: Move): char
    requires OnBoard(m)
  {
    GetToken(b, m.x, m.y)
  }

  /** Writes a disc; the cell is cleared from the other plane, so the planes stay disjoint. */
  function SetToken(b: Board, x: int, y: int, token: char): (r: Board)
    requires IsOnBoard(x, y)
    ensures GetToken(r, x, y) == Paint(token)
  {
    if token == 'O' then DissipateBit(FireBit(b, x, y, 0), x, y, 1)
    else DissipateBit(FireBit(b, x, y, 1), x, y, 0)
  }

  /**
   * `set_token` touches one cell only: every other cell reads as before,
   * and a valid board stays valid.
   */
  lemma SetTokenWrites(b: Board, x: int, y: int, token: char)
    requires IsOnBoard(x, y)
    ensures forall x', y' :: IsOnBoard(x', y') && (x' != x || y' != y) ==>
      GetToken(SetToken(b, x, y, token), x', y') == GetToken(b, x', y')
    ensures forall c :: c != Cell(x, y) ==>
      (c in SetToken(b, x, y, token).layout0 <==> c in b.layout0) && (c in SetToken(b, x, y, token).layout1 <==> c in b.layout1)
    ensures Valid(b) ==> Valid(SetToken(b, x, y, token))
  {
  }

  /** `equals`: both planes match, which makes the two boards the same value. */
  predicate Equals(b: Board, other: Board): (r: bool)
    ensures r <==> b == other
  {
    b.layout0 == other.layout0 && b.layout1 == other.layout1
  }

  /** On valid boards, plane equality is exactly "every cell shows the same token". */
  lemma EqualsIffSameTokens(a: Board, b: Board)
    requires Valid(a) && Valid(b)
    ensures Equals(a, b) <==> forall x, y :: IsOnBoard(x, y) ==> GetToken(a, x, y) == GetToken(b, x, y)
  {
    if forall x, y :: IsOnBoard(x, y) ==> GetToken(a, x, y) == GetToken(b, x, y) {
      forall c | c in a.layout0 ensures c in b.layout0 {
        var m := CellMove(c);
        assert GetToken(a, m.x, m.y) == 'O';
      }
      forall c | c in b.layout0 ensures c in a.layout0 {
        var m := CellMove(c);
        assert GetToken(b, m.x, m.y) == 'O';
      }
      forall c | c in a.layout1 ensures c in b.layout1 {
        var m := CellMove(c);
        assert GetToken(a, m.x, m.y) == 'X';
      }
      forall c | c in b.layout1 ensures c in a.layout1 {
        var m := CellMove(c);
        assert GetToken(b, m.x, m.y) == 'X';
      }
    }
  }

  /** The starting layout (Board's constructor). */
  function Initial(): (b: Board)
    ensures Valid(b)
    ensures GetToken(b, 3, 3) == 'O' && GetToken(b, 4, 4) == 'O'
    ensures GetToken(b, 3, 4) == 'X' && GetToken(b, 4, 3) == 'X'
    ensures forall x, y :: IsOnBoard(x, y) && Cell(x, y) !in {27, 28, 35, 36} ==> GetToken(b, x, y) == EMPTY
  {
    var b := Board({}, {});
    var b := FireBit(b, 3, 3, 0);
    var b := FireBit(b, 4, 4, 0);
    var b := FireBit(b, 3, 4, 1);
    FireBit(b, 4, 3, 1)
  }

  // ---------------------------------------------------------------- scanning

  /** The cell `j` steps away from `m` in direction `i`. */
  function Step(m: Move, i: int, j: int): Move
    requires 0 <= i < MOVES
  {
    Move(m.x + DX[i] * j, m.y + DY[i] * j)
  }

  /** The cell `j` steps away is on the board and shows `token`. */
  predicate HoldsAt(b: Board, m: Move, i: int, j: int, token: char)
    requires 0 <= i < MOVES
  {
    OnBoard(Step(m, i, j)) && TokenAt(b, Step(m, i, j)) == token
  }

  /** Every direction is a unit step, so a walk from the board leaves it within 8 steps. */
  lemma StepBound(m: Move, i: int, j: int)
    requires OnBoard(m) && 0 <= i < MOVES && 1 <= j
    ensures OnBoard(Step(m, i, j)) ==> j < SIZE
  {
    if i == 0 || i == 1 || i == 7 {
      assert Step(m, i, j).x == m.x - j;
    } else if i == 3 || i == 4 || i == 5 {
      assert Step(m, i, j).x == m.x + j;
    } else if i == 2 {
      assert Step(m, i, j).y == m.y - j;
    } else {
      assert Step(m, i, j).y == m.y + j;
    }
  }

  /**
   * The scan loop of `move_is_possible` and `apply`: starting at step `j`,
   * advance while the cell is on the board and shows `opp`; the result is the
   * first step where that fails.
   */
  function RunEnd(b: Board, m: Move, i: int, opp: char, j: int): (r: int)
    requires OnBoard(m) && 0 <= i < MOVES && 1 <= j <= SIZE
    ensures j <= r <= SIZE
    ensures forall k :: j <= k < r ==> HoldsAt(b, m, i, k, opp)
    ensures !HoldsAt(b, m, i, r, opp)
    decreases SIZE - j
  {
    if HoldsAt(b, m, i, j, opp) then
      StepBound(m, i, j);
      RunEnd(b, m, i, opp, j + 1)
    else
      j
  }

  /** One direction of `move_is_possible`: a run of at least one opposing disc closed by an own disc. */
  predicate Flanks(b: Board, m: Move, p: Player, i: int)
    requires OnBoard(m) && 0 <= i < MOVES
  {
    var j := RunEnd(b, m, i, Opponent(p.token), 1);
    HoldsAt(b, m, i, j, p.token) && j > 1
  }

  /** Some direction `i` or later flanks (the direction loop of `move_is_possible`). */
  predicate FlanksFrom(b: Board, m: Move, p: Player, i: int)
    requires OnBoard(m) && 0 <= i <= MOVES
    decreases MOVES - i, b
  {
    i < MOVES && (Flanks(b, m, p, i) || FlanksFrom(b, m, p, i + 1))
  }

  predicate MoveIsPossible(b: Board, m: Move, p: Player)
  {
    OnBoard(m) && TokenAt(b, m) == EMPTY && FlanksFrom(b, m, p, 0)
  }

  /** Steps 1..j-1 hold the opponent, j > 1, and step j holds the player. */
  ghost predicate Brackets(b: Board, m: Move, p: Player, i: int, j: int)
    requires 0 <= i < MOVES
  {
    && 1 < j
    && (forall k :: 1 <= k < j ==> HoldsAt(b, m, i, k, Opponent(p.token)))
    && HoldsAt(b, m, i, j, p.token)
  }

  /** The rule of the game, stated without the scan loop. */
  ghost predicate IsLegal(b: Board, m: Move, p: Player)
  {
    OnBoard(m) && TokenAt(b, m) == EMPTY && exists i, j :: 0 <= i < MOVES && Brackets(b, m, p, i, j)
  }

  /** A bracket in direction i is found by the scan: the run ends exactly at its closing disc. */
  lemma RunEndOfBrackets(b: Board, m: Move, p: Player, i: int, j: int)
    requires OnBoard(m) && 0 <= i < MOVES && Brackets(b, m, p, i, j)
    ensures RunEnd(b, m, i, Opponent(p.token), 1) == j
  {
    var r := RunEnd(b, m, i, Opponent(p.token), 1);
    if r < j {
      assert false;
    } else if r > j {
      assert false;
    }
  }

  lemma FlanksIffBrackets(b: Board, m: Move, p: Player, i: int)
    requires OnBoard(m) && 0 <= i < MOVES
    ensures Flanks(b, m, p, i) <==> exists j :: Brackets(b, m, p, i, j)
  {
    if Flanks(b, m, p, i) {
      var j := RunEnd(b, m, i, Opponent(p.token), 1);
      assert Brackets(b, m, p, i, j);
    }
    if exists j :: Brackets(b, m, p, i, j) {
      var j :| Brackets(b, m, p, i, j);
      RunEndOfBrackets(b, m, p, i, j);
    }
  }

  lemma {:induction false} FlanksFromIff(b: Board, m: Move, p: Player, i: int)
    requires OnBoard(m) && 0 <= i <= MOVES
    ensures FlanksFrom(b, m, p, i) <==> exists d, j :: i <= d < MOVES && Brackets(b, m, p, d, j)
    decreases MOVES - i
  {
    if i < MOVES {
      FlanksIffBrackets(b, m, p, i);
      FlanksFromIff(b, m, p, i + 1);
      if exists d, j :: i <= d < MOVES && Brackets(b, m, p, d, j) {
        var d, j :| i <= d < MOVES && Brackets(b, m, p, d, j);
        if d != i {
          assert i + 1 <= d < MOVES && Brackets(b, m, p, d, j);
        }
      }
    }
  }

  /** `move_is_possible` decides the rule of the game. */
  lemma MoveIsPossibleIff(b: Board, m: Move, p: Player)
    ensures MoveIsPossible(b, m, p) <==> IsLegal(b, m, p)
  {
    if OnBoard(m) {
      FlanksFromIff(b, m, p, 0);
    }
  }

  /**
   * A bracket needs a disc of each colour, so on a board that shows only one
   * colour neither token has a legal move.
   */
  lemma OneColourHasNoMoves(b: Board, m: Move, p: Player)
    requires Valid(b) && (p.token == 'O' || p.token == 'X')
    requires b.layout0 == {} || b.layout1 == {}
    ensures !IsLegal(b, m, p)
  {
    forall i, j | 0 <= i < MOVES ensures !Brackets(b, m, p, i, j) {
      if Plane(b, TokenPlane(Opponent(p.token))) == {} {
        assert !HoldsAt(b, m, i, 1, Opponent(p.token));
      } else {
        assert !HoldsAt(b, m, i, j, p.token);
      }
    }
  }

  // ---------------------------------------------------------------- move generation

  /** The legal moves among cells c..63, in row-major order. */
  function GenerateFrom(b: Board, p: Player, c: int): (r: seq<Move>)
    requires 0 <= c <= SIZE * SIZE
    ensures |r| <= SIZE * SIZE - c
    ensures forall k :: 0 <= k < |r| ==> MoveIsPossible(b, r[k], p) && c <= Cell(r[k].x, r[k].y)
    ensures forall k, l :: 0 <= k < l < |r| ==> Cell(r[k].x, r[k].y) < Cell(r[l].x, r[l].y)
    decreases SIZE * SIZE - c, b
  {
    if c == SIZE * SIZE then []
    else
      var m := CellMove(c);
      (if MoveIsPossible(b, m, p) then [m] else []) + GenerateFrom(b, p, c + 1)
  }

  lemma {:induction false} GenerateFromComplete(b: Board, p: Player, c: int, m: Move)
    requires 0 <= c <= SIZE * SIZE
    requires MoveIsPossible(b, m, p) && c <= Cell(m.x, m.y)
    ensures m in GenerateFrom(b, p, c)
    decreases SIZE * SIZE - c
  {
    if Cell(m.x, m.y) == c {
      CellInjective(m, CellMove(c));
    } else {
      GenerateFromComplete(b, p, c + 1, m);
    }
  }

  /** All legal moves, each once, in strictly increasing row-major order. */
  function GenerateMoves(b: Board, p: Player): (r: seq<Move>)
    ensures forall m :: m in r <==> MoveIsPossible(b, m, p)
    ensures forall k, l :: 0 <= k < l < |r| ==> Cell(r[k].x, r[k].y) < Cell(r[l].x, r[l].y)
    ensures forall k :: 0 <= k < |r| ==> OnBoard(r[k])
  {
    forall m | MoveIsPossible(b, m, p) {
      GenerateFromComplete(b, p, 0, m);
    }
    GenerateFrom(b, p, 0)
  }

  /** Cells c..63 holding a legal move. */
  ghost function LegalCellsFrom(b: Board, p: Player, c: int): set<int>
    requires 0 <= c
  {
    set d | c <= d < SIZE * SIZE && MoveIsPossible(b, CellMove(d), p)
  }

  /** Cell c is legal or not, and the cells after it are counted on their own. */
  lemma LegalCellsFromSplit(b: Board, p: Player, c: int)
    requires 0 <= c < SIZE * SIZE
    ensures |LegalCellsFrom(b, p, c)| == (if MoveIsPossible(b, CellMove(c), p) then 1 else 0) + |LegalCellsFrom(b, p, c + 1)|
  {
    var here: set<int> := if MoveIsPossible(b, CellMove(c), p) then {c} else {};
    assert LegalCellsFrom(b, p, c) == here + LegalCellsFrom(b, p, c + 1);
    assert here !! LegalCellsFrom(b, p, c + 1);
  }

  lemma NoLegalCellsPastEnd(b: Board, p: Player)
    ensures LegalCellsFrom(b, p, SIZE * SIZE) == {}
  {
  }

  lemma {:induction false} GenerateFromCountsLegalCells(b: Board, p: Player, c: int)
    requires 0 <= c <= SIZE * SIZE
    ensures |GenerateFrom(b, p, c)| == |LegalCellsFrom(b, p, c)|
    decreases SIZE * SIZE - c
  {
    if c == SIZE * SIZE {
      NoLegalCellsPastEnd(b, p);
    } else {
      GenerateFromCountsLegalCells(b, p, c + 1);
      LegalCellsFromSplit(b, p, c);
    }
  }

  /** `player_mobility`: the number of cells where the player may move. */
  function PlayerMobility(b: Board, p: Player): (n: int)
    ensures n == |LegalCellsFrom(b, p, 0)|
    ensures n == 0 <==> forall m :: !MoveIsPossible(b, m, p)
  {
    GenerateFromCountsLegalCells(b, p, 0);
    var r := GenerateMoves(b, p);
    assert r != [] ==> MoveIsPossible(b, r[0], p);
    |r|
  }

  // ---------------------------------------------------------------- move application

  /** Recolours steps k, k-1, ..., 1 of direction i (the inner loop of `apply`). */
  function FlipRun(ret: Board, m: Move, i: int, k: int, token: char): Board
    requires 0 <= i < MOVES
    requires forall l :: 1 <= l <= k ==> OnBoard(Step(m, i, l))
    decreases k
  {
    if k <= 0 then ret
    else
      var s := Step(m, i, k);
      assert OnBoard(s);
      FlipRun(SetToken(ret, s.x, s.y, token), m, i, k - 1, token)
  }

  /** One direction of `apply`: scan `b`, and if the run is closed by an own disc, recolour it in `ret`. */
  function FlipDirection(ret: Board, b: Board, m: Move, p: Player, i: int): Board
    requires OnBoard(m) && 0 <= i < MOVES
  {
    var j := RunEnd(b, m, i, Opponent(p.token), 1);
    if HoldsAt(b, m, i, j, p.token) then FlipRun(ret, m, i, j - 1, p.token) else ret
  }

  /** Directions i..7 of `apply`, each scanning the original board `b`. */
  function FlipFrom(ret: Board, b: Board, m: Move, p: Player, i: int): Board
    requires OnBoard(m) && 0 <= i <= MOVES
    decreases MOVES - i, b
  {
    if i == MOVES then ret else FlipFrom(FlipDirection(ret, b, m, p, i), b, m, p, i + 1)
  }

  /** `apply`: flip every closed run, then place the disc; `b` itself is a value and is not changed. */
  function Apply(b: Board, m: Move, p: Player): Board
    requires OnBoard(m)
  {
    SetToken(FlipFrom(b, b, m, p, 0), m.x, m.y, p.token)
  }

  // ---------------------------------------------------------------- the opening

  /** 'O' on (3,3) and (4,4), 'X' on (3,4) and (4,3). */
  predicate IsStartLayout(b: Board)
  {
    b.layout0 == {Cell(3, 3), Cell(4, 4)} && b.layout1 == {Cell(3, 4), Cell(4, 3)}
  }

  lemma InitialIsStartLayout()
    ensures IsStartLayout(Initial())
  {
  }

  /** In the opening every bracket for 'X' is one 'O' disc closed by an 'X' disc next to it. */
  lemma StartBracketIsShort(b: Board, m: Move, i: int, j: int)
    requires IsStartLayout(b) && OnBoard(m) && 0 <= i < MOVES
    requires Brackets(b, m, Player('X'), i, j)
    ensures j == 2
  {
    var opp := Opponent(Player('X').token);
    assert HoldsAt(b, m, i, 1, opp);
    assert j > 2 ==> HoldsAt(b, m, i, 2, opp);
  }

  /** So 'X' can only move next to an 'O' disc with an 'X' disc behind it: four cells. */
  lemma StartLegalOnlyFour(b: Board, m: Move, i: int, j: int)
    requires IsStartLayout(b) && OnBoard(m) && 0 <= i < MOVES
    requires Brackets(b, m, Player('X'), i, j)
    ensures Cell(m.x, m.y) in {Cell(2, 3), Cell(3, 2), Cell(4, 5), Cell(5, 4)}
  {
    StartBracketIsShort(b, m, i, j);
    assert HoldsAt(b, m, i, 1, Opponent(Player('X').token));
    assert HoldsAt(b, m, i, 2, 'X');
  }

  lemma StartFourAreLegal(b: Board)
    requires IsStartLayout(b)
    ensures forall d :: d in {Cell(2, 3), Cell(3, 2), Cell(4, 5), Cell(5, 4)} ==> MoveIsPossible(b, CellMove(d), Player('X'))
  {
    var p := Player('X');
    assert Brackets(b, Move(2, 3), p, 4, 2);
    assert Brackets(b, Move(3, 2), p, 6, 2);
    assert Brackets(b, Move(4, 5), p, 2, 2);
    assert Brackets(b, Move(5, 4), p, 0, 2);
    forall d | d in {Cell(2, 3), Cell(3, 2), Cell(4, 5), Cell(5, 4)} ensures MoveIsPossible(b, CellMove(d), p) {
      MoveIsPossibleIff(b, CellMove(d), p);
    }
  }

  lemma StartLegalAmongFour(b: Board)
    requires IsStartLayout(b)
    ensures forall d :: 0 <= d < SIZE * SIZE && MoveIsPossible(b, CellMove(d), Player('X')) ==>
      d in {Cell(2, 3), Cell(3, 2), Cell(4, 5), Cell(5, 4)}
  {
    var p := Player('X');
    forall d | 0 <= d < SIZE * SIZE && MoveIsPossible(b, CellMove(d), p)
      ensures d in {Cell(2, 3), Cell(3, 2), Cell(4, 5), Cell(5, 4)}
    {
      var m := CellMove(d);
      MoveIsPossibleIff(b, m, p);
      var i, j :| 0 <= i < MOVES && Brackets(b, m, p, i, j);
      StartLegalOnlyFour(b, m, i, j);
    }
  }

  /** The cells where 'X' may open. */
  lemma StartLegalCells(b: Board)
    requires IsStartLayout(b)
    ensures LegalCellsFrom(b, Player('X'), 0) == {Cell(2, 3), Cell(3, 2), Cell(4, 5), Cell(5, 4)}
    ensures |LegalCellsFrom(b, Player('X'), 0)| == 4
  {
    StartFourAreLegal(b);
    StartLegalAmongFour(b);
    assert {Cell(2, 3), Cell(3, 2), Cell(4, 5), Cell(5, 4)} == {19, 26, 37, 44};
  }

  /** On the starting board 'X' has four moves. */
  lemma InitialMobility()
    ensures PlayerMobility(Initial(), Player('X')) == 4
  {
    InitialIsStartLayout();
    StartLegalCells(Initial());
  }
}
