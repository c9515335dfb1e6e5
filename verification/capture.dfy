/**
 * What `Board::apply` does, stated without its loops: the set of captured
 * cells, the recolouring it amounts to, and its effect on the disc counts.
 */
module Capture {
  import opened Bitboard

  /** Move the cells `s` into the plane `token` is written to, clearing them from the other. */
  function Recolor(b: Board, s: set<int>, token: char): Board
  {
    if token == 'O' then Board(b.layout0 + s, b.layout1 - s)
    else Board(b.layout0 - s, b.layout1 + s)
  }

  /** The cells at steps k, k-1, ..., 1 of direction i, in the order `apply` recolours them. */
  ghost function RunCells(m: Move, i: int, k: int): set<int>
    requires 0 <= i < MOVES
    decreases k
  {
    if k <= 0 then {} else {Cell(Step(m, i, k).x, Step(m, i, k).y)} + RunCells(m, i, k - 1)
  }

  /** The run up to step k holds exactly the cells of steps 1..k. */
  lemma {:induction false} RunCellsIff(m: Move, i: int, k: int, c: int)
    requires 0 <= i < MOVES
    ensures c in RunCells(m, i, k) <==> exists l :: 1 <= l <= k && Cell(Step(m, i, l).x, Step(m, i, l).y) == c
    decreases k
  {
    if k > 0 {
      RunCellsIff(m, i, k - 1, c);
      var last := Cell(Step(m, i, k).x, Step(m, i, k).y);
      if c == last {
        assert 1 <= k <= k && Cell(Step(m, i, k).x, Step(m, i, k).y) == c;
      } else if exists l :: 1 <= l <= k && Cell(Step(m, i, l).x, Step(m, i, l).y) == c {
        var l :| 1 <= l <= k && Cell(Step(m, i, l).x, Step(m, i, l).y) == c;
        assert 1 <= l <= k - 1;
      }
    }
  }

  /** The cells `apply` recolours in direction i. */
  ghost function DirCaptured(b: Board, m: Move, p: Player, i: int): set<int>
    requires OnBoard(m) && 0 <= i < MOVES
  {
    var j := RunEnd(b, m, i, Opponent(p.token), 1);
    if HoldsAt(b, m, i, j, p.token) then RunCells(m, i, j - 1) else {}
  }

  ghost function CapturedFrom(b: Board, m: Move, p: Player, i: int): set<int>
    requires OnBoard(m) && 0 <= i <= MOVES
    decreases MOVES - i
  {
    if i == MOVES then {} else DirCaptured(b, m, p, i) + CapturedFrom(b, m, p, i + 1)
  }

  /** All cells `apply` recolours. */
  ghost function Captured(b: Board, m: Move, p: Player): set<int>
    requires OnBoard(m)
  {
    CapturedFrom(b, m, p, 0)
  }

  /** Cell q lies strictly inside a bracket of the move: an opposing disc that is captured. */
  ghost predicate IsCaptured(b: Board, m: Move, p: Player, q: Move)
  {
    exists i, j, k :: 0 <= i < MOVES && Brackets(b, m, p, i, j) && 1 <= k < j && Step(m, i, k) == q
  }

  // ---------------------------------------------------------------- recolouring

  lemma SetTokenRecolors(b: Board, x: int, y: int, token: char)
    requires IsOnBoard(x, y)
    ensures SetToken(b, x, y, token) == Recolor(b, {Cell(x, y)}, token)
  {
    var r := SetToken(b, x, y, token);
    var e := Recolor(b, {Cell(x, y)}, token);
    assert r.layout0 == e.layout0;
    assert r.layout1 == e.layout1;
  }

  lemma RecolorTwice(b: Board, s: set<int>, t: set<int>, token: char)
    ensures Recolor(Recolor(b, s, token), t, token) == Recolor(b, s + t, token)
  {
    var r := Recolor(Recolor(b, s, token), t, token);
    var e := Recolor(b, s + t, token);
    assert r.layout0 == e.layout0;
    assert r.layout1 == e.layout1;
  }

  /** On a valid board, recolouring shows `Paint(token)` on the recoloured cells and nothing else changes. */
  lemma RecolorTokens(b: Board, s: set<int>, token: char)
    requires Valid(b) && forall c :: c in s ==> InRange(c)
    ensures Valid(Recolor(b, s, token))
    ensures forall x, y :: IsOnBoard(x, y) ==>
      GetToken(Recolor(b, s, token), x, y) == if Cell(x, y) in s then Paint(token) else GetToken(b, x, y)
  {
  }

  lemma RecolorNothing(b: Board, token: char)
    ensures Recolor(b, {}, token) == b
  {
    assert Recolor(b, {}, token).layout0 == b.layout0;
    assert Recolor(b, {}, token).layout1 == b.layout1;
  }

  lemma {:induction false} FlipRunRecolors(ret: Board, m: Move, i: int, k: int, token: char)
    requires 0 <= i < MOVES && 0 <= k
    requires forall l :: 1 <= l <= k ==> OnBoard(Step(m, i, l))
    ensures FlipRun(ret, m, i, k, token) == Recolor(ret, RunCells(m, i, k), token)
    decreases k
  {
    if k == 0 {
      RecolorNothing(ret, token);
    } else {
      var s := Step(m, i, k);
      SetTokenRecolors(ret, s.x, s.y, token);
      FlipRunRecolors(SetToken(ret, s.x, s.y, token), m, i, k - 1, token);
      RecolorTwice(ret, {Cell(s.x, s.y)}, RunCells(m, i, k - 1), token);
    }
  }

  lemma FlipDirectionRecolors(ret: Board, b: Board, m: Move, p: Player, i: int)
    requires OnBoard(m) && 0 <= i < MOVES
    ensures FlipDirection(ret, b, m, p, i) == Recolor(ret, DirCaptured(b, m, p, i), p.token)
  {
    var j := RunEnd(b, m, i, Opponent(p.token), 1);
    if HoldsAt(b, m, i, j, p.token) {
      FlipRunRecolors(ret, m, i, j - 1, p.token);
    } else {
      RecolorNothing(ret, p.token);
    }
  }

  lemma {:induction false} FlipFromRecolors(ret: Board, b: Board, m: Move, p: Player, i: int)
    requires OnBoard(m) && 0 <= i <= MOVES
    ensures FlipFrom(ret, b, m, p, i) == Recolor(ret, CapturedFrom(b, m, p, i), p.token)
    decreases MOVES - i
  {
    if i == MOVES {
      RecolorNothing(ret, p.token);
    } else {
      FlipDirectionRecolors(ret, b, m, p, i);
      FlipFromRecolors(FlipDirection(ret, b, m, p, i), b, m, p, i + 1);
      RecolorTwice(ret, DirCaptured(b, m, p, i), CapturedFrom(b, m, p, i + 1), p.token);
    }
  }

  /** `apply` is one recolouring: the captured cells and the move's own cell go to the mover. */
  lemma ApplyRecolors(b: Board, m: Move, p: Player)
    requires OnBoard(m)
    ensures Apply(b, m, p) == Recolor(b, Captured(b, m, p) + {Cell(m.x, m.y)}, p.token)
  {
    FlipFromRecolors(b, b, m, p, 0);
    SetTokenRecolors(FlipFrom(b, b, m, p, 0), m.x, m.y, p.token);
    RecolorTwice(b, Captured(b, m, p), {Cell(m.x, m.y)}, p.token);
  }

  // ---------------------------------------------------------------- captured cells

  lemma DirCapturedIff(b: Board, m: Move, p: Player, i: int, q: Move)
    requires OnBoard(m) && 0 <= i < MOVES && OnBoard(q)
    ensures Cell(q.x, q.y) in DirCaptured(b, m, p, i) <==>
      exists j, k :: Brackets(b, m, p, i, j) && 1 <= k < j && Step(m, i, k) == q
  {
    var j := RunEnd(b, m, i, Opponent(p.token), 1);
    RunCellsIff(m, i, j - 1, Cell(q.x, q.y));
    if Cell(q.x, q.y) in DirCaptured(b, m, p, i) {
      var k :| 1 <= k <= j - 1 && Cell(Step(m, i, k).x, Step(m, i, k).y) == Cell(q.x, q.y);
      assert HoldsAt(b, m, i, k, Opponent(p.token));
      CellInjective(Step(m, i, k), q);
      assert Brackets(b, m, p, i, j);
    }
    if exists j', k :: Brackets(b, m, p, i, j') && 1 <= k < j' && Step(m, i, k) == q {
      var j', k :| Brackets(b, m, p, i, j') && 1 <= k < j' && Step(m, i, k) == q;
      RunEndOfBrackets(b, m, p, i, j');
      assert Cell(Step(m, i, k).x, Step(m, i, k).y) == Cell(q.x, q.y);
    }
  }

  lemma {:induction false} CapturedFromIff(b: Board, m: Move, p: Player, i: int, c: int)
    requires OnBoard(m) && 0 <= i <= MOVES
    ensures c in CapturedFrom(b, m, p, i) <==> exists d :: i <= d < MOVES && c in DirCaptured(b, m, p, d)
    decreases MOVES - i
  {
    if i < MOVES {
      CapturedFromIff(b, m, p, i + 1, c);
      if exists d :: i <= d < MOVES && c in DirCaptured(b, m, p, d) {
        var d :| i <= d < MOVES && c in DirCaptured(b, m, p, d);
        if d != i {
          assert i + 1 <= d < MOVES && c in DirCaptured(b, m, p, d);
        }
      }
    }
  }

  /** The recoloured cells are exactly the bracketed ones. */
  lemma CapturedIff(b: Board, m: Move, p: Player, q: Move)
    requires OnBoard(m) && OnBoard(q)
    ensures Cell(q.x, q.y) in Captured(b, m, p) <==> IsCaptured(b, m, p, q)
  {
    var c := Cell(q.x, q.y);
    CapturedFromIff(b, m, p, 0, c);
    if c in Captured(b, m, p) {
      var d :| 0 <= d < MOVES && c in DirCaptured(b, m, p, d);
      DirCapturedIff(b, m, p, d, q);
      var j, k :| Brackets(b, m, p, d, j) && 1 <= k < j && Step(m, d, k) == q;
      assert 0 <= d < MOVES && Brackets(b, m, p, d, j) && 1 <= k < j && Step(m, d, k) == q;
    }
    if IsCaptured(b, m, p, q) {
      var i, j, k :| 0 <= i < MOVES && Brackets(b, m, p, i, j) && 1 <= k < j && Step(m, i, k) == q;
      DirCapturedIff(b, m, p, i, q);
    }
  }

  /** A cell recoloured in direction d is on the board and holds an opposing disc. */
  lemma DirCapturedAreOpponents(b: Board, m: Move, p: Player, d: int, c: int)
    requires OnBoard(m) && 0 <= d < MOVES
    ensures c in DirCaptured(b, m, p, d) ==> InRange(c) && TokenAt(b, CellMove(c)) == Opponent(p.token)
  {
    if c in DirCaptured(b, m, p, d) {
      var j := RunEnd(b, m, d, Opponent(p.token), 1);
      RunCellsIff(m, d, j - 1, c);
      var k :| 1 <= k <= j - 1 && Cell(Step(m, d, k).x, Step(m, d, k).y) == c;
      assert HoldsAt(b, m, d, k, Opponent(p.token));
      CellInjective(Step(m, d, k), CellMove(c));
    }
  }

  /** Every recoloured cell is on the board and holds an opposing disc before the move. */
  lemma CapturedAreOpponents(b: Board, m: Move, p: Player)
    requires OnBoard(m)
    ensures forall c :: c in Captured(b, m, p) ==> InRange(c) && TokenAt(b, CellMove(c)) == Opponent(p.token)
  {
    forall c | c in Captured(b, m, p)
      ensures InRange(c) && TokenAt(b, CellMove(c)) == Opponent(p.token)
    {
      CapturedFromIff(b, m, p, 0, c);
      var d :| 0 <= d < MOVES && c in DirCaptured(b, m, p, d);
      DirCapturedAreOpponents(b, m, p, d, c);
    }
  }

  // ---------------------------------------------------------------- properties of apply

  /**
   * `apply` places the mover's disc, recolours exactly the bracketed
   * opposing discs, leaves every other cell as it was and keeps the planes
   * disjoint.
   */
  lemma ApplyChangesOnlyCaptured(b: Board, m: Move, p: Player)
    requires Valid(b) && OnBoard(m)
    ensures Valid(Apply(b, m, p))
    ensures TokenAt(Apply(b, m, p), m) == Paint(p.token)
    ensures forall q :: OnBoard(q) && IsCaptured(b, m, p, q) ==> TokenAt(b, q) == Opponent(p.token)
    ensures forall q :: OnBoard(q) && q != m ==>
      TokenAt(Apply(b, m, p), q) == if IsCaptured(b, m, p, q) then Paint(p.token) else TokenAt(b, q)
  {
    var s := Captured(b, m, p) + {Cell(m.x, m.y)};
    ApplyRecolors(b, m, p);
    CapturedAreOpponents(b, m, p);
    RecolorTokens(b, s, p.token);
    forall q | OnBoard(q) && IsCaptured(b, m, p, q)
      ensures TokenAt(b, q) == Opponent(p.token)
    {
      CapturedIff(b, m, p, q);
      assert CellMove(Cell(q.x, q.y)) == q;
    }
    forall q | OnBoard(q) && q != m
      ensures TokenAt(Apply(b, m, p), q) == if IsCaptured(b, m, p, q) then Paint(p.token) else TokenAt(b, q)
    {
      CapturedIff(b, m, p, q);
      if Cell(q.x, q.y) == Cell(m.x, m.y) {
        CellInjective(q, m);
      }
    }
  }

  /** A legal move captures at least one disc: step 1 of a flanking direction. */
  lemma LegalMoveCaptures(b: Board, m: Move, p: Player)
    requires MoveIsPossible(b, m, p)
    ensures Captured(b, m, p) != {}
  {
    MoveIsPossibleIff(b, m, p);
    var i, j :| 0 <= i < MOVES && Brackets(b, m, p, i, j);
    RunEndOfBrackets(b, m, p, i, j);
    var c := Cell(Step(m, i, 1).x, Step(m, i, 1).y);
    assert c in DirCaptured(b, m, p, i);
    CapturedFromIff(b, m, p, 0, c);
  }

  /** Cardinalities of moving `cap` (taken from `opp`) and a fresh cell `cm` into `own`. */
  lemma MoveCellsCounts(own: set<int>, opp: set<int>, cap: set<int>, cm: int)
    requires own !! opp && cap <= opp && cm !in own && cm !in opp
    ensures |own + (cap + {cm})| == |own| + |cap| + 1
    ensures |opp - (cap + {cm})| == |opp| - |cap|
  {
    assert cm !in cap;
    assert |cap + {cm}| == |cap| + 1;
    assert own * (cap + {cm}) == {};
    assert opp - (cap + {cm}) == opp - cap;
    assert opp * cap == cap;
  }

  /**
   * For a legal move of 'O' or 'X', the board gains exactly one disc and
   * the mover at least two: the placed disc and at least one capture,
   * each capture taken from the opponent.
   */
  lemma ApplyLegalMoveCounts(b: Board, m: Move, p: Player)
    requires Valid(b) && (p.token == 'O' || p.token == 'X') && MoveIsPossible(b, m, p)
    ensures |Apply(b, m, p).layout0| + |Apply(b, m, p).layout1| == |b.layout0| + |b.layout1| + 1
    ensures |Plane(Apply(b, m, p), TokenPlane(p.token))| >= |Plane(b, TokenPlane(p.token))| + 2
    ensures |Plane(Apply(b, m, p), 1 - TokenPlane(p.token))|
         == |Plane(b, 1 - TokenPlane(p.token))| + |Plane(b, TokenPlane(p.token))| + 1
          - |Plane(Apply(b, m, p), TokenPlane(p.token))|
  {
    var cap := Captured(b, m, p);
    var cm := Cell(m.x, m.y);
    var own := Plane(b, TokenPlane(p.token));
    var opp := Plane(b, 1 - TokenPlane(p.token));
    ApplyRecolors(b, m, p);
    CapturedAreOpponents(b, m, p);
    LegalMoveCaptures(b, m, p);
    assert cm !in b.layout0 && cm !in b.layout1;
    assert cap <= opp by {
      forall c | c in cap ensures c in opp {
        assert CellMove(c) == Move(c / SIZE, c % SIZE);
      }
    }
    MoveCellsCounts(own, opp, cap, cm);
    assert |cap| >= 1;
  }
}
