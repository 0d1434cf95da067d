// The engine's decision procedure (the class Ai of main.py): the exhaustive
// scorer `score_moves`, the choice `next_move` and the board update
// `make_turn`.

module Engine {
  import opened Rules

  /** The sum of the scores of a sequence of (score, move) pairs (the source's `sum(scores)`). */
  function SumScores(s: seq<(int, Index)>): int
  {
    if s == [] then 0 else s[0].0 + SumScores(s[1..])
  }

  // ---------------------------------------------------------------------
  // score_moves: for each empty cell in ascending order, one (score, move)
  // pair. The generator becomes a finite sequence; the three functions
  // below are mutually recursive, and the search ends because every
  // hypothetical move leaves one empty cell fewer.
  // ---------------------------------------------------------------------

  /** The pairs the generator yields for board b with xPlayer to move: one per empty cell, in order. */
  function ScoreMoves(b: Markers, xPlayer: bool): (r: seq<(int, Index)>)
    decreases |EmptyCells(b)|, 2, 0
    ensures |r| == |EmptyCells(b)|
    ensures forall k :: 0 <= k < |r| ==> r[k].1 == EmptyCells(b)[k]
  {
    ScoreFrom(b, xPlayer, 0)
  }

  /** The pairs for the empty cells with index i or more. */
  function ScoreFrom(b: Markers, xPlayer: bool, i: nat): (r: seq<(int, Index)>)
    requires i <= 9
    decreases |EmptyCells(b)|, 1, 9 - i
    ensures |r| == |EmptyCellsFrom(b, i)|
    ensures forall k :: 0 <= k < |r| ==> r[k].1 == EmptyCellsFrom(b, i)[k]
  {
    if i == 9 then []
    else if b[i] == Empty then [(ScoreOf(b, xPlayer, i), i as Index)] + ScoreFrom(b, xPlayer, i + 1)
    else ScoreFrom(b, xPlayer, i + 1)
  }

  /** The k-th pair from i onwards holds an empty cell and carries that cell's score. */
  lemma {:induction false} ScoreFromAt(b: Markers, xPlayer: bool, i: nat, k: nat)
    requires i <= 9 && k < |ScoreFrom(b, xPlayer, i)|
    decreases 9 - i
    ensures b[ScoreFrom(b, xPlayer, i)[k].1] == Empty
    ensures ScoreFrom(b, xPlayer, i)[k].0 == ScoreOf(b, xPlayer, ScoreFrom(b, xPlayer, i)[k].1)
  {
    var r := ScoreFrom(b, xPlayer, i);
    var rest := ScoreFrom(b, xPlayer, i + 1);
    if b[i] == Empty {
      assert r == [(ScoreOf(b, xPlayer, i), i as Index)] + rest;
      if k > 0 {
        assert r[k] == rest[k - 1];
        ScoreFromAt(b, xPlayer, i + 1, k - 1);
      } else {
        assert r[0] == (ScoreOf(b, xPlayer, i), i as Index);
      }
    } else {
      assert ScoreFrom(b, xPlayer, i) == rest;
      ScoreFromAt(b, xPlayer, i + 1, k);
    }
  }

  /** The k-th pair holds an empty cell and carries that cell's score. */
  lemma ScoreMovesAt(b: Markers, xPlayer: bool, k: nat)
    requires k < |ScoreMoves(b, xPlayer)|
    ensures b[ScoreMoves(b, xPlayer)[k].1] == Empty
    ensures ScoreMoves(b, xPlayer)[k].0 == ScoreOf(b, xPlayer, ScoreMoves(b, xPlayer)[k].1)
  {
    ScoreFromAt(b, xPlayer, 0, k);
  }

  /**
   * score_moves yields exactly one pair per empty cell, in strictly
   * ascending order of the cell, each carrying that cell's ScoreOf.
   */
  lemma ScoreMovesPairs(b: Markers, xPlayer: bool)
    ensures forall k :: 0 <= k < |ScoreMoves(b, xPlayer)| ==>
      b[ScoreMoves(b, xPlayer)[k].1] == Empty &&
      ScoreMoves(b, xPlayer)[k].0 == ScoreOf(b, xPlayer, ScoreMoves(b, xPlayer)[k].1)
    ensures forall k, l :: 0 <= k < l < |ScoreMoves(b, xPlayer)| ==>
      ScoreMoves(b, xPlayer)[k].1 < ScoreMoves(b, xPlayer)[l].1
    ensures forall j: Index :: b[j] == Empty ==>
      exists k :: 0 <= k < |ScoreMoves(b, xPlayer)| && ScoreMoves(b, xPlayer)[k].1 == j
  {
    var r := ScoreMoves(b, xPlayer);
    var e := EmptyCells(b);
    forall k | 0 <= k < |r|
      ensures b[r[k].1] == Empty && r[k].0 == ScoreOf(b, xPlayer, r[k].1)
    {
      ScoreMovesAt(b, xPlayer, k);
    }
    forall k, l | 0 <= k < l < |r|
      ensures r[k].1 < r[l].1
    {
      EmptyCellsOrdered(b, 0, k, l);
    }
    forall j: Index | b[j] == Empty
      ensures exists k :: 0 <= k < |r| && r[k].1 == j
    {
      EmptyCellListed(b, 0, j);
      var k :| 0 <= k < |e| && e[k] == j;
      assert r[k].1 == j;
    }
  }

  /**
   * The score of xPlayer moving to the empty cell m: a win scores -1 when
   * X moved and +1 when O moved and is not explored further; otherwise the
   * score is 0 when the board is now full and the sum of all the replies'
   * scores when it is not.
   */
  function ScoreOf(b: Markers, xPlayer: bool, m: Index): int
    requires b[m] == Empty
    decreases |EmptyCells(b)|, 0, 0
  {
    var proposal := Place(b, m, PlayerMarker(xPlayer));
    PlaceCount(b, m, PlayerMarker(xPlayer));
    if CheckWin(proposal, xPlayer) then
      if xPlayer then -1 else 1
    else
      var nextMoves := ScoreMoves(proposal, !xPlayer);
      if nextMoves == [] then 0 else SumScores(nextMoves)
  }

  /** The three cases of a move's score, with the hypothesis board written out. */
  lemma ScoreOfCases(b: Markers, xPlayer: bool, m: Index)
    requires b[m] == Empty
    ensures Place(b, m, PlayerMarker(xPlayer))[m] == PlayerMarker(xPlayer)
    ensures forall j: Index :: j != m ==> Place(b, m, PlayerMarker(xPlayer))[j] == b[j]
    ensures CheckWin(Place(b, m, PlayerMarker(xPlayer)), xPlayer) ==>
      ScoreOf(b, xPlayer, m) == if xPlayer then -1 else 1
    ensures !CheckWin(Place(b, m, PlayerMarker(xPlayer)), xPlayer) && IsFull(Place(b, m, PlayerMarker(xPlayer))) ==>
      ScoreOf(b, xPlayer, m) == 0
    ensures !CheckWin(Place(b, m, PlayerMarker(xPlayer)), xPlayer) && !IsFull(Place(b, m, PlayerMarker(xPlayer))) ==>
      |ScoreMoves(Place(b, m, PlayerMarker(xPlayer)), !xPlayer)| == |EmptyCells(b)| - 1 &&
      ScoreOf(b, xPlayer, m) == SumScores(ScoreMoves(Place(b, m, PlayerMarker(xPlayer)), !xPlayer))
  {
    var p := Place(b, m, PlayerMarker(xPlayer));
    FullIffNoEmptyCells(p);
    PlaceCount(b, m, PlayerMarker(xPlayer));
  }

  // ---------------------------------------------------------------------
  // next_move: Python's max with a key keeps the first of the largest.
  // ---------------------------------------------------------------------

  /** The position of the first pair with the largest score, as a left-to-right scan keeps it. */
  function FirstMax(s: seq<(int, Index)>): (k: nat)
    requires |s| > 0
    ensures k < |s|
    ensures forall j :: 0 <= j < |s| ==> s[j].0 <= s[k].0
    ensures forall j :: 0 <= j < k ==> s[j].0 < s[k].0
  {
    if |s| == 1 then 0
    else
      var k := FirstMax(s[..|s| - 1]);
      if s[|s| - 1].0 > s[k].0 then |s| - 1 else k
  }

  /**
   * The engine's move (it plays O): an empty cell whose score is at least
   * every other empty cell's score, and the lowest-indexed such cell.
   */
  function NextMove(b: Markers): (m: Index)
    requires !IsFull(b)
    ensures b[m] == Empty
    ensures forall j: Index {:trigger ScoreOf(b, false, j)} :: b[j] == Empty ==> ScoreOf(b, false, j) <= ScoreOf(b, false, m)
    ensures forall j: Index {:trigger ScoreOf(b, false, j)} :: j < m && b[j] == Empty ==> ScoreOf(b, false, j) < ScoreOf(b, false, m)
  {
    var moves := ScoreMoves(b, false);
    FullIffNoEmptyCells(b);
    var k := FirstMax(moves);
    ScoreMovesAt(b, false, k);
    FirstMaxIsFirstBest(b, moves, k);
    moves[k].1
  }

  /**
   * When O can complete a line at once, the chosen move scores at least as
   * much as that immediate win, +1. The lemma does not say that the chosen
   * cell is the winning one: under the sum rule another cell may score more
   * (NextMoveCanPassWin).
   */
  lemma NextMoveAtLeastWin(b: Markers, m: Index)
    requires b[m] == Empty && CheckWin(Place(b, m, O), false)
    ensures ScoreOf(b, false, NextMove(b)) >= 1
  {
    assert !IsFull(b);
    ScoreOfCases(b, false, m);
  }

  /** What FirstMax's position means in terms of cells, given the pairs of ScoreMoves. */
  lemma FirstMaxIsFirstBest(b: Markers, moves: seq<(int, Index)>, k: nat)
    requires moves == ScoreMoves(b, false) && |moves| > 0
    requires k < |moves| && b[moves[k].1] == Empty
    requires forall j :: 0 <= j < |moves| ==> moves[j].0 <= moves[k].0
    requires forall j :: 0 <= j < k ==> moves[j].0 < moves[k].0
    ensures forall j: Index {:trigger ScoreOf(b, false, j)} :: b[j] == Empty ==> ScoreOf(b, false, j) <= ScoreOf(b, false, moves[k].1)
    ensures forall j: Index {:trigger ScoreOf(b, false, j)} :: j < moves[k].1 && b[j] == Empty ==> ScoreOf(b, false, j) < ScoreOf(b, false, moves[k].1)
  {
    ScoreMovesPairs(b, false);
    forall j: Index | b[j] == Empty
      ensures ScoreOf(b, false, j) <= ScoreOf(b, false, moves[k].1)
    {
      var i :| 0 <= i < |moves| && moves[i].1 == j;
    }
    forall j: Index | j < moves[k].1 && b[j] == Empty
      ensures ScoreOf(b, false, j) < ScoreOf(b, false, moves[k].1)
    {
      var i :| 0 <= i < |moves| && moves[i].1 == j;
      AscendingMoves(moves, i, k);
    }
  }

  /** In a sequence of strictly ascending moves, a smaller move comes earlier. */
  lemma AscendingMoves(r: seq<(int, Index)>, i: nat, k: nat)
    requires i < |r| && k < |r|
    requires forall a, c :: 0 <= a < c < |r| ==> r[a].1 < r[c].1
    requires r[i].1 < r[k].1
    ensures i < k
  {
  }

  // ---------------------------------------------------------------------
  // The sum rule can pass over an immediate win: a move that leaves the
  // opponent only losing replies can outscore a completed line.
  // ---------------------------------------------------------------------

  /**
   * On a board whose only empty cells are a and c, X's move at a scores +1
   * when it completes no line and O's forced reply at c completes one.
   */
  lemma XMoveThenOWins(p: Markers, a: Index, c: Index)
    requires a != c && p[a] == Empty && p[c] == Empty
    requires forall j: Index :: j != a && j != c ==> p[j] != Empty
    requires !CheckWin(Place(p, a, X), true)
    requires CheckWin(Place(Place(p, a, X), c, O), false)
    ensures ScoreOf(p, true, a) == 1
  {
    var q := Place(p, a, X);
    var f := Place(q, c, O);
    assert IsFull(f) by {
      forall j: Index ensures f[j] != Empty {
        if j != a && j != c { assert f[j] == p[j]; }
      }
    }
    FullIffNoEmptyCells(f);
    PlaceCount(q, c, O);
    ScoreOfCases(p, true, a);
    FullIffNoEmptyCells(q);
    var r := ScoreMoves(q, false);
    assert |r| == 1;
    ScoreMovesAt(q, false, 0);
    assert r[0].1 == c by {
      assert q[r[0].1] == Empty;
    }
    ScoreOfCases(q, false, c);
    assert r == [r[0]];
  }

  /**
   * O's move at m that completes no line and leaves exactly a and c empty
   * (a < c) scores the sum of X's two replies.
   */
  lemma OMoveTwoReplies(b: Markers, m: Index, a: Index, c: Index)
    requires b[m] == Empty && a < c && m != a && m != c
    requires Place(b, m, O)[a] == Empty && Place(b, m, O)[c] == Empty
    requires forall j: Index :: j != a && j != c ==> Place(b, m, O)[j] != Empty
    requires !CheckWin(Place(b, m, O), false)
    ensures ScoreOf(b, false, m) == ScoreOf(Place(b, m, O), true, a) + ScoreOf(Place(b, m, O), true, c)
  {
    var p := Place(b, m, O);
    var q := Place(p, a, X);
    var f := Place(q, c, O);
    assert IsFull(f) by {
      forall j: Index ensures f[j] != Empty {
        if j != a && j != c { assert f[j] == p[j]; }
      }
    }
    FullIffNoEmptyCells(f);
    PlaceCount(q, c, O);
    PlaceCount(p, a, X);
    FullIffNoEmptyCells(p);
    assert PlayerMarker(false) == O;
    ScoreOfCases(b, false, m);
    var r := ScoreMoves(p, true);
    assert |r| == 2;
    assert ScoreOf(b, false, m) == SumScores(r);
    ScoreMovesAt(p, true, 0);
    ScoreMovesAt(p, true, 1);
    EmptyCellsOrdered(p, 0, 0, 1);
    assert r[0].1 < r[1].1;
    assert r[0].1 == a && r[1].1 == c;
    assert r[0].0 == ScoreOf(p, true, a);
    assert r[1].0 == ScoreOf(p, true, c);
    assert SumScores(r) == r[0].0 + SumScores(r[1..]);
    assert SumScores(r[1..]) == r[1].0 + SumScores(r[2..]);
  }

  /** On [_, X, _, X, X, O, _, O, O], O completes a line at 2 (2-5-8) and at 6 (6-7-8); each scores +1. */
  lemma PassBoardWins(b: Markers)
    requires b == [Empty, X, Empty, X, X, O, Empty, O, O]
    ensures CheckWin(Place(b, 2, O), false) && CheckWin(Place(b, 6, O), false)
    ensures ScoreOf(b, false, 2) == 1 && ScoreOf(b, false, 6) == 1
  {
    CheckWinIsLine(Place(b, 2, O), false);
    assert LineHeld(Place(b, 2, O), Lines[2], O);
    CheckWinIsLine(Place(b, 6, O), false);
    assert LineHeld(Place(b, 6, O), Lines[5], O);
    ScoreOfCases(b, false, 2);
    ScoreOfCases(b, false, 6);
  }

  /** After O at 0, X's move at 2 loses to O at 6. */
  lemma PassBoardReplyAt2(p: Markers)
    requires p == [O, X, Empty, X, X, O, Empty, O, O]
    ensures ScoreOf(p, true, 2) == 1
  {
    var q := Place(p, 2, X);
    assert q == [O, X, X, X, X, O, Empty, O, O];
    NoLineNoWin(q, true);
    CheckWinIsLine(Place(q, 6, O), false);
    assert LineHeld(Place(q, 6, O), Lines[5], O);
    XMoveThenOWins(p, 2, 6);
  }

  /** After O at 0, X's move at 6 loses to O at 2. */
  lemma PassBoardReplyAt6(p: Markers)
    requires p == [O, X, Empty, X, X, O, Empty, O, O]
    ensures ScoreOf(p, true, 6) == 1
  {
    var q := Place(p, 6, X);
    assert q == [O, X, Empty, X, X, O, X, O, O];
    NoLineNoWin(q, true);
    CheckWinIsLine(Place(q, 2, O), false);
    assert LineHeld(Place(q, 2, O), Lines[2], O);
    XMoveThenOWins(p, 6, 2);
  }

  /** O at 0 wins nothing at once, but both of X's replies lose: it scores +2. */
  lemma PassBoardScoreZero(b: Markers)
    requires b == [Empty, X, Empty, X, X, O, Empty, O, O]
    ensures ScoreOf(b, false, 0) == 2
  {
    var p := Place(b, 0, O);
    assert p == [O, X, Empty, X, X, O, Empty, O, O];
    NoLineNoWin(p, false);
    OMoveTwoReplies(b, 0, 2, 6);
    PassBoardReplyAt2(p);
    PassBoardReplyAt6(p);
  }

  /**
   * On [_, X, _, X, X, O, _, O, O] with O to move, O could complete a line
   * at 2 or at 6, yet next_move picks 0: its sum, +2, beats the +1 of a win.
   */
  lemma NextMoveCanPassWin(b: Markers)
    requires b == [Empty, X, Empty, X, X, O, Empty, O, O]
    ensures !IsFull(b)
    ensures CheckWin(Place(b, 2, O), false) && CheckWin(Place(b, 6, O), false)
    ensures NextMove(b) == 0
  {
    assert b[0] == Empty;
    PassBoardWins(b);
    PassBoardScoreZero(b);
    var m := NextMove(b);
    assert ScoreOf(b, false, 0) <= ScoreOf(b, false, m);
  }

  // ---------------------------------------------------------------------
  // Properties of the scores.
  // ---------------------------------------------------------------------

  function Fact(n: nat): (f: nat)
    ensures f >= 1
  {
    if n == 0 then 1 else n * Fact(n - 1)
  }

  lemma {:induction false} SumScoresBound(s: seq<(int, Index)>, bound: int)
    requires bound >= 0
    requires forall k :: 0 <= k < |s| ==> -bound <= s[k].0 <= bound
    ensures -(|s| * bound) <= SumScores(s) <= |s| * bound
  {
    if s != [] {
      SumScoresBound(s[1..], bound);
      assert |s| * bound == bound + (|s| - 1) * bound;
    }
  }

  /**
   * With n empty cells, a move's score lies between -(n-1)! and (n-1)!:
   * the sum never exceeds the number of complete continuations.
   */
  lemma {:induction false} ScoreOfBound(b: Markers, xPlayer: bool, m: Index)
    requires b[m] == Empty
    decreases |EmptyCells(b)|, 0
    ensures |EmptyCells(b)| >= 1
    ensures -(Fact(|EmptyCells(b)| - 1) as int) <= ScoreOf(b, xPlayer, m) <= Fact(|EmptyCells(b)| - 1)
  {
    var n := |EmptyCells(b)|;
    assert m in EmptyCells(b) by { EmptyCellsSpec(b); }
    ScoreOfCases(b, xPlayer, m);
    var p := Place(b, m, PlayerMarker(xPlayer));
    PlaceCount(b, m, PlayerMarker(xPlayer));
    if !CheckWin(p, xPlayer) && !IsFull(p) {
      var next := ScoreMoves(p, !xPlayer);
      assert n >= 2 by { FullIffNoEmptyCells(p); }
      forall k | 0 <= k < |next|
        ensures -(Fact(n - 2) as int) <= next[k].0 <= Fact(n - 2)
      {
        ScoreMovesAt(p, !xPlayer, k);
        ScoreOfBound(p, !xPlayer, next[k].1);
      }
      SumScoresBound(next, Fact(n - 2));
      assert |next| == n - 1;
      assert Fact(n - 1) == (n - 1) * Fact(n - 2);
    }
  }

  lemma {:induction false} SumScoresNegated(s: seq<(int, Index)>, t: seq<(int, Index)>)
    requires |s| == |t|
    requires forall k :: 0 <= k < |s| ==> t[k].0 == -s[k].0
    ensures SumScores(t) == -SumScores(s)
  {
    if s != [] {
      SumScoresNegated(s[1..], t[1..]);
    }
  }

  /**
   * Swapping every X and O and the side to move negates the score of every
   * move: the hard-coded sign rule treats the two players symmetrically.
   */
  lemma {:induction false} ScoreOfMirror(b: Markers, xPlayer: bool, m: Index)
    requires b[m] == Empty
    decreases |EmptyCells(b)|, 0
    ensures Mirror(b)[m] == Empty
    ensures ScoreOf(Mirror(b), !xPlayer, m) == -ScoreOf(b, xPlayer, m)
  {
    var c := PlayerMarker(xPlayer);
    var p := Place(b, m, c);
    assert PlayerMarker(!xPlayer) == Opponent(c);
    MirrorPlace(b, m, c);
    MirrorCheckWin(p, xPlayer);
    PlaceCount(b, m, c);
    if !CheckWin(p, xPlayer) {
      ScoreMovesMirror(p, !xPlayer);
      assert !!xPlayer == xPlayer;
      var next := ScoreMoves(p, !xPlayer);
      var mirrored := ScoreMoves(Mirror(p), xPlayer);
      SumScoresNegated(next, mirrored);
    }
  }

  /** The pairs of the swapped board are the original pairs with negated scores. */
  lemma {:induction false} ScoreMovesMirror(b: Markers, xPlayer: bool)
    decreases |EmptyCells(b)|, 2
    ensures |ScoreMoves(Mirror(b), !xPlayer)| == |ScoreMoves(b, xPlayer)|
    ensures forall k :: 0 <= k < |ScoreMoves(b, xPlayer)| ==>
      ScoreMoves(Mirror(b), !xPlayer)[k] == (-ScoreMoves(b, xPlayer)[k].0, ScoreMoves(b, xPlayer)[k].1)
  {
    assert |ScoreMoves(Mirror(b), !xPlayer)| == |ScoreMoves(b, xPlayer)| by {
      MirrorEmptyCells(b);
    }
    forall k | 0 <= k < |ScoreMoves(b, xPlayer)|
      ensures ScoreMoves(Mirror(b), !xPlayer)[k] == (-ScoreMoves(b, xPlayer)[k].0, ScoreMoves(b, xPlayer)[k].1)
    {
      ScoreMovesMirrorAt(b, xPlayer, k);
    }
  }

  lemma {:induction false} ScoreMovesMirrorAt(b: Markers, xPlayer: bool, k: nat)
    requires k < |ScoreMoves(b, xPlayer)|
    decreases |EmptyCells(b)|, 1
    ensures |ScoreMoves(Mirror(b), !xPlayer)| == |ScoreMoves(b, xPlayer)|
    ensures ScoreMoves(Mirror(b), !xPlayer)[k] == (-ScoreMoves(b, xPlayer)[k].0, ScoreMoves(b, xPlayer)[k].1)
  {
    var r := ScoreMoves(b, xPlayer);
    var r' := ScoreMoves(Mirror(b), !xPlayer);
    assert |r'| == |r| && r'[k].1 == r[k].1 by {
      MirrorEmptyCells(b);
    }
    assert r'[k].0 == -r[k].0 by {
      ScoreMovesAt(b, xPlayer, k);
      ScoreMovesAt(Mirror(b), !xPlayer, k);
      ScoreOfMirror(b, xPlayer, r[k].1);
    }
  }

  /** On the empty board every first move scores for X the negation of what it scores for O. */
  lemma EmptyBoardScoresOpposite(m: Index)
    ensures ScoreOf(EmptyBoard, true, m) == -ScoreOf(EmptyBoard, false, m)
  {
    assert Mirror(EmptyBoard) == EmptyBoard;
    ScoreOfMirror(EmptyBoard, false, m);
  }

  // ---------------------------------------------------------------------
  // The live board and the engine's turn.
  // ---------------------------------------------------------------------

  /** The live board: nine cells updated in place. */
  class Board {
    const markers: array<Cell>

    /** A new game: nine empty cells. */
    constructor ()
      ensures fresh(markers)
      ensures markers.Length == 9 && markers[..] == EmptyBoard
    {
      markers := new Cell[9](_ => Empty);
    }
  }

  /** The automated player, which plays O on the board it was given. */
  class Ai {
    const board: Board

    constructor (board: Board)
      ensures this.board == board
    {
      this.board := board;
    }

    /**
     * Does nothing on a full board; otherwise writes O into the cell
     * NextMove chooses, which was empty, and changes no other cell.
     */
    method MakeTurn()
      requires board.markers.Length == 9
      modifies board.markers
      ensures IsFull(old(board.markers[..])) ==> board.markers[..] == old(board.markers[..])
      ensures !IsFull(old(board.markers[..])) ==>
        var m := NextMove(old(board.markers[..]));
        && old(board.markers[m]) == Empty
        && board.markers[m] == O
        && (forall j :: 0 <= j < 9 && j != m ==> board.markers[j] == old(board.markers[j]))
    {
      if Empty !in board.markers[..] {
        return;
      }
      var move := NextMove(board.markers[..]);
      board.markers[move] := PlayerMarker(false);
    }
  }
}
