// The board of the game: nine cells, the two players' markers, the eight
// winning lines and the line test `check_win` of main.py.

module Rules {

  /** A cell holds nothing (Python's None), the marker "X" or the marker "O". */
  datatype Cell = Empty | X | O

  /** A cell index; the cell in column xx and row yy has index xx + yy * 3. */
  type Index = i: nat | i < 9

  /** A grid coordinate. */
  type Coord = i: nat | i < 3

  /** The board: exactly nine cells. */
  type Markers = s: seq<Cell> | |s| == 9
    witness [Empty, Empty, Empty, Empty, Empty, Empty, Empty, Empty, Empty]

  const EmptyBoard: Markers := [Empty, Empty, Empty, Empty, Empty, Empty, Empty, Empty, Empty]

  /** The marker of a player: the human plays X, the engine plays O. */
  function PlayerMarker(xPlayer: bool): (c: Cell)
    ensures c != Empty
    ensures c == X <==> xPlayer
  {
    if xPlayer then X else O
  }

  // ---------------------------------------------------------------------
  // The winning lines, as a constant table: the reference definition
  // against which the scan of CheckWin is proved.
  // ---------------------------------------------------------------------

  /**
   * The eight lines, with cell index x + y*3: the three lines of fixed x
   * (x, x+3, x+6), the three lines of fixed y (3y, 3y+1, 3y+2), then the
   * two diagonals.
   */
  const Lines: seq<(Index, Index, Index)> :=
    [(0, 3, 6), (1, 4, 7), (2, 5, 8),
     (0, 1, 2), (3, 4, 5), (6, 7, 8),
     (0, 4, 8), (6, 4, 2)]

  predicate LineHeld(b: Markers, line: (Index, Index, Index), c: Cell)
  {
    b[line.0] == c && b[line.1] == c && b[line.2] == c
  }

  /** Some line of the table consists of three `c` markers. */
  predicate HasLine(b: Markers, c: Cell)
  {
    exists k :: 0 <= k < |Lines| && LineHeld(b, Lines[k], c)
  }

  // ---------------------------------------------------------------------
  // check_win as the source writes it: a scan over x, a scan over y, then
  // the two diagonals, each compared with three copies of the marker.
  // ---------------------------------------------------------------------

  /** The source's inner helper `marker(xx, yy)`: the cell at index xx + yy*3. */
  function Marker(b: Markers, xx: Coord, yy: Coord): Cell
  {
    b[xx + yy * 3]
  }

  /**
   * The triple the first scan builds for a fixed x: cells x, x+3, x+6. The
   * source names this triple `row`; it is the line of fixed x, which the
   * table of Lines lists first.
   */
  function Row(b: Markers, x: Coord): seq<Cell>
  {
    [Marker(b, x, 0), Marker(b, x, 1), Marker(b, x, 2)]
  }

  /**
   * The triple the second scan builds for a fixed y: cells 3y, 3y+1, 3y+2.
   * The source names this triple `col`; it is the line of fixed y.
   */
  function Col(b: Markers, y: Coord): seq<Cell>
  {
    [Marker(b, 0, y), Marker(b, 1, y), Marker(b, 2, y)]
  }

  /** The cells (i, i). */
  function Diagonal1(b: Markers): seq<Cell>
  {
    [Marker(b, 0, 0), Marker(b, 1, 1), Marker(b, 2, 2)]
  }

  /** The cells (i, |i - 2|). */
  function Diagonal2(b: Markers): seq<Cell>
  {
    [Marker(b, 0, 2), Marker(b, 1, 1), Marker(b, 2, 0)]
  }

  /** The first scan (over the source's `row` triples), from x onwards; true as soon as one triple matches. */
  function ScanRows(b: Markers, win: seq<Cell>, x: nat): (found: bool)
    requires x <= 3
    decreases 3 - x
    ensures found <==> exists x': Coord :: x <= x' && Row(b, x') == win
  {
    if x == 3 then false
    else if Row(b, x) == win then true
    else ScanRows(b, win, x + 1)
  }

  /** The second scan (over the source's `col` triples), from y onwards. */
  function ScanCols(b: Markers, win: seq<Cell>, y: nat): (found: bool)
    requires y <= 3
    decreases 3 - y
    ensures found <==> exists y': Coord :: y <= y' && Col(b, y') == win
  {
    if y == 3 then false
    else if Col(b, y) == win then true
    else ScanCols(b, win, y + 1)
  }

  /** Whether the player's marker fills a line (the source returns None, not False, otherwise). */
  function CheckWin(markers: Markers, xPlayer: bool): bool
  {
    var win := [PlayerMarker(xPlayer), PlayerMarker(xPlayer), PlayerMarker(xPlayer)];
    ScanRows(markers, win, 0) || ScanCols(markers, win, 0)
      || Diagonal1(markers) == win || Diagonal2(markers) == win
  }

  /** A triple of cells equals three copies of c exactly when each cell is c. */
  lemma TripleIsWin(t: seq<Cell>, u: Cell, v: Cell, w: Cell, c: Cell)
    requires t == [u, v, w]
    ensures t == [c, c, c] <==> u == c && v == c && w == c
  {
  }

  /** HasLine spelled out line by line. */
  lemma HasLineCases(b: Markers, c: Cell)
    ensures HasLine(b, c) <==>
      LineHeld(b, Lines[0], c) || LineHeld(b, Lines[1], c) || LineHeld(b, Lines[2], c) ||
      LineHeld(b, Lines[3], c) || LineHeld(b, Lines[4], c) || LineHeld(b, Lines[5], c) ||
      LineHeld(b, Lines[6], c) || LineHeld(b, Lines[7], c)
  {
    if HasLine(b, c) {
      var k :| 0 <= k < |Lines| && LineHeld(b, Lines[k], c);
      assert k == 0 || k == 1 || k == 2 || k == 3 || k == 4 || k == 5 || k == 6 || k == 7;
    }
  }

  /** check_win is true exactly when one of the eight lines holds the player's marker. */
  lemma CheckWinIsLine(b: Markers, xPlayer: bool)
    ensures CheckWin(b, xPlayer) <==> HasLine(b, PlayerMarker(xPlayer))
  {
    var c := PlayerMarker(xPlayer);
    var win := [c, c, c];
    assert ScanRows(b, win, 0) <==> Row(b, 0) == win || Row(b, 1) == win || Row(b, 2) == win by {
      if ScanRows(b, win, 0) {
        var x: Coord :| Row(b, x) == win;
        assert x == 0 || x == 1 || x == 2;
      }
    }
    assert ScanCols(b, win, 0) <==> Col(b, 0) == win || Col(b, 1) == win || Col(b, 2) == win by {
      if ScanCols(b, win, 0) {
        var y: Coord :| Col(b, y) == win;
        assert y == 0 || y == 1 || y == 2;
      }
    }
    TripleIsWin(Row(b, 0), b[0], b[3], b[6], c);
    TripleIsWin(Row(b, 1), b[1], b[4], b[7], c);
    TripleIsWin(Row(b, 2), b[2], b[5], b[8], c);
    TripleIsWin(Col(b, 0), b[0], b[1], b[2], c);
    TripleIsWin(Col(b, 1), b[3], b[4], b[5], c);
    TripleIsWin(Col(b, 2), b[6], b[7], b[8], c);
    TripleIsWin(Diagonal1(b), b[0], b[4], b[8], c);
    TripleIsWin(Diagonal2(b), b[6], b[4], b[2], c);
    HasLineCases(b, c);
  }

  /** The board whose only markers are `c` on line k. */
  function LineOnly(k: nat, c: Cell): (b: Markers)
    requires k < |Lines|
  {
    seq(9, i requires 0 <= i < 9 =>
      if i == Lines[k].0 || i == Lines[k].1 || i == Lines[k].2 then c else Empty)
  }

  /** A board on which no line of the table holds the player's marker is no win for that player. */
  lemma NoLineNoWin(b: Markers, xPlayer: bool)
    requires forall k :: 0 <= k < |Lines| ==> !LineHeld(b, Lines[k], PlayerMarker(xPlayer))
    ensures !CheckWin(b, xPlayer)
  {
    CheckWinIsLine(b, xPlayer);
  }

  /** A single filled line wins for its owner and for nobody else. */
  lemma {:induction false} LineOnlyWins(k: nat, xPlayer: bool)
    requires k < |Lines|
    ensures CheckWin(LineOnly(k, PlayerMarker(xPlayer)), xPlayer)
    ensures !CheckWin(LineOnly(k, PlayerMarker(xPlayer)), !xPlayer)
  {
    var b := LineOnly(k, PlayerMarker(xPlayer));
    CheckWinIsLine(b, xPlayer);
    CheckWinIsLine(b, !xPlayer);
    assert LineHeld(b, Lines[k], PlayerMarker(xPlayer));
  }

  // ---------------------------------------------------------------------
  // Empty cells, full boards and hypothetical moves.
  // ---------------------------------------------------------------------

  /**
   * The indices of the empty cells from i onwards, ascending (the source's
   * `enumerate` filtered on `m is None`).
   */
  function EmptyCellsFrom(b: Markers, i: nat): (e: seq<Index>)
    requires i <= 9
    decreases 9 - i
    ensures |e| <= 9 - i
  {
    if i == 9 then []
    else if b[i] == Empty then [i as Index] + EmptyCellsFrom(b, i + 1)
    else EmptyCellsFrom(b, i + 1)
  }

  /** Every empty cell, in ascending order. */
  function EmptyCells(b: Markers): seq<Index>
  {
    EmptyCellsFrom(b, 0)
  }

  /** Every listed index from i onwards is at least i and holds an empty cell. */
  lemma {:induction false} EmptyCellAt(b: Markers, i: nat, k: nat)
    requires i <= 9 && k < |EmptyCellsFrom(b, i)|
    decreases 9 - i
    ensures i <= EmptyCellsFrom(b, i)[k] && b[EmptyCellsFrom(b, i)[k]] == Empty
  {
    var rest := EmptyCellsFrom(b, i + 1);
    if b[i] == Empty {
      assert EmptyCellsFrom(b, i) == [i as Index] + rest;
      if k > 0 {
        EmptyCellAt(b, i + 1, k - 1);
      }
    } else {
      assert EmptyCellsFrom(b, i) == rest;
      EmptyCellAt(b, i + 1, k);
    }
  }

  /** The listed indices strictly ascend. */
  lemma {:induction false} EmptyCellsOrdered(b: Markers, i: nat, k: nat, l: nat)
    requires i <= 9 && k < l < |EmptyCellsFrom(b, i)|
    decreases 9 - i
    ensures EmptyCellsFrom(b, i)[k] < EmptyCellsFrom(b, i)[l]
  {
    var e := EmptyCellsFrom(b, i);
    var rest := EmptyCellsFrom(b, i + 1);
    if b[i] == Empty {
      assert e == [i as Index] + rest;
      assert e[l] == rest[l - 1];
      if k == 0 {
        assert e[0] == i;
        EmptyCellAt(b, i + 1, l - 1);
      } else {
        assert e[k] == rest[k - 1];
        EmptyCellsOrdered(b, i + 1, k - 1, l - 1);
      }
    } else {
      assert e == rest;
      EmptyCellsOrdered(b, i + 1, k, l);
    }
  }

  /** Every empty cell from i onwards is listed. */
  lemma {:induction false} EmptyCellListed(b: Markers, i: nat, j: Index)
    requires i <= j && b[j] == Empty
    decreases 9 - i
    ensures j in EmptyCellsFrom(b, i)
  {
    var rest := EmptyCellsFrom(b, i + 1);
    if b[i] == Empty {
      assert EmptyCellsFrom(b, i) == [i as Index] + rest;
      if i < j {
        EmptyCellListed(b, i + 1, j);
      }
    } else {
      assert EmptyCellsFrom(b, i) == rest;
      EmptyCellListed(b, i + 1, j);
    }
  }

  /**
   * The available moves: each holds an empty cell, they strictly ascend,
   * and every empty cell is among them.
   */
  lemma EmptyCellsSpec(b: Markers)
    ensures forall k :: 0 <= k < |EmptyCells(b)| ==> b[EmptyCells(b)[k]] == Empty
    ensures forall k, l :: 0 <= k < l < |EmptyCells(b)| ==> EmptyCells(b)[k] < EmptyCells(b)[l]
    ensures forall j: Index :: b[j] == Empty ==> j in EmptyCells(b)
  {
    forall k | 0 <= k < |EmptyCells(b)|
      ensures b[EmptyCells(b)[k]] == Empty
    {
      EmptyCellAt(b, 0, k);
    }
    forall k, l | 0 <= k < l < |EmptyCells(b)|
      ensures EmptyCells(b)[k] < EmptyCells(b)[l]
    {
      EmptyCellsOrdered(b, 0, k, l);
    }
    forall j: Index | b[j] == Empty
      ensures j in EmptyCells(b)
    {
      EmptyCellListed(b, 0, j);
    }
  }

  /** No cell is empty (the source's `None not in markers`). */
  predicate IsFull(b: Markers)
  {
    Empty !in b
  }

  lemma FullIffNoEmptyCells(b: Markers)
    ensures IsFull(b) <==> EmptyCells(b) == []
  {
    EmptyCellsSpec(b);
    if !IsFull(b) {
      var j :| 0 <= j < 9 && b[j] == Empty;
      assert j in EmptyCells(b);
    }
  }

  /** The copy of b with c written at m (the source's `copy` followed by one item assignment). */
  function Place(b: Markers, m: Index, c: Cell): Markers
  {
    b[m := c]
  }

  lemma {:induction false} PlaceCountFrom(b: Markers, m: Index, c: Cell, i: nat)
    requires i <= 9 && b[m] == Empty && c != Empty
    decreases 9 - i
    ensures |EmptyCellsFrom(Place(b, m, c), i)| == |EmptyCellsFrom(b, i)| - if i <= m then 1 else 0
  {
    if i < 9 {
      PlaceCountFrom(b, m, c, i + 1);
    }
  }

  /** A hypothetical move on an empty cell leaves one empty cell fewer: the search terminates. */
  lemma PlaceCount(b: Markers, m: Index, c: Cell)
    requires b[m] == Empty && c != Empty
    ensures |EmptyCells(Place(b, m, c))| == |EmptyCells(b)| - 1
  {
    PlaceCountFrom(b, m, c, 0);
  }

  /**
   * Filling an empty cell changes only that cell and removes exactly its
   * index from the available moves.
   */
  lemma PlaceShrinks(b: Markers, m: Index, c: Cell)
    requires b[m] == Empty && c != Empty
    ensures Place(b, m, c)[m] == c
    ensures forall j: Index :: j != m ==> Place(b, m, c)[j] == b[j]
    ensures forall j: Index :: j in EmptyCells(Place(b, m, c)) <==> j in EmptyCells(b) && j != m
    ensures |EmptyCells(Place(b, m, c))| == |EmptyCells(b)| - 1
  {
    PlaceCount(b, m, c);
    EmptyCellsSpec(b);
    EmptyCellsSpec(Place(b, m, c));
  }

  // ---------------------------------------------------------------------
  // Swapping the two players' markers.
  // ---------------------------------------------------------------------

  function Opponent(c: Cell): (d: Cell)
    ensures d == Empty <==> c == Empty
    ensures c != Empty ==> d != c
  {
    match c
    case Empty => Empty
    case X => O
    case O => X
  }

  /** The board with every X turned into O and every O into X. */
  function Mirror(b: Markers): (r: Markers)
  {
    seq(9, i requires 0 <= i < 9 => Opponent(b[i]))
  }

  /** Swapping the markers swaps the winner. */
  lemma MirrorCheckWin(b: Markers, xPlayer: bool)
    ensures CheckWin(Mirror(b), !xPlayer) == CheckWin(b, xPlayer)
  {
    var c := PlayerMarker(xPlayer);
    assert PlayerMarker(!xPlayer) == Opponent(c);
    CheckWinIsLine(b, xPlayer);
    CheckWinIsLine(Mirror(b), !xPlayer);
    forall k | 0 <= k < |Lines|
      ensures LineHeld(Mirror(b), Lines[k], Opponent(c)) <==> LineHeld(b, Lines[k], c)
    {
    }
  }

  lemma {:induction false} MirrorEmptyCellsFrom(b: Markers, i: nat)
    requires i <= 9
    decreases 9 - i
    ensures EmptyCellsFrom(Mirror(b), i) == EmptyCellsFrom(b, i)
  {
    if i < 9 {
      MirrorEmptyCellsFrom(b, i + 1);
    }
  }

  /** Swapping the markers keeps the empty cells. */
  lemma MirrorEmptyCells(b: Markers)
    ensures EmptyCells(Mirror(b)) == EmptyCells(b)
  {
    MirrorEmptyCellsFrom(b, 0);
  }

  /** Placing the swapped marker on the swapped board is swapping the placed board. */
  lemma MirrorPlace(b: Markers, m: Index, c: Cell)
    ensures Place(Mirror(b), m, Opponent(c)) == Mirror(Place(b, m, c))
  {
  }
}
