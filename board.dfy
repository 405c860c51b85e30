/**
 The tic-tac-toe board: its cells, the fixed table of the eight winning lines
 and the evaluation of a position as won, tied or still in progress.
 A board is a sequence of nine cells in row-major order (indices 0-2 are the
 top row, 3-5 the middle row, 6-8 the bottom row).
 */
module Board {

  datatype Option<T> = None | Some(value: T)

  /** The two marks. X always moves first. */
  datatype Player = X | O

  /** A cell is either empty (the empty string in script.js) or holds a mark. */
  datatype Cell = Empty | Mark(player: Player)

  /** A position on the board. */
  type Index = i: nat | i < 9

  /** Three positions that win when they hold the same mark. */
  datatype Line = Line(a: Index, b: Index, c: Index)

  /** The result of evaluating a board. */
  datatype Outcome = InProgress | Win(winner: Player, line: Line) | Tie

  /** The three rows, the three columns and the two diagonals, in the order
      in which they are checked. */
  const WinningConditions: seq<Line> := [
    Line(0, 1, 2), Line(3, 4, 5), Line(6, 7, 8),
    Line(0, 3, 6), Line(1, 4, 7), Line(2, 5, 8),
    Line(0, 4, 8), Line(2, 4, 6)
  ]

  /** The player who moves after `p`. */
  function Other(p: Player): (q: Player)
    ensures q != p
  {
    if p == X then O else X
  }

  /** Line number `k` of the table is won: its three cells are non-empty and equal. */
  predicate LineWon(b: seq<Cell>, k: nat)
    requires |b| == 9 && k < |WinningConditions|
  {
    var l := WinningConditions[k];
    b[l.a] != Empty && b[l.a] == b[l.b] && b[l.b] == b[l.c]
  }

  /** Line `k` is won and no line before it in the table is. */
  predicate FirstWon(b: seq<Cell>, k: nat)
    requires |b| == 9
  {
    k < |WinningConditions| && LineWon(b, k) &&
    forall j: nat :: j < k ==> !LineWon(b, j)
  }

  /** No line of the table is won. */
  predicate NoLine(b: seq<Cell>)
    requires |b| == 9
  {
    forall k: nat :: k < |WinningConditions| ==> !LineWon(b, k)
  }

  /** Some line of the table is won with the mark of `p`. */
  predicate HasLine(b: seq<Cell>, p: Player)
    requires |b| == 9
  {
    exists k: nat :: k < |WinningConditions| && LineWon(b, k) && b[WinningConditions[k].a] == Mark(p)
  }

  /** The first won line at or after position `from` of the table, if any. */
  function FirstWonLine(b: seq<Cell>, from: nat): (r: Option<nat>)
    requires |b| == 9 && from <= |WinningConditions|
    ensures r.Some? ==> from <= r.value < |WinningConditions| && LineWon(b, r.value)
    ensures r.Some? ==> forall j: nat :: from <= j < r.value ==> !LineWon(b, j)
    ensures r.None? <==> forall j: nat :: from <= j < |WinningConditions| ==> !LineWon(b, j)
    decreases |WinningConditions| - from
  {
    if from == |WinningConditions| then None
    else if LineWon(b, from) then Some(from)
    else FirstWonLine(b, from + 1)
  }

  /** The loop over the table that stops at the first won line. */
  method FindWinningLine(b: seq<Cell>) returns (won: Option<nat>)
    requires |b| == 9
    ensures won == FirstWonLine(b, 0)
  {
    won := None;
    var i := 0;
    while i < |WinningConditions|
      invariant 0 <= i <= |WinningConditions|
      invariant FirstWonLine(b, i) == FirstWonLine(b, 0)
    {
      var l := WinningConditions[i];
      if b[l.a] != Empty && b[l.a] == b[l.b] && b[l.b] == b[l.c] {
        won := Some(i);
        break;
      }
      i := i + 1;
    }
  }

  /** The outcome of a board, evaluated in the order script.js uses: the won
      lines first, then the search for an empty cell. */
  function Evaluate(b: seq<Cell>): Outcome
    requires |b| == 9
  {
    match FirstWonLine(b, 0)
    case Some(k) =>
      var l := WinningConditions[k];
      Win(b[l.a].player, l)
    case None =>
      if Empty in b then InProgress else Tie
  }

  /** A won line decides the game, reported as the first one in table order
      together with the mark on it; a board with no won line and no empty
      cell is a tie; anything else is still in progress. */
  lemma EvaluateOutcome(b: seq<Cell>)
    requires |b| == 9
    ensures Evaluate(b).Win? <==> !NoLine(b)
    ensures Evaluate(b).Win? ==> exists k: nat :: FirstWon(b, k) && Evaluate(b).line == WinningConditions[k]
    ensures Evaluate(b).Win? ==>
              b[Evaluate(b).line.a] == b[Evaluate(b).line.b] == b[Evaluate(b).line.c] == Mark(Evaluate(b).winner)
    ensures Evaluate(b) == Tie <==> NoLine(b) && Empty !in b
    ensures Evaluate(b) == InProgress <==> NoLine(b) && Empty in b
  {
  }

  /** A board with a line of only one player's mark is won by that player. */
  lemma WinnerOfOneSidedBoard(b: seq<Cell>, p: Player)
    requires |b| == 9 && HasLine(b, p) && !HasLine(b, Other(p))
    ensures Evaluate(b).Win? && Evaluate(b).winner == p
  {
    var k: nat :| k < |WinningConditions| && LineWon(b, k) && b[WinningConditions[k].a] == Mark(p);
    var first := FirstWonLine(b, 0);
    assert first.Some?;
    assert LineWon(b, first.value);
    assert b[WinningConditions[first.value].a] != Mark(Other(p));
  }

  /** Placing a mark in an empty cell of a board with no won line can only
      complete lines that carry that mark. */
  lemma NewLineCarriesMover(b: seq<Cell>, i: Index, p: Player)
    requires |b| == 9 && NoLine(b) && b[i] == Empty
    ensures forall k: nat :: k < |WinningConditions| && LineWon(b[i := Mark(p)], k) ==>
              b[i := Mark(p)][WinningConditions[k].a] == Mark(p)
    ensures !HasLine(b[i := Mark(p)], Other(p))
  {
    var b' := b[i := Mark(p)];
    forall k: nat | k < |WinningConditions| && LineWon(b', k)
      ensures b'[WinningConditions[k].a] == Mark(p)
    {
      assert !LineWon(b, k);
    }
  }
}
