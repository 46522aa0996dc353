/**
  The board the rules engine reports (`game.board()` in scripts/chess.js) and its
  static material score, the reference definition that `EvaluateBoard` is proved
  against.
 */
module Evaluation {

  datatype Color = White | Black

  /** A piece as the rules engine reports it; `kind` is its one-letter type ('p', 'n', ...). */
  datatype Piece = Piece(color: Color, kind: char)

  datatype Square = Empty | Occupied(piece: Piece)

  ghost predicate IsGrid(g: seq<seq<Square>>) {
    |g| == 8 && forall r :: 0 <= r < 8 ==> |g[r]| == 8
  }

  /** An 8x8 board, rank 8 first, file a first within a rank. */
  type Grid = g: seq<seq<Square>> | IsGrid(g)
    witness seq(8, _ => seq(8, _ => Empty))

  /** The value table of `evaluateBoard`; a type missing from the table counts 0. */
  function PieceValue(kind: char): nat {
    match kind
    case 'p' => 100
    case 'n' => 320
    case 'b' => 330
    case 'r' => 500
    case 'q' => 900
    case 'k' => 20000
    case _ => 0
  }

  /** A white piece adds its value, a black piece subtracts it, an empty square adds nothing. */
  function SquareScore(s: Square): int {
    match s
    case Empty => 0
    case Occupied(p) =>
      var v: int := PieceValue(p.kind);
      if p.color == White then v else -v
  }

  function RowScore(row: seq<Square>): int {
    if |row| == 0 then 0 else RowScore(row[..|row| - 1]) + SquareScore(row[|row| - 1])
  }

  function RowsScore(rows: seq<seq<Square>>): int {
    if |rows| == 0 then 0 else RowsScore(rows[..|rows| - 1]) + RowScore(rows[|rows| - 1])
  }

  /** The material balance of a board: the sum of the signed scores of all its squares. */
  function Material(g: Grid): int {
    RowsScore(g)
  }

  // ---- One square at a time ----

  lemma {:induction false} RowScoreUpdate(row: seq<Square>, c: int, sq: Square)
    requires 0 <= c < |row|
    ensures RowScore(row[c := sq]) == RowScore(row) - SquareScore(row[c]) + SquareScore(sq)
  {
    var n := |row| - 1;
    if c < n {
      assert row[c := sq][..n] == row[..n][c := sq];
      RowScoreUpdate(row[..n], c, sq);
    } else {
      assert row[c := sq][..n] == row[..n];
    }
  }

  lemma {:induction false} RowsScoreUpdate(rows: seq<seq<Square>>, r: int, c: int, sq: Square)
    requires 0 <= r < |rows| && 0 <= c < |rows[r]|
    ensures RowsScore(rows[r := rows[r][c := sq]]) == RowsScore(rows) - SquareScore(rows[r][c]) + SquareScore(sq)
  {
    var n := |rows| - 1;
    if r < n {
      assert rows[r := rows[r][c := sq]][..n] == rows[..n][r := rows[r][c := sq]];
      RowsScoreUpdate(rows[..n], r, c, sq);
    } else {
      assert rows[r := rows[r][c := sq]][..n] == rows[..n];
      RowScoreUpdate(rows[r], c, sq);
    }
  }

  /**
    Every square contributes on its own: replacing the contents of one square
    changes the evaluation by exactly the difference of the two squares' scores.
   */
  lemma MaterialUpdate(g: Grid, r: int, c: int, sq: Square)
    requires 0 <= r < 8 && 0 <= c < 8
    ensures Material(g[r := g[r][c := sq]]) == Material(g) - SquareScore(g[r][c]) + SquareScore(sq)
  {
    RowsScoreUpdate(g, r, c, sq);
  }

  // ---- Colour swap ----

  function SwapColor(c: Color): Color {
    if c == White then Black else White
  }

  function SwapSquare(s: Square): Square {
    match s
    case Empty => Empty
    case Occupied(p) => Occupied(Piece(SwapColor(p.color), p.kind))
  }

  function SwapRow(row: seq<Square>): (r: seq<Square>)
    ensures |r| == |row|
  {
    seq(|row|, i requires 0 <= i < |row| => SwapSquare(row[i]))
  }

  /** The same board with the colour of every piece swapped. */
  function SwapColors(g: Grid): (h: Grid) {
    seq(8, r requires 0 <= r < 8 => SwapRow(g[r]))
  }

  lemma {:induction false} RowScoreSwap(row: seq<Square>)
    ensures RowScore(SwapRow(row)) == -RowScore(row)
  {
    if |row| > 0 {
      var n := |row| - 1;
      assert SwapRow(row)[..n] == SwapRow(row[..n]);
      RowScoreSwap(row[..n]);
    }
  }

  lemma {:induction false} RowsScoreSwap(rows: seq<seq<Square>>)
    ensures RowsScore(seq(|rows|, r requires 0 <= r < |rows| => SwapRow(rows[r]))) == -RowsScore(rows)
  {
    var swapped := seq(|rows|, r requires 0 <= r < |rows| => SwapRow(rows[r]));
    if |rows| > 0 {
      var n := |rows| - 1;
      assert swapped[..n] == seq(n, r requires 0 <= r < n => SwapRow(rows[..n][r]));
      RowsScoreSwap(rows[..n]);
      RowScoreSwap(rows[n]);
    }
  }

  /** Zero sum: swapping the colour of every piece negates the evaluation. */
  lemma MaterialSwap(g: Grid)
    ensures Material(SwapColors(g)) == -Material(g)
  {
    RowsScoreSwap(g);
    assert SwapColors(g) == seq(|g|, r requires 0 <= r < |g| => SwapRow(g[r]));
  }

  // ---- Empty board and bounds ----

  lemma {:induction false} RowScoreEmpty(row: seq<Square>)
    requires forall i :: 0 <= i < |row| ==> row[i] == Empty
    ensures RowScore(row) == 0
  {
    if |row| > 0 {
      RowScoreEmpty(row[..|row| - 1]);
    }
  }

  lemma {:induction false} RowsScoreEmpty(rows: seq<seq<Square>>)
    requires forall r, i :: 0 <= r < |rows| && 0 <= i < |rows[r]| ==> rows[r][i] == Empty
    ensures RowsScore(rows) == 0
  {
    if |rows| > 0 {
      var n := |rows| - 1;
      RowsScoreEmpty(rows[..n]);
      RowScoreEmpty(rows[n]);
    }
  }

  /** A board without pieces evaluates to 0. */
  lemma MaterialEmpty(g: Grid)
    requires forall r, c :: 0 <= r < 8 && 0 <= c < 8 ==> g[r][c] == Empty
    ensures Material(g) == 0
  {
    RowsScoreEmpty(g);
  }

  lemma {:induction false} RowScoreBound(row: seq<Square>)
    ensures -20000 * |row| <= RowScore(row) <= 20000 * |row|
  {
    if |row| > 0 {
      RowScoreBound(row[..|row| - 1]);
    }
  }

  lemma {:induction false} RowsScoreBound(rows: seq<seq<Square>>)
    requires forall r :: 0 <= r < |rows| ==> |rows[r]| == 8
    ensures -160000 * |rows| <= RowsScore(rows) <= 160000 * |rows|
  {
    if |rows| > 0 {
      var n := |rows| - 1;
      RowsScoreBound(rows[..n]);
      RowScoreBound(rows[n]);
    }
  }

  /** Scores are finite and bounded by 64 kings' worth of material either way. */
  lemma MaterialBound(g: Grid)
    ensures -1280000 <= Material(g) <= 1280000
  {
    RowsScoreBound(g);
  }
}
