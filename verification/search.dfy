/**
  The computer opponent of scripts/chess.js: the static evaluator, the
  depth-bounded minimax search with fail-soft alpha-beta pruning, the root driver
  that keeps the first strictly best move, and the policy choice between a random
  move and a fixed-depth search. The search works on the shared game object by
  playing and taking back moves.
 */
module Search {
  import opened Wrappers
  import opened ExtendedInt
  import opened Evaluation
  import opened RulesEngine

  // ---- Specification: the unpruned minimax value ----

  /**
    The minimax value of position `p` searched `depth` plies deep: the material
    score at depth 0, otherwise the maximum (maximizing node) or minimum
    (minimizing node) of the children's values, which is -Infinity or +Infinity
    when there is no legal move.
   */
  ghost function MinimaxValue(rules: Rules, p: Position, depth: nat, isMax: bool): ExtInt
    decreases depth, 1
  {
    if depth == 0 then Fin(Material(rules.board(p)))
    else if isMax then MaxOf(ChildValues(rules, p, depth, isMax))
    else MinOf(ChildValues(rules, p, depth, isMax))
  }

  /**
    The values of the children of `p`, in move order, for a node searched `depth`
    plies deep whose polarity is `isMax`: each child is searched one ply less
    with the other polarity.
   */
  ghost function ChildValues(rules: Rules, p: Position, depth: nat, isMax: bool): (vs: seq<ExtInt>)
    requires depth >= 1
    ensures |vs| == |rules.moves(p)|
    decreases depth, 0
  {
    var ms := rules.moves(p);
    seq(|ms|, i requires 0 <= i < |ms| => MinimaxValue(rules, rules.apply(p, ms[i]), depth - 1, !isMax))
  }

  /** Entry `i` of the child values is the value of the position move `i` leads to. */
  lemma ChildValueAt(rules: Rules, p: Position, depth: nat, isMax: bool, i: nat)
    requires depth >= 1 && i < |rules.moves(p)|
    ensures ChildValues(rules, p, depth, isMax)[i] == MinimaxValue(rules, rules.apply(p, rules.moves(p)[i]), depth - 1, !isMax)
  {
  }

  /** A depth-limited node without legal moves is worth -Infinity to the maximizer and +Infinity to the minimizer. */
  lemma NoMovesValue(rules: Rules, p: Position, depth: nat, isMax: bool)
    requires depth > 0 && rules.moves(p) == []
    ensures MinimaxValue(rules, p, depth, isMax) == if isMax then NegInf else PosInf
  {
  }

  // ---- Alpha-beta bookkeeping ----

  /**
    The loop invariant of a maximizing node: `v` is the running `maxEval`, `m` the
    true maximum of the children searched so far.
   */
  ghost predicate MaxInv(v: ExtInt, m: ExtInt, alpha: ExtInt) {
    (Lt(alpha, v) ==> v == m) && (Le(v, alpha) ==> Le(m, v))
  }

  /** The loop invariant of a minimizing node, mirrored. */
  ghost predicate MinInv(v: ExtInt, m: ExtInt, beta: ExtInt) {
    (Lt(v, beta) ==> v == m) && (Le(beta, v) ==> Le(v, m))
  }

  /**
    One child of a maximizing node. `v` and `a` are the running `maxEval` and
    `alpha`, `m` the true maximum of the children before this one, `e` this
    child's fail-soft score for its true value `t`, and `total` the node's true
    value. On a cutoff (`beta <= alpha` after the update) the node's score is
    already fail-soft for `total`; otherwise the invariant carries over.
   */
  lemma MaxChild(alpha: ExtInt, beta: ExtInt, v: ExtInt, a: ExtInt, m: ExtInt, e: ExtInt, t: ExtInt, total: ExtInt)
    requires a == Max(alpha, v) && Lt(a, beta) && MaxInv(v, m, alpha)
    requires FailSoft(e, t, a, beta) && Le(t, total)
    ensures Le(beta, Max(a, e)) ==> FailSoft(Max(v, e), total, alpha, beta)
    ensures !Le(beta, Max(a, e)) ==>
      Max(a, e) == Max(alpha, Max(v, e)) && Lt(Max(a, e), beta) && MaxInv(Max(v, e), Max(m, t), alpha)
  {
    if Le(beta, Max(a, e)) {
      LeTrans(Max(v, e), t, total);
    }
  }

  /** A maximizing node that searched all its children without a cutoff. */
  lemma MaxDone(alpha: ExtInt, beta: ExtInt, v: ExtInt, a: ExtInt, m: ExtInt)
    requires a == Max(alpha, v) && Lt(a, beta) && MaxInv(v, m, alpha)
    ensures FailSoft(v, m, alpha, beta)
  {
  }

  /** One child of a minimizing node, mirrored: `b` is the running `beta`. */
  lemma MinChild(alpha: ExtInt, beta: ExtInt, v: ExtInt, b: ExtInt, m: ExtInt, e: ExtInt, t: ExtInt, total: ExtInt)
    requires b == Min(beta, v) && Lt(alpha, b) && MinInv(v, m, beta)
    requires FailSoft(e, t, alpha, b) && Le(total, t)
    ensures Le(Min(b, e), alpha) ==> FailSoft(Min(v, e), total, alpha, beta)
    ensures !Le(Min(b, e), alpha) ==>
      Min(b, e) == Min(beta, Min(v, e)) && Lt(alpha, Min(b, e)) && MinInv(Min(v, e), Min(m, t), beta)
  {
    if Le(Min(b, e), alpha) {
      LeTrans(total, t, Min(v, e));
    }
  }

  /** A minimizing node that searched all its children without a cutoff. */
  lemma MinDone(alpha: ExtInt, beta: ExtInt, v: ExtInt, b: ExtInt, m: ExtInt)
    requires b == Min(beta, v) && Lt(alpha, b) && MinInv(v, m, beta)
    ensures FailSoft(v, m, alpha, beta)
  {
  }

  // ---- The search ----

  /** `evaluateBoard`: the material balance of the current position, summed square by square. */
  method EvaluateBoard(game: Game) returns (total: int)
    ensures total == Material(game.Board())
  {
    var b := game.Board();
    total := 0;
    var r := 0;
    while r < 8
      invariant 0 <= r <= 8
      invariant total == RowsScore(b[..r])
    {
      var c := 0;
      while c < 8
        invariant 0 <= c <= 8
        invariant total == RowsScore(b[..r]) + RowScore(b[r][..c])
      {
        var square := b[r][c];
        if square.Occupied? {
          var val: int := PieceValue(square.piece.kind);
          total := total + if square.piece.color == White then val else -val;
        }
        assert b[r][..c + 1][..c] == b[r][..c];
        c := c + 1;
      }
      assert b[r][..8] == b[r];
      assert b[..r + 1][..r] == b[..r];
      r := r + 1;
    }
    assert b[..8] == b;
  }

  /**
    `minimax`: the fail-soft alpha-beta search. Every move it plays is taken back
    before the next one is tried, on the cutoff path too, so the game is left as
    it was found; the score it returns is fail-soft for the unpruned minimax value,
    and exact when the window is the full (-Infinity, +Infinity). The two branches
    of the source's `if (isMax)` are the methods MaxNode and MinNode.
   */
  method Minimax(game: Game, depth: nat, alpha: ExtInt, beta: ExtInt, isMax: bool) returns (v: ExtInt)
    requires Lt(alpha, beta)
    modifies game
    ensures game.pos == old(game.pos) && game.history == old(game.history)
    ensures FailSoft(v, MinimaxValue(game.rules, game.pos, depth, isMax), alpha, beta)
    ensures alpha == NegInf && beta == PosInf ==> v == MinimaxValue(game.rules, game.pos, depth, isMax)
    ensures depth == 0 ==> v == Fin(Material(game.Board()))
    ensures depth > 0 && game.Moves() == [] ==> v == if isMax then NegInf else PosInf
    decreases depth, 2
  {
    if depth == 0 {
      var score := EvaluateBoard(game);
      return Fin(score);
    }
    if isMax {
      v := MaxNode(game, depth, alpha, beta);
    } else {
      v := MinNode(game, depth, alpha, beta);
    }
    if alpha == NegInf && beta == PosInf {
      FullWindowExact(v, MinimaxValue(game.rules, game.pos, depth, isMax));
    }
  }

  /**
    One step of a node's loop: plays the node's `i`-th move, searches the
    position it leads to one ply less deep, with the other polarity and the
    window (alpha, beta), and takes the move back. The score is fail-soft for
    that child's entry in ChildValues.
   */
  method SearchChild(game: Game, depth: nat, isMax: bool, i: nat, alpha: ExtInt, beta: ExtInt) returns (score: ExtInt)
    requires depth >= 1 && i < |game.Moves()| && Lt(alpha, beta)
    modifies game
    ensures game.pos == old(game.pos) && game.history == old(game.history)
    ensures FailSoft(score, ChildValues(game.rules, game.pos, depth, isMax)[i], alpha, beta)
    decreases depth, 0
  {
    ChildValueAt(game.rules, game.pos, depth, isMax, i);
    var _ := game.Move(game.Moves()[i]);
    score := Minimax(game, depth - 1, alpha, beta, !isMax);
    var _ := game.Undo();
  }

  /**
    The maximizing branch of `minimax`: tries the moves in order, raising `alpha`
    to the best score so far, and stops as soon as `beta <= alpha`.
   */
  method MaxNode(game: Game, depth: nat, alpha: ExtInt, beta: ExtInt) returns (v: ExtInt)
    requires depth > 0 && Lt(alpha, beta)
    modifies game
    ensures game.pos == old(game.pos) && game.history == old(game.history)
    ensures FailSoft(v, MinimaxValue(game.rules, game.pos, depth, true), alpha, beta)
    ensures game.Moves() == [] ==> v == NegInf
    decreases depth, 1
  {
    var moves := game.Moves();
    ghost var p, h := game.pos, game.history;
    ghost var values := ChildValues(game.rules, p, depth, true);
    var maxEval := NegInf;
    var a := alpha;
    var i := 0;
    while i < |moves|
      invariant 0 <= i <= |moves|
      invariant game.pos == p && game.history == h
      invariant a == Max(alpha, maxEval) && Lt(a, beta)
      invariant |moves| == 0 ==> maxEval == NegInf
      invariant MaxInv(maxEval, MaxOf(values[..i]), alpha)
    {
      var score := SearchChild(game, depth, true, i, a, beta);
      assert values[..i + 1][..i] == values[..i];
      MaxChild(alpha, beta, maxEval, a, MaxOf(values[..i]), score, values[i], MaxOf(values));
      maxEval := Max(maxEval, score);
      a := Max(a, score);
      if Le(beta, a) {
        break;
      }
      i := i + 1;
    }
    if i == |moves| {
      assert values[..i] == values;
      MaxDone(alpha, beta, maxEval, a, MaxOf(values));
    }
    v := maxEval;
  }

  /**
    The minimizing branch of `minimax`: tries the moves in order, lowering `beta`
    to the best score so far, and stops as soon as `beta <= alpha`.
   */
  method MinNode(game: Game, depth: nat, alpha: ExtInt, beta: ExtInt) returns (v: ExtInt)
    requires depth > 0 && Lt(alpha, beta)
    modifies game
    ensures game.pos == old(game.pos) && game.history == old(game.history)
    ensures FailSoft(v, MinimaxValue(game.rules, game.pos, depth, false), alpha, beta)
    ensures game.Moves() == [] ==> v == PosInf
    decreases depth, 1
  {
    var moves := game.Moves();
    ghost var p, h := game.pos, game.history;
    ghost var values := ChildValues(game.rules, p, depth, false);
    var minEval := PosInf;
    var b := beta;
    var i := 0;
    while i < |moves|
      invariant 0 <= i <= |moves|
      invariant game.pos == p && game.history == h
      invariant b == Min(beta, minEval) && Lt(alpha, b)
      invariant |moves| == 0 ==> minEval == PosInf
      invariant MinInv(minEval, MinOf(values[..i]), beta)
    {
      var score := SearchChild(game, depth, false, i, alpha, b);
      assert values[..i + 1][..i] == values[..i];
      MinChild(alpha, beta, minEval, b, MinOf(values[..i]), score, values[i], MinOf(values));
      minEval := Min(minEval, score);
      b := Min(b, score);
      if Le(b, alpha) {
        break;
      }
      i := i + 1;
    }
    if i == |moves| {
      assert values[..i] == values;
      MinDone(alpha, beta, minEval, b, MinOf(values));
    }
    v := minEval;
  }

  // ---- The root and the policy ----

  /**
    The index `minimaxRoot` settles on among the root values: the first one that is
    strictly greater than every value before it, starting from -Infinity. It is
    None exactly when every value is -Infinity; otherwise it is the earliest
    position of the maximum.
   */
  function FirstBest(values: seq<ExtInt>): (r: Option<nat>)
    ensures r == None <==> forall k :: 0 <= k < |values| ==> values[k] == NegInf
    ensures r.Some? ==> r.value < |values| && values[r.value] == MaxOf(values)
    ensures r.Some? ==> forall k :: 0 <= k < r.value ==> Lt(values[k], values[r.value])
  {
    if |values| == 0 then None
    else
      var n := |values| - 1;
      if Lt(MaxOf(values[..n]), values[n]) then Some(n) else FirstBest(values[..n])
  }

  /** Extending the root values by one: FirstBest and the running maximum advance as the root loop does. */
  lemma FirstBestStep(values: seq<ExtInt>, i: nat)
    requires i < |values|
    ensures MaxOf(values[..i + 1]) == Max(MaxOf(values[..i]), values[i])
    ensures FirstBest(values[..i + 1]) == if Lt(MaxOf(values[..i]), values[i]) then Some(i) else FirstBest(values[..i])
  {
    assert values[..i + 1][..i] == values[..i];
  }

  /** The move at an optional index; None stands for the source's `null`. */
  function MoveAt(moves: seq<Move>, index: Option<nat>): (m: Option<Move>)
    requires index.Some? ==> index.value < |moves|
    ensures m.Some? <==> index.Some?
    ensures m.Some? ==> m.value in moves
  {
    match index
    case None => None
    case Some(i) => Some(moves[i])
  }

  /**
    One iteration of the root loop: replacing the best value and move exactly
    when the new value is strictly greater keeps them equal to the running
    maximum and the move at FirstBest of the values searched so far.
   */
  lemma RootStep(moves: seq<Move>, values: seq<ExtInt>, i: nat, bestValue: ExtInt, bestMove: Option<Move>, value: ExtInt)
    requires i < |values| == |moves| && value == values[i]
    requires bestValue == MaxOf(values[..i]) && bestMove == MoveAt(moves, FirstBest(values[..i]))
    ensures (if Lt(bestValue, value) then value else bestValue) == MaxOf(values[..i + 1])
    ensures (if Lt(bestValue, value) then Some(moves[i]) else bestMove) == MoveAt(moves, FirstBest(values[..i + 1]))
  {
    FirstBestStep(values, i);
  }

  /**
    `minimaxRoot`: searches every root move with the full window and keeps the
    first move whose value is strictly greater than the best so far. It leaves the
    game as it found it and returns the move at FirstBest of the exact root values.
   */
  method MinimaxRoot(game: Game, depth: nat, isMax: bool) returns (best: Option<Move>)
    requires depth >= 1
    modifies game
    ensures game.pos == old(game.pos) && game.history == old(game.history)
    ensures best == MoveAt(game.Moves(), FirstBest(ChildValues(game.rules, game.pos, depth, isMax)))
  {
    var moves := game.Moves();
    ghost var p, h := game.pos, game.history;
    ghost var values := ChildValues(game.rules, p, depth, isMax);
    var bestMove: Option<Move> := None;
    var bestValue := NegInf;
    var i := 0;
    while i < |moves|
      invariant 0 <= i <= |moves|
      invariant game.pos == p && game.history == h
      invariant bestValue == MaxOf(values[..i])
      invariant bestMove == MoveAt(moves, FirstBest(values[..i]))
    {
      var move := moves[i];
      var value := SearchChild(game, depth, isMax, i, NegInf, PosInf);
      FullWindowExact(value, values[i]);
      RootStep(moves, values, i, bestValue, bestMove, value);
      if Lt(bestValue, value) {
        bestValue := value;
        bestMove := Some(move);
      }
      i := i + 1;
    }
    assert values[..i] == values;
    best := bestMove;
  }

  /** The search depth of a policy: 2 for 'minimax2', 3 for any other mode. */
  function DepthFor(mode: string): (d: nat)
    ensures d >= 1
    ensures d == 2 <==> mode == "minimax2"
    ensures mode != "minimax2" ==> d == 3
  {
    if mode == "minimax2" then 2 else 3
  }

  /** `Math.floor(r * len)` for `r` in [0, 1): always a valid index into a list of `len` moves. */
  function RandomIndex(r: real, len: nat): (i: nat)
    requires 0.0 <= r < 1.0 && len > 0
    ensures i < len
  {
    assert 0.0 <= r * len as real < len as real;
    (r * len as real).Floor
  }

  /**
    `makeComputerMove`: nothing happens when the game is over or there is no legal
    move; in 'random' mode the move at `floor(r * len)` is played (`r` stands for
    `Math.random()`); in any other mode the root search runs at DepthFor(mode),
    always as the maximizing side, and its move is played unless it returned none.
   */
  method MakeComputerMove(game: Game, mode: string, r: real) returns (played: Option<Move>)
    requires 0.0 <= r < 1.0
    modifies game
    ensures played.None? ==> game.pos == old(game.pos) && game.history == old(game.history)
    ensures played.Some? ==> played.value in old(game.Moves())
    ensures played.Some? ==>
      game.pos == game.rules.apply(old(game.pos), played.value) && game.history == old(game.history) + [old(game.pos)]
    ensures old(game.GameOver()) || old(game.Moves()) == [] ==> played == None
    ensures !old(game.GameOver()) && old(game.Moves()) != [] ==>
      played == if mode == "random"
                then Some(old(game.Moves())[RandomIndex(r, |old(game.Moves())|)])
                else MoveAt(old(game.Moves()), FirstBest(ChildValues(game.rules, old(game.pos), DepthFor(mode), true)))
  {
    if game.GameOver() {
      return None;
    }
    var possible := game.Moves();
    if |possible| == 0 {
      return None;
    }
    if mode == "random" {
      var m := possible[RandomIndex(r, |possible|)];
      var _ := game.Move(m);
      return Some(m);
    }
    var depth := DepthFor(mode);
    var best := MinimaxRoot(game, depth, true);
    if best.Some? {
      var _ := game.Move(best.value);
    }
    played := best;
  }
}
