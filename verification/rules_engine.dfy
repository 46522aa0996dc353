module Wrappers {
  datatype Option<T> = None | Some(value: T)
}

/**
  The chess rules engine that scripts/chess.js drives (`new Chess()`), seen only
  through the operations the opponent's search uses: the ordered list of legal
  moves, the position a move leads to, the board of a position and whether the
  game is over. Its internals are not part of this model; positions and moves
  are opaque tokens.
 */
module RulesEngine {
  import opened Evaluation

  type Position
  type Move(==)

  datatype Rules = Rules(
    moves: Position -> seq<Move>,
    apply: (Position, Move) -> Position,
    board: Position -> Grid,
    gameOver: Position -> bool)

  /**
    The shared, mutable game object: the current position and the undo stack of
    the positions that preceded each applied move, most recent last.
   */
  class Game {
    const rules: Rules
    var pos: Position
    var history: seq<Position>

    constructor (rules: Rules, start: Position)
      ensures this.rules == rules && pos == start && history == []
    {
      this.rules := rules;
      pos := start;
      history := [];
    }

    /** `game.moves()`: the legal moves of the current position, in generator order. */
    function Moves(): seq<Move>
      reads this
    {
      rules.moves(pos)
    }

    /** `game.board()`: the 8x8 board of the current position. */
    function Board(): Grid
      reads this
    {
      rules.board(pos)
    }

    /** `game.game_over()`. */
    function GameOver(): bool
      reads this
    {
      rules.gameOver(pos)
    }

    /**
      `game.move(m)`: plays a legal move and pushes the position it left onto the
      undo stack; a move that is not legal is refused and changes nothing.
     */
    method Move(m: Move) returns (ok: bool)
      modifies this
      ensures ok <==> m in old(Moves())
      ensures ok ==> pos == rules.apply(old(pos), m) && history == old(history) + [old(pos)]
      ensures !ok ==> pos == old(pos) && history == old(history)
    {
      ok := m in rules.moves(pos);
      if ok {
        history := history + [pos];
        pos := rules.apply(pos, m);
      }
    }

    /**
      `game.undo()`: takes back the most recent move, restoring the position on
      top of the undo stack; with an empty stack it changes nothing.
     */
    method Undo() returns (ok: bool)
      modifies this
      ensures ok <==> old(history) != []
      ensures ok ==> pos == old(history)[|old(history)| - 1] && history == old(history)[..|old(history)| - 1]
      ensures !ok ==> pos == old(pos) && history == old(history)
    {
      ok := history != [];
      if ok {
        pos := history[|history| - 1];
        history := history[..|history| - 1];
      }
    }
  }
}
