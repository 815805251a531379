/**
 * The game lifecycle (src/game.rs): before a game, during one (holding its
 * board), and after it. Keys and ticks arrive from outside.
 */
module Games {
  import opened Blocks
  import opened Boards

  /** The playfield size a new game uses. */
  const Width := 10
  const Height := 20

  /** Exactly one of three phases; only `Play` holds a board, and `Over` keeps no score. */
  datatype State = Start | Play(board: Board) | Over

  /** The only changes of phase: Start to Play, Play to Over, Over to Start. */
  predicate Allowed(before: State, after: State)
  {
    before == after || (before.Start? && after.Play?) || (before.Play? && after.Over?) ||
    (before.Over? && after.Start?)
  }

  class Game {
    var state: State

    ghost function Repr(): set<object>
      reads this
    {
      if state.Play? then {this, state.board} else {this}
    }

    ghost predicate Valid()
      reads Repr()
    {
      state.Play? ==> state.board.Valid()
    }

    constructor ()
      ensures Valid() && state == Start
    {
      state := Start;
    }

    /**
     * `input`: Space starts a game from Start and returns to Start from
     * Over; other keys are ignored there. During play every key goes to
     * the board. `next` is the shape a new board, or a lock, would spawn.
     */
    method Input(key: Key, next: BlockType)
      requires Valid()
      requires state.Play? && key == Key.Down ==> state.board.DownSafe()
      modifies Repr()
      ensures Valid() && Allowed(old(state), state)
      ensures old(state).Start? ==>
        if key == Key.Space then
          state.Play? && fresh(state.board) && state.board.IsNew(Width, Height, next)
        else
          state == Start
      ensures old(state).Over? ==> state == if key == Key.Space then Start else Over
      ensures old(state).Play? ==> state == old(state) && state.board.Handled(key, next)
    {
      match state {
        case Start =>
          if key == Key.Space {
            var board := new Board(Width, Height, next);
            state := Play(board);
          }
        case Play(board) =>
          board.Input(key, next);
        case Over =>
          if key == Key.Space {
            state := Start;
          }
      }
    }

    /**
     * `step`: one tick. During play the board falls one row; the game is
     * over exactly when the board reports that its new block collides.
     */
    method Step(next: BlockType)
      requires Valid()
      requires state.Play? ==> state.board.DownSafe()
      modifies Repr()
      ensures Valid() && Allowed(old(state), state)
      ensures !old(state).Play? ==> state == old(state)
      ensures old(state).Play? ==> old(state).board.Valid() && old(state).board.Fell(next)
      ensures old(state).Play? ==>
        state == if old(state).board.PieceCollides() then Over else old(state)
    {
      match state {
        case Start =>
        case Play(board) =>
          var over := board.Step(next);
          if over {
            state := Over;
          }
        case Over =>
      }
    }
  }
}
