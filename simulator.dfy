/**
 * The simulated agent's move rule: one step in one of eight directions,
 * clamped to the board.
 */
module Simulator {
  import opened Types

  /** The eight unit steps a simulated agent chooses among. */
  const Directions: seq<(int, int)> := [(0, 1), (1, 0), (0, -1), (-1, 0), (1, 1), (1, -1), (-1, 1), (-1, -1)]

  /** Cell `p` lies on a `size` by `size` board. */
  predicate OnBoard(p: Cell, size: int)
  {
    0 <= p.x < size && 0 <= p.y < size
  }

  /**
   * One coordinate after a step of `d` from `p`, clamped to `[0, size - 1]`:
   * the target itself when it is on the board, otherwise the nearest edge.
   */
  function Step(p: int, d: int, size: int): (r: int)
    ensures size >= 1 ==> 0 <= r < size
    ensures 0 <= p + d < size ==> r == p + d
    ensures size >= 1 && p + d < 0 ==> r == 0
    ensures size >= 1 && p + d >= size ==> r == size - 1
    ensures 0 <= p < size && -1 <= d <= 1 ==> -1 <= r - p <= 1
  {
    Max(0, Min(size - 1, p + d))
  }

  class PersonSimulator {
    const personId: AgentId
    const boardSize: int
    var position: Cell

    ghost predicate Valid()
      reads this
    {
      boardSize >= 1 && OnBoard(position, boardSize)
    }

    /** A simulated agent placed on `start`, a cell drawn uniformly from the board. */
    constructor (personId: AgentId, boardSize: int, start: Cell)
      requires boardSize >= 1 && OnBoard(start, boardSize)
      ensures Valid() && this.personId == personId && this.boardSize == boardSize && position == start
    {
      this.personId, this.boardSize, position := personId, boardSize, start;
    }

    /**
     * Moves one step in direction `Directions[choice]`, clamping each
     * coordinate to the board; the agent stays on the board and moves at most
     * one cell along each axis.
     */
    method MoveRandomly(choice: nat)
      requires Valid() && choice < |Directions|
      modifies this`position
      ensures Valid()
      ensures position == Cell(Step(old(position).x, Directions[choice].0, boardSize),
                               Step(old(position).y, Directions[choice].1, boardSize))
      ensures -1 <= position.x - old(position).x <= 1 && -1 <= position.y - old(position).y <= 1
    {
      var (dx, dy) := Directions[choice];
      var newX := Max(0, Min(boardSize - 1, position.x + dx));
      var newY := Max(0, Min(boardSize - 1, position.y + dy));
      position := Cell(newX, newY);
    }
  }
}
