/** Values shared by the tracker and the simulator. */
module Types {

  /** An agent's identifier (the `person_id` of a message). */
  type AgentId = string

  /** A wall-clock reading; the model never computes with it, it only stores it. */
  type Timestamp = real

  /** One grid cell, the tuple `(x, y)`. */
  datatype Cell = Cell(x: int, y: int)

  /** One entry of a contact history: the agent was at `position` together with `peer` at `time`. */
  datatype ContactEvent = ContactEvent(peer: AgentId, position: Cell, time: Timestamp)

  datatype Option<T> = None | Some(value: T)

  function Min(a: int, b: int): (r: int)
  {
    if a <= b then a else b
  }

  function Max(a: int, b: int): (r: int)
  {
    if a <= b then b else a
  }

  /** No element of `s` occurs twice. */
  predicate Distinct<T(==)>(s: seq<T>)
  {
    forall i, j :: 0 <= i < j < |s| ==> s[i] != s[j]
  }
}
