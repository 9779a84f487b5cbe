/** Option and Result wrappers, and the errors the socket handlers acknowledge with. */
module Common {

  datatype Option<T> = None | Some(value: T)

  datatype Result<T, E> = Ok(value: T) | Err(error: E)

  /** The `{ ok: false, error }` acknowledgements of the room handlers. */
  datatype Error =
    | RoomExists
    | NoSuchRoom
    | GameAlreadyStarted
    | AlreadyJoined
    | AlreadyStarted
    | NothingToCall
    | InvalidPlayers

  /** JavaScript's `s || fallback` on a string, where only the empty string is falsy. */
  function OrElse(s: string, fallback: string): (r: string)
    ensures s != "" ==> r == s
    ensures s == "" ==> r == fallback
    ensures r != "" <== s != "" || fallback != ""
  {
    if s == "" then fallback else s
  }
}
