# Ta7chi Fih server: a verified model of the room engine

`server.js` runs a "Cheat"-style bluffing game for rooms of players connected
over socket.io. This project models its game engine in Dafny:

- the deck of four ranks times four suits, and its in-place Fisher-Yates shuffle;
- round-robin dealing at `start_game`;
- the turn scheduler `nextTurn`, which skips finished players;
- the `play_cards` move, which takes cards from the player's hand onto the pile and records a claim;
- `resolveCall`, which judges a bluff call on the last `count` cards of the pile;
- game-over detection, and the room lifecycle (create, join, start, leave, disconnect);
- the public `room_state` projection.

The code's own structure is kept:

- A room is the class `Rooms.Room`. Its fields are `players`, `pile`, `lastClaim`, `turnIndex` and `started`.
- The process-wide `rooms` table is the class `RoomRegistry.Registry`, holding a `map<string, Room>`.
- Each socket handler is a method. It changes the fields the JavaScript changes, and its `ensures` give the whole new state:
  - in terms of pure specification functions: `Shuffled`, `Deal`, `Pick`, `Resolve`, `NextTurnIndex`, `GameOverOf`;
  - and of invariants the class keeps. `Room.Valid` says a room is non-empty and its turn pointer is in range. It also says a pending claim covers at most the pile, and a finished player holds no card. During a game, a player holding no card is finished.
- The loops the source writes are `while` loops with invariants, proved against those functions:
  - the shuffle, over an `array`;
  - the nested deal loop;
  - the `nextTurn` scan;
  - the card-picking loop of `play_cards`;
  - the seat resets of `start_game`;
  - the disconnect loop.
- The properties the game depends on are lemmas about the specification functions:
  - card conservation;
  - reveal locality, and the count-zero duplication;
  - the verdict;
  - where the turn lands;
  - the balanced deal;
  - when the game ends.

Random choices are parameters:

- the id suffixes of the cards (`suffix: nat -> string`);
- the shuffle draws `js`, with `0 <= js[i] <= i`;
- the random room id (`freshId`).

The socket's id and, for a disconnect, the list of rooms it had joined are parameters as well.

JavaScript semantics are written out where they matter:

- `s || fallback` on strings is `Common.OrElse`;
- negative-index `slice` and `splice` are `Bluff.JsSlice` and `Bluff.JsSplice`. With them, `pile.slice(-0)` is the whole pile and `pile.splice(-0, 0)` removes nothing;
- `claim.rank || null` is `Claims.RankOf`;
- `findIndex` returning -1 is `Players.IndexOfId` and `Claims.IndexOfCard`.

An empty string stands for a missing or falsy `roomId`, `name`, `rank` or `claimText`.

A claim of zero cards is modelled as the code behaves, not corrected. Calling it hands the recipient a copy of the whole pile, and the pile stays. So card conservation holds for claims of at least one card (`Bluff.ResolveConserves`), and the zero case is stated on its own (`Bluff.ResolveZeroCopiesPile`).

The order of the game-over checks follows the source:

- In `call_bluff`, `checkLastPlayer` runs inside `resolveCall`, before `nextTurn`.
- In `play_cards`, it runs after `nextTurn`.

Two further consequences of the model:

- Room validity implies that the two flag re-clears at `server.js:227-228` never change anything. `Rooms.Room.Unfinish` proves it.
- Deleting a seat in front of the turn pointer shifts the seats behind it. `removePlayerFromRoom` does not adjust for that, and the model keeps that behaviour.

## Model

| member | source | states |
|---|---|---|
| Deck.MakeDeckComplete | server.js:18-26 | the new deck has 16 = 4 x 4 cards, all ranks and suits come from the two tables, every (rank, suit) pair occurs exactly once, and the card ids are pairwise distinct for any random suffixes |
| Deck.Shuffle | server.js:27 | the in-place loop leaves the array equal to the Fisher-Yates specification `Shuffled` for the given draws, and the array keeps its multiset of cards |
| Deck.ShuffledPermutes | server.js:27 | the Fisher-Yates specification only rearranges: same multiset of cards |
| Dealing.DealSizeAt | server.js:54-58 | after `d` pops seat `p` holds `d / n` cards, plus one when `p < d % n` |
| Dealing.DealUnion | server.js:54-58 | after `d` pops the hands together hold exactly the last `d` cards of the deck |
| Dealing.DealtHandsPartition | server.js:49-58 | dealing a fresh shuffled deck partitions its 16 cards among the seats, `16 / n` cards per seat plus one below `16 % n` |
| Dealing.DealtHandsBalanced | server.js:54-58 | hand sizes differ by at most one, and an earlier seat never has fewer cards than a later one |
| Dealing.StartedSeatsDeal | server.js:173-177 | after `start_game` every seat keeps its id, socket, name and host flag, the hands hold exactly the new deck, and a seat is finished exactly when it received no card |
| Rooms.Room.DealCards | server.js:49-59 | deck built, shuffled in an array, every seat cleared, and the nested pop loop leaves each seat holding its hand from the deal specification |
| Rooms.Room.PopAll | server.js:54-58 | the nested `while`/`for` pop loop deals exactly as `Deal` specifies |
| Rooms.Room.Start | server.js:170-183 | "Already started" with nothing changed; otherwise started, turn 0, empty pile, no claim, the seats `StartedSeats` describes, and the room's cards are exactly the new deck |
| Turns.NextTurnLands | server.js:71-86 | with at least two unfinished seats the turn moves to a different, in-range, unfinished seat, and every seat strictly between the old and the new one (cyclically) is finished |
| Turns.NextTurnStays | server.js:75-76 | with at most one unfinished seat the turn pointer stays |
| Rooms.Room.NextTurn | server.js:71-86 | the scan loop leaves the turn pointer at `NextTurnIndex` of the seats and the old pointer, and changes no other field |
| Turns.GameOverFires | server.js:89-97 | the game ends exactly when the room is started and exactly one seat is unfinished; then that seat is the loser and the winners are the seats the id filter keeps, which are all the other seats in seat order when ids are distinct (`Turns.WinnersAreOthers`) |
| Turns.WinnersAreOthers | server.js:93 | with distinct ids the winners list is every seat except the loser's, in seat order |
| Rooms.Room.CheckLastPlayer | server.js:89-97 | reports `GameOverOf` the seats and clears `started` exactly when it fires; nothing else changes |
| Claims.TakeCards | server.js:194-199 | the card-picking loop computes `Pick` of the hand and ids, and the kept and played cards together are the old hand |
| Claims.IndexOfCard | server.js:197 | `findIndex`: the first card with the id, or -1 exactly when no card has it |
| Claims.PickConserves | server.js:196-199 | the cards kept and the cards played together form the old hand's multiset |
| Claims.PickKeeps | server.js:196-199 | with distinct ids in the hand, the kept cards are exactly those whose id is not listed |
| Claims.PickPlays | server.js:196-199 | with distinct ids in the hand, the played cards are exactly those whose id is listed, so unknown ids are ignored |
| Claims.PickPlaysOnce | server.js:196-199 | with distinct ids in the hand, a repeated id never plays a card twice |
| Claims.PickInOrder | server.js:196-198 | the played cards' ids appear in `cardIds` order |
| Claims.RankOf | server.js:203 | the recorded rank is null exactly when the requested rank is missing or empty, and otherwise it is the requested rank |
| Claims.ClaimFor | server.js:203 | the claim names the mover, counts the cards moved, carries `RankOf` the request, and keeps a non-empty claim text |
| Rooms.PlayConservesCards | server.js:196-202 | a play moves cards from the mover's hand to the pile: hands plus pile keep their multiset |
| Rooms.FinishedStaysEmpty | server.js:206 | after a play, finished players still hold nothing, and during a game the empty-handed are still finished |
| Rooms.Room.Play | server.js:185-214 | no change outside a game, for an unknown player or out of turn; otherwise the hand, pile and claim updates, then the turn moves to `NextTurnIndex` and the game-over check runs on the new seats; cards are conserved |
| Bluff.JsIndex | server.js:110 | a negative `slice`/`splice` start lands inside `[0, len]` |
| Bluff.RevealTail | server.js:110-129 | for a count of at least one, the revealed cards are the last `min(count, len)` pile cards and splicing leaves exactly the prefix before them |
| Bluff.RevealZero | server.js:110-129 | for a count of zero, `slice(-0)` reveals the whole pile and `splice(-0, 0)` leaves it whole |
| Bluff.AnyDiffersIff | server.js:113 | the `liar` test holds exactly when the claim has a non-empty rank and some revealed card has another rank; a null rank is never a bluff |
| Bluff.ResolveVerdict | server.js:113-134 | verdict as above; on `liar` the claimed seat receives the cards and the turn, on `wrong` the caller; `who` names the recipient and `picked` counts the revealed cards |
| Bluff.ResolveLocality | server.js:110-131 | for a count of at least one, the pile keeps exactly its first `len - min(count, len)` cards, the tail is appended to the recipient's hand alone, the recipient is unfinished when that hand is non-empty, and every other seat is untouched |
| Bluff.ResolveConserves | server.js:104-136 | for a count of at least one, hands plus pile keep their multiset |
| Bluff.ResolveZeroCopiesPile | server.js:108-118 | for a count of zero the pile stays, the recipient gains a copy of it, and the room then holds every pile card twice |
| Rooms.ResolveKeepsFlags | server.js:117-131 | a resolution keeps finished players empty-handed and, during a game, the empty-handed finished |
| Rooms.Room.ResolveCall | server.js:104-136 | no change without a claim; otherwise players and pile as `Resolve` says, claim cleared, turn to the recipient, and the game-over check on the new seats before any turn advance |
| Rooms.Room.CallBluff | server.js:216-235 | "Nothing to call" outside a game or without a claim, "Invalid players" for an unknown caller or claimant, both with nothing changed; otherwise `Resolve`, then the turn advances from the recipient |
| Rooms.Room.Unfinish | server.js:227-228 | in a valid room the re-clear of a party's finished flag changes nothing |
| Rooms.Room.Join | server.js:153-165 | "Game already started", "Already joined" for a socket already seated, both with nothing changed; otherwise exactly one unfinished guest seat with an empty hand and name `name || 'Guest'` is appended |
| Rooms.Room.DropSocket | server.js:62-68 | the seats of the socket are filtered out; if seats remain the turn pointer resets to 0 only when it is out of range |
| Rooms.Removed | server.js:62-68 | on a room's state, the removal deletes the room exactly when no other socket's seat is left; a surviving room seats no seat of that socket and its turn pointer is in range |
| Rooms.RemovedIdempotent | server.js:62-68 | removing the same socket from a surviving room a second time changes nothing |
| Rooms.Room.constructor | server.js:41-46 | a new room holds the host alone, unfinished, with an empty pile, no claim, turn 0, not started |
| Players.IndexOfId | server.js:189 | `findIndex`: the first seat with the id, or -1 exactly when no seat has it |
| Players.WithoutSocket | server.js:64 | the filter keeps exactly the seats of other sockets and leaves no seat of that socket; their order is `Players.WithoutSocketKeepsOrder` |
| Players.WithoutSocketKeepsOrder | server.js:64 | the kept seats are the seats of other sockets in their old order: the `k`-th kept seat is the seat at the `k`-th position, in increasing order, whose socket differs |
| Players.WithoutSocketIdempotent | server.js:64 | filtering a socket out twice is filtering it out once |
| Players.PlayerIdFor | server.js:144 | the player id is `p_` followed by the first at most six characters of the socket id |
| Players.ActiveEmpty | server.js:75 | the unfinished-seat filter is empty exactly when every seat is finished |
| Players.HeldUpdate | server.js:117-128 | replacing one seat swaps exactly that seat's cards in the multiset of held cards |
| Common.OrElse | server.js:142-144 | `s \|\| fallback` on strings gives `s` when it is non-empty and `fallback` when it is empty, so it is non-empty when either is |
| RoomRegistry.Registry.CreateRoom | server.js:141-149 | "Room exists" for an id in use, after an empty id is replaced by the random one; otherwise exactly one new room is registered, holding the host seat, and every other room is kept |
| RoomRegistry.Registry.JoinRoom | server.js:151-166 | "No such room" for an unknown id; on that room alone, "Game already started" or "Already joined" with nothing changed, otherwise exactly the guest seat appended while pile, claim, turn pointer and `started` stay |
| RoomRegistry.Registry.StartGame | server.js:168-183 | "No such room" for an unknown id, otherwise what `Room.Start` answers, on that room alone |
| RoomRegistry.Registry.PlayCards | server.js:185-214 | ignored for an unknown room, outside a game or out of turn; otherwise, on that room alone, the mover keeps the unpicked cards and is finished exactly when left with none, the picked cards go on the pile, the claim is recorded, the turn moves to `NextTurnIndex`, the game-over check runs, `started` is cleared exactly when it fires, and cards are conserved |
| RoomRegistry.Registry.CallBluff | server.js:216-235 | "Nothing to call" for an unknown room, outside a game or without a claim, "Invalid players" for an unknown caller or claimant, both with nothing changed; otherwise, on that room alone, players and pile as `Resolve` says, claim cleared, the turn advancing from the recipient, the game-over result, and `started` cleared exactly when it fires |
| RoomRegistry.Registry.RemovePlayerFromRoom | server.js:62-68 | the socket's seats leave the room and pile, claim and `started` are kept; the room is deleted exactly when it is left empty; otherwise the turn pointer resets to 0 only if out of range; the room ends as `Rooms.Removed` says, and every other room is unchanged |
| RoomRegistry.Registry.LeaveRoom | server.js:237 | exactly `removePlayerFromRoom` on the named room: the same new state of that room, and every other room unchanged |
| RoomRegistry.Registry.Disconnect | server.js:239 | rooms are only deleted, never added or replaced; a room not named is kept with its whole state; a named room ends as `Rooms.Removed` says of its old state, and is deleted exactly when `Removed` gives nothing, even when its id is named twice |
| RoomRegistry.Registry.RoomState | server.js:32-35 | an unknown id sends nothing; a registered room's payload is its public view, `View.PublicView` of its five fields |
| View.ViewHidesCards | server.js:34-35 | the public view depends on hands and pile only through their sizes, so it reveals no card |

## Left out

- The Express app, CORS, the HTTP server, socket.io setup and `server.listen` (`server.js:1-16`, `server.js:242`): transport and bootstrap, not game logic.
- Emitting: `io.to(...).emit` of `room_state` and `game_over`, the per-socket `your_hand` messages, and the `cb` acknowledgements. The model computes what would be sent: `Registry.RoomState`, `GameOver`, `Resolution` and the `Result` values. Delivery is I/O.
- `Math.random`: the card id suffixes, the shuffle draws and the random room id are parameters.
- `socket.rooms`: the rooms a socket has joined are a parameter of `Registry.Disconnect`. `socket.join` and `socket.leave` are I/O.
- Console logging (`server.js:139`).
- A `play_cards` message with no `claim` object: the JavaScript throws a `TypeError` at `server.js:203`. By then the cards have already left the hand and been appended to the pile (`server.js:196-202`), so the room is left with the cards moved, the old `lastClaim` still pending, no finished mark and no turn advance. The model takes `claim` as a record whose `rank` and `claimText` are optional, so it does not model that half-done play.
- `nextTurn`'s `len === 0` guard (`server.js:73`): `Room.Valid` keeps every room non-empty, and the `activeCount <= 1` exit covers an empty list anyway.
- The `rooms` table is modelled as a map with no inherited keys. In the code it is a plain object (`server.js:29`), so names inherited from `Object.prototype`, such as `constructor`, `toString` or `__proto__`, count as present. `create_room` on such an id answers "Room exists", and `join_room`, `start_game` and `leave_room` on it throw a `TypeError`, whereas the model treats it as an unknown room.
- JavaScript's untyped values: `null`, `undefined` and non-string ids are modelled as the empty string or `None`. `last.count || 0` is the model's `count`, which is always a number.
- Claims.PickKeeps, Claims.PickPlays, Claims.PickPlaysOnce: these require distinct card ids in the hand. A fresh deal gives that (`Deck.MakeDeckComplete`), but the zero-count duplication can later put two copies of a card in play, so the room does not keep it as an invariant.
- Bluff.ResolveConserves: stated for claims of at least one card only. For a claim of zero cards the code copies the pile, as `Bluff.ResolveZeroCopiesPile` states.
- Turns.GameOverFires: the winners are shown to be the other seats in seat order only when player ids are distinct (`Turns.WinnersAreOthers`). With duplicate ids the code's filter also drops the loser's namesakes, and the model's `Winners` does the same.
