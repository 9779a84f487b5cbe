/** The public `room_state` payload: what every member of a room is shown. */
module View {
  import opened Common
  import opened Deck
  import opened Players
  import opened Claims

  datatype PlayerView = PlayerView(id: string, name: string, count: nat, isHost: bool, finished: bool)

  datatype RoomView = RoomView(
    players: seq<PlayerView>,
    pileCount: nat,
    lastClaim: Option<Claim>,
    turnIndex: nat,
    started: bool)

  function PlayerViewOf(p: Player): PlayerView
  {
    PlayerView(p.id, p.name, |p.hand|, p.isHost, p.finished)
  }

  function PublicView(players: seq<Player>, pile: seq<Card>, lastClaim: Option<Claim>, turnIndex: nat, started: bool): RoomView
  {
    RoomView(seq(|players|, i requires 0 <= i < |players| => PlayerViewOf(players[i])),
             |pile|, lastClaim, turnIndex, started)
  }

  /** Two seats that differ at most in which cards they hold, not in how many. */
  predicate SameButCards(p: Player, q: Player)
  {
    p.id == q.id && p.name == q.name && |p.hand| == |q.hand| && p.isHost == q.isHost && p.finished == q.finished
  }

  /**
   * Redaction: the public view depends on the hands and the pile only through
   * their sizes, so no card of any hand or of the pile can be read from it.
   */
  lemma ViewHidesCards(ps: seq<Player>, qs: seq<Player>, pile: seq<Card>, pile': seq<Card>,
                       lastClaim: Option<Claim>, turnIndex: nat, started: bool)
    requires |ps| == |qs| && |pile| == |pile'|
    requires forall i :: 0 <= i < |ps| ==> SameButCards(ps[i], qs[i])
    ensures PublicView(ps, pile, lastClaim, turnIndex, started) == PublicView(qs, pile', lastClaim, turnIndex, started)
  {
    assert PublicView(ps, pile, lastClaim, turnIndex, started).players == PublicView(qs, pile', lastClaim, turnIndex, started).players;
  }
}
