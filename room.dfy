/** One room's state machine: lobby, dealing, turns, claims and challenges. */
module Rooms {
  import opened Common
  import opened Deck
  import opened Players
  import opened Turns
  import opened Dealing
  import opened Claims
  import opened Bluff

  /** The five fields of a room, as one value. */
  datatype RoomData = RoomData(players: seq<Player>, pile: seq<Card>, lastClaim: Option<Claim>,
                               turnIndex: nat, started: bool)

  /**
   * `removePlayerFromRoom` on a room's data: the socket's seats go; `None` when
   * no seat is left and the room is deleted, otherwise the turn pointer returns
   * to 0 if it ran past the end.
   */
  function Removed(d: RoomData, socketId: string): (e: Option<RoomData>)
    ensures e.None? <==> WithoutSocket(d.players, socketId) == []
    ensures e.Some? ==> !HasSocket(e.value.players, socketId) && e.value.turnIndex < |e.value.players|
  {
    var ps := WithoutSocket(d.players, socketId);
    if ps == [] then None
    else Some(d.(players := ps, turnIndex := if d.turnIndex >= |ps| then 0 else d.turnIndex))
  }

  /** Removing the same socket twice is removing it once, so repeated room ids in a disconnect are harmless. */
  lemma RemovedIdempotent(d: RoomData, socketId: string)
    requires Removed(d, socketId).Some?
    ensures Removed(Removed(d, socketId).value, socketId) == Removed(d, socketId)
  {
    WithoutSocketIdempotent(d.players, socketId);
  }

  class Room {
    var players: seq<Player>
    var pile: seq<Card>
    var lastClaim: Option<Claim>
    var turnIndex: nat
    var started: bool

    /**
     * A registered room is never empty, its turn pointer names a seat, a pending
     * claim covers no more cards than the pile holds, a finished player holds no
     * card, and during a game a player holding no card is finished.
     */
    ghost predicate Valid()
      reads this
    {
      && |players| > 0
      && turnIndex < |players|
      && (lastClaim.Some? ==> lastClaim.value.count <= |pile|)
      && FinishedHandsEmpty(players)
      && (started ==> EmptyHandsFinished(players))
    }

    /** Every card in the room: all the hands and the pile. */
    ghost function Cards(): multiset<Card>
      reads this`players, this`pile
    {
      Held(players) + multiset(pile)
    }

    /** The room's fields as one value. */
    function Data(): RoomData
      reads this
    {
      RoomData(players, pile, lastClaim, turnIndex, started)
    }

    /** `createRoom`: a lobby holding the host alone. */
    constructor (host: Player)
      requires host.hand == []
      ensures Valid()
      ensures players == [host.(finished := false)]
      ensures pile == [] && lastClaim == None && turnIndex == 0 && !started
    {
      players := [host.(finished := false)];
      pile := [];
      lastClaim := None;
      turnIndex := 0;
      started := false;
    }

    /** `nextTurn`: scan forward from the turn pointer, wrapping round, for an unfinished seat. */
    method NextTurn()
      requires |players| > 0 && turnIndex < |players|
      modifies this`turnIndex
      ensures turnIndex < |players|
      ensures turnIndex == NextTurnIndex(players, old(turnIndex))
    {
      var len := |players|;
      var activeCount := |Active(players)|;
      if activeCount <= 1 {
        return;
      }
      var idx := turnIndex;
      var i := 1;
      while i <= len
        invariant 1 <= i <= len + 1
        invariant turnIndex == idx
        invariant ScanFrom(players, idx, i) == ScanFrom(players, idx, 1)
      {
        var cand := (idx + i) % len;
        if !players[cand].finished {
          turnIndex := cand;
          return;
        }
        i := i + 1;
      }
    }

    /** `checkLastPlayer`: end the game when a started room has exactly one unfinished seat. */
    method CheckLastPlayer() returns (over: Option<GameOver>)
      modifies this`started
      ensures over == GameOverOf(players, old(started))
      ensures started == (old(started) && over.None?)
    {
      var active := Active(players);
      if |active| == 1 && started {
        var loser := active[0];
        over := Some(GameOver(loser.id, loser.name, Winners(players, loser.id)));
        started := false;
      } else {
        over := None;
      }
    }

    /** `dealCards`: build and shuffle a deck, clear every seat, then pop cards round-robin. */
    method DealCards(suffix: nat -> string, js: seq<int>)
      requires |players| > 0 && ValidDraws(js, DECK_SIZE)
      modifies this`players
      ensures players == WithHands(Cleared(old(players)), DealtHands(suffix, js, |old(players)|))
    {
      var a := new Card[DECK_SIZE](k requires 0 <= k < DECK_SIZE => MakeDeck(suffix)[k]);
      assert a[..] == MakeDeck(suffix);
      Shuffle(a, js);
      var deck := a[..];
      assert deck == ShuffledDeck(suffix, js);
      ClearHands();
      PopAll(deck);
    }

    /** Every seat gets an empty hand and loses its finished mark. */
    method ClearHands()
      modifies this`players
      ensures players == Cleared(old(players))
    {
      var k := 0;
      while k < |players|
        invariant 0 <= k <= |players| == |old(players)|
        invariant forall p :: 0 <= p < k ==> players[p] == old(players[p]).(hand := [], finished := false)
        invariant forall p :: k <= p < |players| ==> players[p] == old(players[p])
      {
        players := players[k := players[k].(hand := [], finished := false)];
        k := k + 1;
      }
    }

    /** Pop the whole deck onto the seats in turn, starting at seat 0. */
    method PopAll(deck0: seq<Card>)
      requires |players| > 0
      requires forall p :: 0 <= p < |players| ==> players[p].hand == []
      modifies this`players
      ensures players == WithHands(old(players), Deal(deck0, |old(players)|, |deck0|))
    {
      var deck := deck0;
      var count := |players|;
      ghost var base := players;
      ghost var full := deck0;
      assert WithHands(base, Deal(full, count, 0)) == base;
      while |deck| > 0
        invariant |players| == count
        invariant deck == full[..|deck|]
        invariant |deck| > 0 ==> DealState(full, count, |full| - |deck|).1 == 0
        invariant players == WithHands(base, Deal(full, count, |full| - |deck|))
        decreases |deck|
      {
        var i := 0;
        ghost var len0 := |deck|;
        while i < count && |deck| > 0
          invariant 0 <= i <= count && |players| == count
          invariant |deck| + i == len0
          invariant deck == full[..|deck|]
          invariant DealState(full, count, |full| - |deck|).1 == (if i == count then 0 else i)
          invariant players == WithHands(base, Deal(full, count, |full| - |deck|))
          decreases count - i
        {
          ghost var d := |full| - |deck|;
          var c := deck[|deck| - 1];
          DealNext(full, count, d);
          WithHandsUpdate(base, Deal(full, count, d), i, players[i].hand + [c]);
          deck := deck[..|deck| - 1];
          players := players[i := players[i].(hand := players[i].hand + [c])];
          i := i + 1;
        }
      }
    }
    /** `start_game` on an existing room. */
    method Start(suffix: nat -> string, js: seq<int>) returns (res: Result<(), Error>)
      requires Valid() && ValidDraws(js, DECK_SIZE)
      modifies this
      ensures Valid()
      ensures old(started) ==> res == Err(AlreadyStarted) && unchanged(this)
      ensures !old(started) ==>
        && res == Ok(())
        && started && turnIndex == 0 && pile == [] && lastClaim == None
        && players == StartedSeats(old(players), suffix, js)
        && Cards() == multiset(MakeDeck(suffix))
    {
      if started {
        res := Err(AlreadyStarted);
        return;
      }
      started := true;
      turnIndex := 0;
      pile := [];
      lastClaim := None;
      Redeal(suffix, js);
      StartedSeatsDeal(old(players), suffix, js);
      res := Ok(());
    }

    /** The seat updates of `start_game`: clear every seat, deal, and mark the empty-handed finished. */
    method Redeal(suffix: nat -> string, js: seq<int>)
      requires |players| > 0 && ValidDraws(js, DECK_SIZE)
      modifies this`players
      ensures players == StartedSeats(old(players), suffix, js)
    {
      ClearHands();
      assert Cleared(players) == Cleared(old(players));
      DealCards(suffix, js);
      MarkEmptyFinished();
    }

    /** Mark every seat that holds no card as finished. */
    method MarkEmptyFinished()
      modifies this`players
      ensures players == MarkEmpty(old(players))
    {
      var k := 0;
      while k < |players|
        invariant 0 <= k <= |players| == |old(players)|
        invariant forall p :: 0 <= p < k ==> players[p] == MarkEmpty(old(players))[p]
        invariant forall p :: k <= p < |players| ==> players[p] == old(players[p])
      {
        if players[k].hand == [] {
          players := players[k := players[k].(finished := true)];
        }
        k := k + 1;
      }
    }

    /**
     * `play_cards`: outside a game, for an unknown player or out of turn nothing
     * happens; otherwise the named cards move from the hand to the pile, the play
     * becomes the pending claim, the mover is finished on an empty hand, the turn
     * advances, and the game may end.
     */
    method Play(playerId: string, cardIds: seq<string>, req: ClaimRequest) returns (over: Option<GameOver>)
      requires Valid()
      modifies this
      ensures Valid()
      ensures !old(started) || IndexOfId(old(players), playerId) != old(turnIndex) ==>
        unchanged(this) && over == None
      ensures old(started) && IndexOfId(old(players), playerId) == old(turnIndex) ==>
        var idx := old(turnIndex);
        var picked := Pick(old(players)[idx].hand, cardIds);
        && players == old(players)[idx := Played(old(players)[idx], picked.kept)]
        && (players[idx].finished <==> players[idx].hand == [])
        && pile == old(pile) + picked.played
        && lastClaim == Some(ClaimFor(playerId, req, |picked.played|))
        && turnIndex == NextTurnIndex(players, idx)
        && over == GameOverOf(players, true)
        && started == over.None?
        && Cards() == old(Cards())
    {
      if !started {
        return None;
      }
      var idx := IndexOfId(players, playerId);
      if idx == -1 || idx != turnIndex {
        return None;
      }
      over := Move(idx, playerId, cardIds, req);
    }

    /** The part of `play_cards` after its guards, for the player at seat `idx` whose turn it is. */
    method Move(idx: nat, playerId: string, cardIds: seq<string>, req: ClaimRequest) returns (over: Option<GameOver>)
      requires Valid() && started && idx == turnIndex
      modifies this
      ensures Valid()
      ensures var picked := Pick(old(players)[idx].hand, cardIds);
        && players == old(players)[idx := Played(old(players)[idx], picked.kept)]
        && (players[idx].finished <==> players[idx].hand == [])
        && pile == old(pile) + picked.played
        && lastClaim == Some(ClaimFor(playerId, req, |picked.played|))
        && turnIndex == NextTurnIndex(players, idx)
        && over == GameOverOf(players, true)
        && started == over.None?
        && Cards() == old(Cards())
    {
      Lay(idx, playerId, cardIds, req);
      NextTurn();
      over := CheckLastPlayer();
    }

    /** The card moves of a play: hand to pile, the claim recorded, the mover finished on an empty hand. */
    method Lay(idx: nat, playerId: string, cardIds: seq<string>, req: ClaimRequest)
      requires Valid() && started && idx < |players|
      modifies this`players, this`pile, this`lastClaim
      ensures Valid()
      ensures var picked := Pick(old(players)[idx].hand, cardIds);
        && players == old(players)[idx := Played(old(players)[idx], picked.kept)]
        && (players[idx].finished <==> players[idx].hand == [])
        && pile == old(pile) + picked.played
        && lastClaim == Some(ClaimFor(playerId, req, |picked.played|))
      ensures Cards() == old(Cards())
    {
      var hand, played := TakeCards(players[idx].hand, cardIds);
      assert hand == Pick(players[idx].hand, cardIds).kept && played == Pick(players[idx].hand, cardIds).played;
      PlayConservesCards(players, pile, idx, cardIds);
      FinishedStaysEmpty(players, idx, cardIds);
      players := players[idx := Played(players[idx], hand)];
      pile := pile + played;
      lastClaim := Some(ClaimFor(playerId, req, |played|));
    }

    /**
     * `resolveCall`: with no pending claim nothing happens; otherwise the cards
     * move as `Resolve` says, the claim is cleared, the recipient takes the turn,
     * and the game may end.
     */
    method ResolveCall(callerIndex: nat, claimedIndex: nat) returns (res: Option<Resolution>, over: Option<GameOver>)
      requires Valid() && callerIndex < |players| && claimedIndex < |players|
      modifies this
      ensures Valid()
      ensures old(lastClaim).None? ==> unchanged(this) && res == None && over == None
      ensures old(lastClaim).Some? ==>
        var r := Resolve(old(players), old(pile), old(lastClaim).value, callerIndex, claimedIndex);
        && players == r.players && pile == r.pile && lastClaim == None
        && turnIndex == r.recipient
        && res == Some(r.resolution)
        && over == GameOverOf(r.players, old(started))
        && started == (old(started) && over.None?)
    {
      if lastClaim.None? {
        return None, None;
      }
      var r := Resolve(players, pile, lastClaim.value, callerIndex, claimedIndex);
      ResolveKeepsFlags(players, pile, lastClaim.value, callerIndex, claimedIndex);
      players := r.players;
      pile := r.pile;
      lastClaim := None;
      turnIndex := r.recipient;
      over := CheckLastPlayer();
      res := Some(r.resolution);
    }

    /**
     * `call_bluff` on an existing room: outside a game or with no pending claim it
     * fails with "Nothing to call", for an unknown caller or claimant with
     * "Invalid players"; otherwise the call is resolved, both parties are
     * unfinished if they hold cards, and the turn advances.
     */
    method CallBluff(callerId: string, claimedPlayerId: string) returns (res: Result<Resolution, Error>, over: Option<GameOver>)
      requires Valid()
      modifies this
      ensures Valid()
      ensures !old(started) || old(lastClaim).None? ==>
        res == Err(NothingToCall) && over == None && unchanged(this)
      ensures old(started) && old(lastClaim).Some? &&
              (IndexOfId(old(players), callerId) == -1 || IndexOfId(old(players), claimedPlayerId) == -1) ==>
        res == Err(InvalidPlayers) && over == None && unchanged(this)
      ensures old(started) && old(lastClaim).Some? &&
              IndexOfId(old(players), callerId) != -1 && IndexOfId(old(players), claimedPlayerId) != -1 ==>
        var r := Resolve(old(players), old(pile), old(lastClaim).value,
                         IndexOfId(old(players), callerId), IndexOfId(old(players), claimedPlayerId));
        && players == r.players && pile == r.pile && lastClaim == None
        && turnIndex == NextTurnIndex(r.players, r.recipient)
        && res == Ok(r.resolution)
        && over == GameOverOf(r.players, true)
        && started == over.None?
    {
      if !started || lastClaim.None? {
        return Err(NothingToCall), None;
      }
      var callerIdx := IndexOfId(players, callerId);
      var claimedIdx := IndexOfId(players, claimedPlayerId);
      if callerIdx == -1 || claimedIdx == -1 {
        return Err(InvalidPlayers), None;
      }
      res, over := Challenge(callerIdx, claimedIdx);
    }

    /** The part of `call_bluff` after its guards: resolve, re-clear both parties' flags, advance the turn. */
    method Challenge(callerIdx: nat, claimedIdx: nat) returns (res: Result<Resolution, Error>, over: Option<GameOver>)
      requires Valid() && started && lastClaim.Some?
      requires callerIdx < |players| && claimedIdx < |players|
      modifies this
      ensures Valid()
      ensures var r := Resolve(old(players), old(pile), old(lastClaim).value, callerIdx, claimedIdx);
        && players == r.players && pile == r.pile && lastClaim == None
        && turnIndex == NextTurnIndex(r.players, r.recipient)
        && res == Ok(r.resolution)
        && over == GameOverOf(r.players, true)
        && started == over.None?
    {
      var resolution;
      resolution, over := ResolveCall(callerIdx, claimedIdx);
      Unfinish(claimedIdx);
      Unfinish(callerIdx);
      NextTurn();
      res := Ok(resolution.value);
    }

    /** `if (players[i].hand.length > 0) players[i].finished = false`, which a valid room already satisfies. */
    method Unfinish(i: nat)
      requires Valid() && i < |players|
      modifies this`players
      ensures players == old(players)
    {
      if players[i].hand != [] {
        assert players[i] in players;
        players := players[i := players[i].(finished := false)];
      }
    }

    /**
     * `join_room` on an existing room: refused once the game has started or when
     * the socket already has a seat; otherwise a new unfinished guest seat with an
     * empty hand is appended.
     */
    method Join(playerId: string, socketId: string, name: string) returns (res: Result<(), Error>)
      requires Valid()
      modifies this
      ensures Valid()
      ensures old(started) ==> res == Err(GameAlreadyStarted) && unchanged(this)
      ensures !old(started) && HasSocket(old(players), socketId) ==> res == Err(AlreadyJoined) && unchanged(this)
      ensures !old(started) && !HasSocket(old(players), socketId) ==>
        && res == Ok(())
        && players == old(players) + [Player(playerId, socketId, OrElse(name, "Guest"), [], false, false)]
        && pile == old(pile) && lastClaim == old(lastClaim)
        && turnIndex == old(turnIndex) && started == old(started)
    {
      if started {
        return Err(GameAlreadyStarted);
      }
      if HasSocket(players, socketId) {
        return Err(AlreadyJoined);
      }
      players := players + [Player(playerId, socketId, OrElse(name, "Guest"), [], false, false)];
      res := Ok(());
    }
    /**
     * The seat-removal part of `removePlayerFromRoom`: the socket's seats go;
     * if seats remain and the turn pointer is past the end it returns to 0.
     */
    method DropSocket(socketId: string)
      requires Valid()
      modifies this`players, this`turnIndex
      ensures players == WithoutSocket(old(players), socketId)
      ensures turnIndex == if players != [] && old(turnIndex) >= |players| then 0 else old(turnIndex)
      ensures players != [] ==> Valid()
    {
      players := WithoutSocket(players, socketId);
      if |players| == 0 {
        return;
      }
      if turnIndex >= |players| {
        turnIndex := 0;
      }
    }
  }

  /** The mover after a play: they keep `kept`, and are finished once it is empty. */
  function Played(p: Player, kept: seq<Card>): (q: Player)
    ensures q.hand == kept && (q.finished <==> p.finished || kept == [])
    ensures q == p.(hand := q.hand, finished := q.finished)
  {
    p.(hand := kept, finished := p.finished || kept == [])
  }

  /** A play moves the played cards from the mover's hand to the pile and loses none. */
  lemma PlayConservesCards(ps: seq<Player>, pile: seq<Card>, idx: nat, cids: seq<string>)
    requires idx < |ps|
    ensures var picked := Pick(ps[idx].hand, cids);
      Held(ps[idx := Played(ps[idx], picked.kept)]) + multiset(pile + picked.played)
        == Held(ps) + multiset(pile)
  {
    var picked := Pick(ps[idx].hand, cids);
    PickConserves(ps[idx].hand, cids);
    HeldUpdate(ps, idx, Played(ps[idx], picked.kept));
    MoveCards(Held(ps[idx := Played(ps[idx], picked.kept)]), Held(ps), multiset(ps[idx].hand),
              multiset(picked.kept), multiset(picked.played), multiset(pile));
  }

  lemma MoveCards(after: multiset<Card>, before: multiset<Card>, h: multiset<Card>,
                  k: multiset<Card>, p: multiset<Card>, pile: multiset<Card>)
    requires after + h == before + k && k + p == h
    ensures after + (pile + p) == before + pile
  {
    forall e ensures (after + (pile + p))[e] == (before + pile)[e] {
      assert (after + h)[e] == (before + k)[e];
      assert (k + p)[e] == h[e];
    }
  }

  /** After a play the finished players still hold nothing and, in a game, the empty-handed are finished. */
  lemma FinishedStaysEmpty(ps: seq<Player>, idx: nat, cids: seq<string>)
    requires idx < |ps| && FinishedHandsEmpty(ps)
    ensures var kept := Pick(ps[idx].hand, cids).kept;
      && FinishedHandsEmpty(ps[idx := Played(ps[idx], kept)])
      && (EmptyHandsFinished(ps) ==> EmptyHandsFinished(ps[idx := Played(ps[idx], kept)]))
  {
    var kept := Pick(ps[idx].hand, cids).kept;
    PickConserves(ps[idx].hand, cids);
    assert ps[idx].hand == [] ==> |multiset(kept)| == 0;
    var ps' := ps[idx := Played(ps[idx], kept)];
    forall q | q in ps' ensures (q.finished ==> q.hand == []) && (EmptyHandsFinished(ps) && q.hand == [] ==> q.finished) {
      var j :| 0 <= j < |ps'| && ps'[j] == q;
      if j != idx {
        assert ps[j] in ps;
      } else {
        assert ps[idx] in ps;
      }
    }
  }

  /** A resolution keeps the finished players empty-handed and, in a game, the empty-handed finished. */
  lemma ResolveKeepsFlags(ps: seq<Player>, pile: seq<Card>, claim: Claim, callerIndex: nat, claimedIndex: nat)
    requires callerIndex < |ps| && claimedIndex < |ps| && FinishedHandsEmpty(ps)
    ensures var r := Resolve(ps, pile, claim, callerIndex, claimedIndex);
      && |r.players| == |ps| && r.recipient < |ps|
      && FinishedHandsEmpty(r.players)
      && (EmptyHandsFinished(ps) ==> EmptyHandsFinished(r.players))
  {
    var r := Resolve(ps, pile, claim, callerIndex, claimedIndex);
    forall q | q in r.players
      ensures (q.finished ==> q.hand == []) && (EmptyHandsFinished(ps) && q.hand == [] ==> q.finished)
    {
      var j :| 0 <= j < |r.players| && r.players[j] == q;
      assert ps[j] in ps;
    }
  }
}
