/** Players of a room and the queries the handlers run over the player list. */
module Players {
  import opened Deck

  /**
   * A seat at the table. `hand` is owned by this player alone; `finished` marks a
   * player who emptied their hand and is skipped by the turn rotation.
   */
  datatype Player = Player(
    id: string,
    socketId: string,
    name: string,
    hand: seq<Card>,
    isHost: bool,
    finished: bool)

  /** The hands of the players, seat by seat. */
  function Hands(ps: seq<Player>): seq<seq<Card>>
  {
    seq(|ps|, i requires 0 <= i < |ps| => ps[i].hand)
  }

  /** The multiset union of a sequence of hands. */
  function Union(hs: seq<seq<Card>>): multiset<Card>
  {
    if hs == [] then multiset{} else Union(hs[..|hs| - 1]) + multiset(hs[|hs| - 1])
  }

  /** Replacing one hand swaps its cards for the new hand's cards in the union. */
  lemma {:induction false} UnionUpdate(hs: seq<seq<Card>>, i: nat, h: seq<Card>)
    requires i < |hs|
    ensures Union(hs[i := h]) + multiset(hs[i]) == Union(hs) + multiset(h)
    decreases |hs|
  {
    var n := |hs| - 1;
    var hs' := hs[i := h];
    assert hs'[..n] == if i == n then hs[..n] else hs[..n][i := h];
    if i < n {
      UnionUpdate(hs[..n], i, h);
      assert hs[..n][i] == hs[i] && hs'[n] == hs[n];
      calc {
        Union(hs') + multiset(hs[i]);
        Union(hs[..n][i := h]) + multiset(hs[n]) + multiset(hs[i]);
        (Union(hs[..n][i := h]) + multiset(hs[..n][i])) + multiset(hs[n]);
        (Union(hs[..n]) + multiset(h)) + multiset(hs[n]);
        Union(hs) + multiset(h);
      }
    }
  }

  lemma HandsUpdate(ps: seq<Player>, i: nat, h: seq<Card>)
    requires i < |ps|
    ensures Hands(ps[i := ps[i].(hand := h)]) == Hands(ps)[i := h]
  {
  }

  /** The players with their hands replaced, seat by seat, by `hs`. */
  function WithHands(ps: seq<Player>, hs: seq<seq<Card>>): (r: seq<Player>)
    requires |hs| == |ps|
    ensures |r| == |ps|
  {
    seq(|ps|, i requires 0 <= i < |ps| => ps[i].(hand := hs[i]))
  }

  lemma WithHandsUpdate(ps: seq<Player>, hs: seq<seq<Card>>, i: nat, h: seq<Card>)
    requires |hs| == |ps| && i < |ps|
    ensures WithHands(ps, hs)[i := WithHands(ps, hs)[i].(hand := h)] == WithHands(ps, hs[i := h])
  {
  }

  /** The players with empty hands and no finished marks, as a new deal starts them. */
  function Cleared(ps: seq<Player>): (r: seq<Player>)
    ensures |r| == |ps|
  {
    seq(|ps|, i requires 0 <= i < |ps| => ps[i].(hand := [], finished := false))
  }

  /** `players.forEach(p => { if (p.hand.length === 0) p.finished = true; })`. */
  function MarkEmpty(ps: seq<Player>): (r: seq<Player>)
    ensures |r| == |ps|
  {
    seq(|ps|, i requires 0 <= i < |ps| => ps[i].(finished := ps[i].finished || ps[i].hand == []))
  }

  /** A finished player holds no card. */
  predicate FinishedHandsEmpty(ps: seq<Player>)
  {
    forall p :: p in ps && p.finished ==> p.hand == []
  }

  /** A player holding no card is finished. */
  predicate EmptyHandsFinished(ps: seq<Player>)
  {
    forall p :: p in ps && p.hand == [] ==> p.finished
  }

  /** All cards held by the players. */
  function Held(ps: seq<Player>): multiset<Card>
  {
    Union(Hands(ps))
  }

  /** Giving seat `i` the hand `h` changes the held cards by exactly that exchange. */
  lemma {:induction false} HeldUpdate(ps: seq<Player>, i: nat, p: Player)
    requires i < |ps|
    ensures Held(ps[i := p]) + multiset(ps[i].hand) == Held(ps) + multiset(p.hand)
  {
    assert Hands(ps[i := p]) == Hands(ps)[i := p.hand];
    UnionUpdate(Hands(ps), i, p.hand);
  }

  /** `players.filter(p => !p.finished)`. */
  function Active(ps: seq<Player>): seq<Player>
  {
    if ps == [] then [] else (if ps[0].finished then [] else [ps[0]]) + Active(ps[1..])
  }

  /** No player is active exactly when every player is finished. */
  lemma {:induction false} ActiveEmpty(ps: seq<Player>)
    ensures |Active(ps)| == 0 <==> forall i :: 0 <= i < |ps| ==> ps[i].finished
  {
    if ps != [] {
      ActiveEmpty(ps[1..]);
      if !ps[0].finished {
        assert !ps[0].finished;
      } else {
        assert forall i :: 1 <= i < |ps| ==> ps[i] == ps[1..][i - 1];
      }
    }
  }

  /** Exactly one player is active exactly when one seat is unfinished and every other seat is finished. */
  lemma {:induction false} ActiveSingle(ps: seq<Player>, i: nat)
    requires i < |ps|
    ensures (|Active(ps)| == 1 && Active(ps)[0] == ps[i] && !ps[i].finished)
        <== (!ps[i].finished && forall j :: 0 <= j < |ps| && j != i ==> ps[j].finished)
  {
    if !ps[i].finished && forall j :: 0 <= j < |ps| && j != i ==> ps[j].finished {
      if i == 0 {
        ActiveEmpty(ps[1..]);
      } else {
        assert ps[0].finished;
        assert forall j :: 0 <= j < |ps| - 1 && j != i - 1 ==> ps[1..][j] == ps[j + 1];
        ActiveSingle(ps[1..], i - 1);
      }
    }
  }

  /** When exactly one player is active, it sits at some seat and every other seat is finished. */
  lemma {:induction false} ActiveSingleSeat(ps: seq<Player>) returns (i: nat)
    requires |Active(ps)| == 1
    ensures i < |ps| && !ps[i].finished && Active(ps)[0] == ps[i]
    ensures forall j :: 0 <= j < |ps| && j != i ==> ps[j].finished
  {
    assert ps != [];
    if ps[0].finished {
      var k := ActiveSingleSeat(ps[1..]);
      i := k + 1;
      forall j | 0 <= j < |ps| && j != i ensures ps[j].finished {
        if j > 0 { assert ps[j] == ps[1..][j - 1]; }
      }
    } else {
      i := 0;
      ActiveEmpty(ps[1..]);
      forall j | 0 < j < |ps| ensures ps[j].finished {
        assert ps[j] == ps[1..][j - 1];
      }
    }
  }

  /** With two or more active players, someone other than any given seat is unfinished. */
  lemma OtherActive(ps: seq<Player>, idx: nat) returns (j: nat)
    requires idx < |ps| && |Active(ps)| >= 2
    ensures j < |ps| && j != idx && !ps[j].finished
  {
    if forall k :: 0 <= k < |ps| && k != idx ==> ps[k].finished {
      if ps[idx].finished {
        ActiveEmpty(ps);
      } else {
        ActiveSingle(ps, idx);
      }
      assert false;
    }
    j :| 0 <= j < |ps| && j != idx && !ps[j].finished;
  }

  /** `players.findIndex(p => p.id === id)`: the first seat with that id, or -1. */
  function IndexOfId(ps: seq<Player>, id: string): (r: int)
    ensures -1 <= r < |ps|
    ensures r == -1 <==> forall k :: 0 <= k < |ps| ==> ps[k].id != id
    ensures r >= 0 ==> ps[r].id == id && forall k :: 0 <= k < r ==> ps[k].id != id
  {
    if ps == [] then -1
    else if ps[0].id == id then 0
    else
      var t := IndexOfId(ps[1..], id);
      assert forall k :: 1 <= k < |ps| ==> ps[k] == ps[1..][k - 1];
      if t == -1 then -1 else t + 1
  }

  /** `'p_' + socket.id.slice(0, 6)`: a player's id is derived from their socket's id. */
  function PlayerIdFor(socketId: string): (r: string)
    ensures |r| == 2 + (if |socketId| < 6 then |socketId| else 6)
    ensures r[..2] == "p_" && r[2..] <= socketId
  {
    "p_" + socketId[..if |socketId| < 6 then |socketId| else 6]
  }

  /** `players.find(p => p.socketId === socketId)` found something. */
  predicate HasSocket(ps: seq<Player>, socketId: string)
  {
    exists i :: 0 <= i < |ps| && ps[i].socketId == socketId
  }

  /** The seats whose socket differs from `socketId`, as increasing positions. */
  ghost function KeptSeats(ps: seq<Player>, socketId: string): (pos: seq<nat>)
    ensures forall k :: 0 <= k < |pos| ==> pos[k] < |ps|
    ensures forall k, l :: 0 <= k < l < |pos| ==> pos[k] < pos[l]
    ensures forall i :: 0 <= i < |ps| ==> (i in pos <==> ps[i].socketId != socketId)
  {
    if ps == [] then []
    else
      var rest := KeptSeats(ps[1..], socketId);
      var shifted := Shift(rest);
      ShiftMembers(rest, |ps|);
      assert forall i :: 1 <= i < |ps| ==> ps[i] == ps[1..][i - 1];
      if ps[0].socketId == socketId then shifted else [0] + shifted
  }

  /** Every position moved one seat on. */
  ghost function Shift(pos: seq<nat>): (r: seq<nat>)
    ensures |r| == |pos|
    ensures forall k :: 0 <= k < |r| ==> r[k] == pos[k] + 1
  {
    seq(|pos|, k requires 0 <= k < |pos| => pos[k] + 1)
  }

  lemma ShiftMembers(pos: seq<nat>, n: nat)
    ensures forall i :: 1 <= i < n ==> (i in Shift(pos) <==> i - 1 in pos)
    ensures 0 !in Shift(pos)
  {
    var r := Shift(pos);
    forall i | 1 <= i < n && i - 1 in pos
      ensures i in r
    {
      var k :| 0 <= k < |pos| && pos[k] == i - 1;
      assert r[k] == i;
    }
  }

  /** `players.filter(p => p.socketId !== socketId)`: the seats of other sockets. */
  function WithoutSocket(ps: seq<Player>, socketId: string): (r: seq<Player>)
    ensures |r| <= |ps|
    ensures forall p :: p in r <==> p in ps && p.socketId != socketId
    ensures !HasSocket(r, socketId)
  {
    if ps == [] then []
    else
      var rest := WithoutSocket(ps[1..], socketId);
      assert forall p :: p in ps <==> p == ps[0] || p in ps[1..];
      if ps[0].socketId == socketId then rest else [ps[0]] + rest
  }

  /** The filter keeps the other sockets' seats in their old order, which is the turn order. */
  lemma {:induction false} WithoutSocketKeepsOrder(ps: seq<Player>, socketId: string)
    ensures var r, pos := WithoutSocket(ps, socketId), KeptSeats(ps, socketId);
      |r| == |pos| && forall k :: 0 <= k < |r| ==> r[k] == ps[pos[k]]
  {
    if ps != [] {
      WithoutSocketKeepsOrder(ps[1..], socketId);
      var rest, pos := WithoutSocket(ps[1..], socketId), KeptSeats(ps[1..], socketId);
      if ps[0].socketId == socketId {
        ShiftedPositions(ps, rest, pos);
      } else {
        ConsPositions(ps, rest, pos);
      }
    }
  }

  /** Positions into `ps[1..]` are positions into `ps`, one further on. */
  lemma ShiftedPositions(ps: seq<Player>, rest: seq<Player>, pos: seq<nat>)
    requires |ps| > 0 && |rest| == |pos|
    requires forall k :: 0 <= k < |rest| ==> pos[k] < |ps| - 1 && rest[k] == ps[1..][pos[k]]
    ensures forall k :: 0 <= k < |rest| ==> rest[k] == ps[Shift(pos)[k]]
  {
    forall k | 0 <= k < |rest|
      ensures rest[k] == ps[Shift(pos)[k]]
    {
      assert ps[1..][pos[k]] == ps[pos[k] + 1];
    }
  }

  /** Keeping the first seat as well puts position 0 in front. */
  lemma ConsPositions(ps: seq<Player>, rest: seq<Player>, pos: seq<nat>)
    requires |ps| > 0 && |rest| == |pos|
    requires forall k :: 0 <= k < |rest| ==> pos[k] < |ps| - 1 && rest[k] == ps[1..][pos[k]]
    ensures var r, keep := [ps[0]] + rest, [0] + Shift(pos);
      |r| == |keep| && forall k :: 0 <= k < |r| ==> r[k] == ps[keep[k]]
  {
    ShiftedPositions(ps, rest, pos);
    var r, keep := [ps[0]] + rest, [0] + Shift(pos);
    forall k | 1 <= k < |r|
      ensures r[k] == ps[keep[k]]
    {
      assert r[k] == rest[k - 1];
      assert keep[k] == Shift(pos)[k - 1];
    }
  }

  /** Removing a socket that holds no seat changes nothing, so the removal is idempotent. */
  lemma {:induction false} WithoutSocketIdempotent(ps: seq<Player>, socketId: string)
    ensures WithoutSocket(WithoutSocket(ps, socketId), socketId) == WithoutSocket(ps, socketId)
  {
    WithoutAbsent(WithoutSocket(ps, socketId), socketId);
  }

  lemma {:induction false} WithoutAbsent(ps: seq<Player>, socketId: string)
    requires !HasSocket(ps, socketId)
    ensures WithoutSocket(ps, socketId) == ps
  {
    if ps != [] {
      assert ps[0].socketId != socketId;
      assert !HasSocket(ps[1..], socketId) by {
        forall i | 0 <= i < |ps[1..]| ensures ps[1..][i].socketId != socketId {
          assert ps[1..][i] == ps[i + 1];
        }
      }
      WithoutAbsent(ps[1..], socketId);
      assert ps == [ps[0]] + ps[1..];
    }
  }

  /** A player id names at most one seat. */
  predicate DistinctPlayerIds(ps: seq<Player>)
  {
    forall i, j :: 0 <= i < j < |ps| ==> ps[i].id != ps[j].id
  }
}
