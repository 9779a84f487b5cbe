/** What `play_cards` computes: the cards it moves out of the hand and the claim it records. */
module Claims {
  import opened Common
  import opened Deck

  /** The `claim` object a client sends with a play; either field may be missing. */
  datatype ClaimRequest = ClaimRequest(rank: Option<string>, claimText: Option<string>)

  /** `room.lastClaim`: who played, the text shown, how many cards were moved, the rank asserted. */
  datatype Claim = Claim(playerId: string, claimText: string, count: nat, rank: Option<string>)

  /** `hand.findIndex(c => c.id === cid)`: the first position holding that id, or -1. */
  function IndexOfCard(hand: seq<Card>, cid: string): (r: int)
    ensures -1 <= r < |hand|
    ensures r == -1 <==> forall k :: 0 <= k < |hand| ==> hand[k].id != cid
    ensures r >= 0 ==> hand[r].id == cid && forall k :: 0 <= k < r ==> hand[k].id != cid
  {
    if hand == [] then -1
    else if hand[0].id == cid then 0
    else
      var t := IndexOfCard(hand[1..], cid);
      assert forall k :: 1 <= k < |hand| ==> hand[k] == hand[1..][k - 1];
      if t == -1 then -1 else t + 1
  }

  /** `hand.splice(i, 1)` on the hand. */
  function RemoveAt(hand: seq<Card>, i: nat): seq<Card>
    requires i < |hand|
  {
    hand[..i] + hand[i + 1..]
  }

  /** The hand left after a play, and the cards moved to the pile in the order they were taken. */
  datatype Picked = Picked(kept: seq<Card>, played: seq<Card>)

  /**
   * The loop over `cardIds`: each id takes the first card of the hand that
   * carries it; an id the hand no longer holds is skipped.
   */
  function Pick(hand: seq<Card>, cids: seq<string>): Picked
    decreases |cids|
  {
    if cids == [] then Picked(hand, [])
    else
      var i := IndexOfCard(hand, cids[0]);
      if i == -1 then Pick(hand, cids[1..])
      else
        var rest := Pick(RemoveAt(hand, i), cids[1..]);
        Picked(rest.kept, [hand[i]] + rest.played)
  }

  /**
   * The `for (const cid of cardIds)` loop of `play_cards`: each id splices the
   * first card carrying it out of the hand and pushes it onto `played`.
   */
  method TakeCards(hand0: seq<Card>, cardIds: seq<string>) returns (hand: seq<Card>, played: seq<Card>)
    ensures Picked(hand, played) == Pick(hand0, cardIds)
    ensures multiset(hand) + multiset(played) == multiset(hand0)
  {
    hand, played := hand0, [];
    var k := 0;
    while k < |cardIds|
      invariant 0 <= k <= |cardIds|
      invariant Pick(hand, cardIds[k..]).kept == Pick(hand0, cardIds).kept
      invariant played + Pick(hand, cardIds[k..]).played == Pick(hand0, cardIds).played
    {
      assert cardIds[k..][0] == cardIds[k] && cardIds[k..][1..] == cardIds[k + 1..];
      var i := IndexOfCard(hand, cardIds[k]);
      if i != -1 {
        played := played + [hand[i]];
        hand := RemoveAt(hand, i);
      }
      k := k + 1;
    }
    assert cardIds[|cardIds|..] == [];
    PickConserves(hand0, cardIds);
  }

  /** A play neither creates nor loses cards: what is kept and what is played make up the hand. */
  lemma {:induction false} PickConserves(hand: seq<Card>, cids: seq<string>)
    ensures multiset(Pick(hand, cids).kept) + multiset(Pick(hand, cids).played) == multiset(hand)
    decreases |cids|
  {
    if cids != [] {
      var i := IndexOfCard(hand, cids[0]);
      if i == -1 {
        PickConserves(hand, cids[1..]);
      } else {
        var h := RemoveAt(hand, i);
        var rest := Pick(h, cids[1..]);
        assert Pick(hand, cids) == Picked(rest.kept, [hand[i]] + rest.played);
        assert multiset(rest.kept) + multiset(rest.played) == multiset(h) by { PickConserves(h, cids[1..]); }
        assert multiset(h) + multiset{hand[i]} == multiset(hand) by { RemoveAtMultiset(hand, i); }
        assert multiset([hand[i]] + rest.played) == multiset{hand[i]} + multiset(rest.played);
        AddBack(multiset(rest.kept), multiset(rest.played), multiset(h), multiset{hand[i]}, multiset(hand));
      }
    }
  }

  lemma RemoveAtMultiset(hand: seq<Card>, i: nat)
    requires i < |hand|
    ensures multiset(RemoveAt(hand, i)) + multiset{hand[i]} == multiset(hand)
  {
    assert hand == hand[..i] + [hand[i]] + hand[i + 1..];
  }

  lemma AddBack(k: multiset<Card>, p: multiset<Card>, h: multiset<Card>, x: multiset<Card>, all: multiset<Card>)
    requires k + p == h && h + x == all
    ensures k + (x + p) == all
  {
    forall e ensures (k + (x + p))[e] == all[e] {
      assert (k + p)[e] == h[e];
      assert (h + x)[e] == all[e];
    }
  }

  lemma RemoveAtDistinct(hand: seq<Card>, i: nat)
    requires i < |hand| && DistinctIds(hand)
    ensures DistinctIds(RemoveAt(hand, i))
    ensures forall c :: c in RemoveAt(hand, i) <==> c in hand && c.id != hand[i].id
  {
    var r := RemoveAt(hand, i);
    assert forall k :: 0 <= k < |r| ==> r[k] == if k < i then hand[k] else hand[k + 1];
    forall c ensures c in r <==> c in hand && c.id != hand[i].id {
      if c in hand && c.id != hand[i].id {
        var k :| 0 <= k < |hand| && hand[k] == c;
        assert k != i;
        assert c == r[if k < i then k else k - 1];
      }
    }
  }

  lemma OnlyCardWithId(hand: seq<Card>, i: nat)
    requires i < |hand| && DistinctIds(hand)
    ensures forall c :: c in hand && c.id == hand[i].id ==> c == hand[i]
  {
    forall c | c in hand && c.id == hand[i].id ensures c == hand[i] {
      var k :| 0 <= k < |hand| && hand[k] == c;
      assert !(k < i || i < k);
    }
  }

  /** With distinct ids in the hand, a play keeps exactly the cards whose id is not listed. */
  lemma {:induction false} PickKeeps(hand: seq<Card>, cids: seq<string>)
    requires DistinctIds(hand)
    ensures forall c :: c in Pick(hand, cids).kept <==> c in hand && c.id !in cids
    decreases |cids|
  {
    if cids != [] {
      assert forall x :: x in cids <==> x == cids[0] || x in cids[1..];
      var i := IndexOfCard(hand, cids[0]);
      if i == -1 {
        PickKeeps(hand, cids[1..]);
      } else {
        RemoveAtDistinct(hand, i);
        PickKeeps(RemoveAt(hand, i), cids[1..]);
      }
    }
  }

  /** With distinct ids in the hand, a play moves exactly the cards whose id is listed. */
  lemma {:induction false} PickPlays(hand: seq<Card>, cids: seq<string>)
    requires DistinctIds(hand)
    ensures forall c :: c in Pick(hand, cids).played <==> c in hand && c.id in cids
    decreases |cids|
  {
    if cids != [] {
      assert forall x :: x in cids <==> x == cids[0] || x in cids[1..];
      var i := IndexOfCard(hand, cids[0]);
      if i == -1 {
        PickPlays(hand, cids[1..]);
      } else {
        RemoveAtDistinct(hand, i);
        OnlyCardWithId(hand, i);
        PickPlays(RemoveAt(hand, i), cids[1..]);
      }
    }
  }

  /** With distinct ids in the hand, no card is played twice, even when its id is listed twice. */
  lemma {:induction false} PickPlaysOnce(hand: seq<Card>, cids: seq<string>)
    requires DistinctIds(hand)
    ensures DistinctIds(Pick(hand, cids).played)
    decreases |cids|
  {
    if cids != [] {
      var i := IndexOfCard(hand, cids[0]);
      if i == -1 {
        PickPlaysOnce(hand, cids[1..]);
      } else {
        var h := RemoveAt(hand, i);
        RemoveAtDistinct(hand, i);
        PickPlaysOnce(h, cids[1..]);
        PickPlays(h, cids[1..]);
        ConsDistinct(hand[i], Pick(h, cids[1..]).played);
      }
    }
  }

  lemma ConsDistinct(c: Card, rest: seq<Card>)
    requires DistinctIds(rest) && forall x :: x in rest ==> x.id != c.id
    ensures DistinctIds([c] + rest)
  {
    var p := [c] + rest;
    forall a, b | 0 <= a < b < |p| ensures p[a].id != p[b].id {
      assert p[b] == rest[b - 1];
      if a > 0 {
        assert p[a] == rest[a - 1];
      }
    }
  }

  function Ids(cards: seq<Card>): seq<string>
  {
    seq(|cards|, k requires 0 <= k < |cards| => cards[k].id)
  }

  /** `a` is obtained from `b` by deleting elements. */
  predicate IsSubsequence(a: seq<string>, b: seq<string>)
    decreases |b|
  {
    a == [] || (b != [] && ((a[0] == b[0] && IsSubsequence(a[1..], b[1..])) || IsSubsequence(a, b[1..])))
  }

  /** The played cards go to the pile in `cardIds` order. */
  lemma {:induction false} PickInOrder(hand: seq<Card>, cids: seq<string>)
    ensures IsSubsequence(Ids(Pick(hand, cids).played), cids)
    decreases |cids|
  {
    if cids != [] {
      var i := IndexOfCard(hand, cids[0]);
      if i == -1 {
        PickInOrder(hand, cids[1..]);
      } else {
        var rp := Pick(RemoveAt(hand, i), cids[1..]).played;
        PickInOrder(RemoveAt(hand, i), cids[1..]);
        assert Ids([hand[i]] + rp)[1..] == Ids(rp);
      }
    }
  }

  /** `claim.rank || null`: a missing or empty rank asserts nothing. */
  function RankOf(req: ClaimRequest): (r: Option<string>)
    ensures r.Some? <==> req.rank.Some? && req.rank.value != ""
    ensures r.Some? ==> r == req.rank
  {
    if req.rank.Some? && req.rank.value != "" then req.rank else None
  }

  function DigitChar(d: nat): char
    requires d < 10
  {
    "0123456789"[d]
  }

  /** The decimal text of a count, as a template literal prints it. */
  function NatToString(n: nat): string
  {
    if n < 10 then [DigitChar(n)] else NatToString(n / 10) + [DigitChar(n % 10)]
  }

  /** The claim a play records: its count is the number of cards moved, not the pile size. */
  function ClaimFor(playerId: string, req: ClaimRequest, count: nat): (c: Claim)
    ensures c.playerId == playerId && c.count == count && c.rank == RankOf(req)
    ensures req.claimText.Some? && req.claimText.value != "" ==> c.claimText == req.claimText.value
  {
    var shown := if req.rank.Some? && req.rank.value != "" then req.rank.value else "?";
    var text := if req.claimText.Some? && req.claimText.value != "" then req.claimText.value
                else NatToString(count) + " x " + shown;
    Claim(playerId, text, count, RankOf(req))
  }
}
