/** Round-robin dealing, as `dealCards` does it: pop the deck's last card onto the next seat. */
module Dealing {
  import opened Arithmetic
  import opened Deck
  import opened Players

  /**
   * The hands of `n` seats after `d` pops from `deck`, and the seat the next pop
   * goes to: the `t`-th pop takes `deck[|deck| - 1 - t]` and gives it to seat
   * `t % n`, so the seats take turns in order and wrap round.
   */
  function DealState(deck: seq<Card>, n: nat, d: nat): (st: (seq<seq<Card>>, nat))
    requires n > 0 && d <= |deck|
    ensures |st.0| == n && st.1 < n
  {
    if d == 0 then (NoHands(n), 0)
    else
      var (hs, s) := DealState(deck, n, d - 1);
      (hs[s := hs[s] + [deck[|deck| - d]]], if s + 1 == n then 0 else s + 1)
  }

  /** The hands after `d` pops. */
  function Deal(deck: seq<Card>, n: nat, d: nat): (hs: seq<seq<Card>>)
    requires n > 0 && d <= |deck|
    ensures |hs| == n
  {
    DealState(deck, n, d).0
  }

  /** One more pop appends the deck's next card to the hand of the seat whose turn it is. */
  lemma DealNext(deck: seq<Card>, n: nat, d: nat)
    requires n > 0 && d < |deck|
    ensures var (hs, s) := DealState(deck, n, d);
      && Deal(deck, n, d + 1) == hs[s := hs[s] + [deck[|deck| - 1 - d]]]
      && DealState(deck, n, d + 1).1 == if s + 1 == n then 0 else s + 1
  {
  }

  /**
   * After `d` pops every seat holds `d / n` cards, and the seats below `d % n`
   * hold one more: sizes differ by at most one, lower seats get the extra cards.
   */
  lemma DealSizes(deck: seq<Card>, n: nat, d: nat)
    requires n > 0 && d <= |deck|
    ensures forall p :: 0 <= p < n ==> |Deal(deck, n, d)[p]| == d / n + (if p < d % n then 1 else 0)
  {
    forall p | 0 <= p < n
      ensures |Deal(deck, n, d)[p]| == d / n + (if p < d % n then 1 else 0)
    {
      DealSizeAt(deck, n, d, p);
    }
  }

  lemma DealSizeAt(deck: seq<Card>, n: nat, d: nat, p: nat)
    requires n > 0 && d <= |deck| && p < n
    ensures |Deal(deck, n, d)[p]| == d / n + (if p < d % n then 1 else 0)
  {
    DealSizeRounds(deck, n, d, p);
    RoundsCount(deck, n, d);
    DivModUnique(d, n, Rounds(deck, n, d), DealState(deck, n, d).1);
  }

  /** The full rounds of the table completed after `d` pops. */
  function Rounds(deck: seq<Card>, n: nat, d: nat): nat
    requires n > 0 && d <= |deck|
  {
    if d == 0 then 0
    else Rounds(deck, n, d - 1) + (if DealState(deck, n, d - 1).1 + 1 == n then 1 else 0)
  }

  /** `d` pops are `Rounds` full rounds followed by as many pops as the next seat's number. */
  lemma {:induction false} RoundsCount(deck: seq<Card>, n: nat, d: nat)
    requires n > 0 && d <= |deck|
    ensures d == Rounds(deck, n, d) * n + DealState(deck, n, d).1
  {
    if d > 0 {
      var r, s := Rounds(deck, n, d - 1), DealState(deck, n, d - 1).1;
      RoundsCount(deck, n, d - 1);
      DealNext(deck, n, d - 1);
      if s + 1 == n {
        assert (r + 1) * n == r * n + n;
      }
    }
  }

  /** Each seat holds one card per full round, plus one for the seats the current round has reached. */
  lemma {:induction false} DealSizeRounds(deck: seq<Card>, n: nat, d: nat, p: nat)
    requires n > 0 && d <= |deck| && p < n
    ensures |Deal(deck, n, d)[p]| == Rounds(deck, n, d) + (if p < DealState(deck, n, d).1 then 1 else 0)
  {
    if d > 0 {
      DealSizeRounds(deck, n, d - 1, p);
      DealNext(deck, n, d - 1);
    }
  }

  /** The dealt hands together hold exactly the `d` cards popped from the end of the deck. */
  lemma {:induction false} DealUnion(deck: seq<Card>, n: nat, d: nat)
    requires n > 0 && d <= |deck|
    ensures Union(Deal(deck, n, d)) == multiset(deck[|deck| - d..])
  {
    if d == 0 {
      EmptyUnion(n);
      assert Deal(deck, n, 0) == NoHands(n);
      assert deck[|deck|..] == [];
    } else {
      var hs, s := Deal(deck, n, d - 1), DealState(deck, n, d - 1).1;
      var c := deck[|deck| - d];
      var tail := deck[|deck| - (d - 1)..];
      assert Deal(deck, n, d) == hs[s := hs[s] + [c]] by { DealNext(deck, n, d - 1); }
      assert Union(hs) == multiset(tail) by { DealUnion(deck, n, d - 1); }
      assert Union(hs[s := hs[s] + [c]]) == Union(hs) + multiset{c} by { AddCard(hs, s, c); }
      assert deck[|deck| - d..] == [c] + tail;
      calc {
        Union(Deal(deck, n, d));
        Union(hs[s := hs[s] + [c]]);
        Union(hs) + multiset{c};
        multiset(tail) + multiset{c};
        multiset([c] + tail);
      }
    }
  }

  lemma AddCard(hs: seq<seq<Card>>, s: nat, c: Card)
    requires s < |hs|
    ensures Union(hs[s := hs[s] + [c]]) == Union(hs) + multiset{c}
  {
    UnionUpdate(hs, s, hs[s] + [c]);
    assert multiset(hs[s] + [c]) == multiset(hs[s]) + multiset{c};
    var u', u := Union(hs[s := hs[s] + [c]]), Union(hs);
    assert u' + multiset(hs[s]) == (u + multiset{c}) + multiset(hs[s]);
    Cancel(u', u + multiset{c}, multiset(hs[s]));
  }

  function NoHands(n: nat): seq<seq<Card>>
  {
    seq(n, _ => [])
  }

  lemma Cancel(a: multiset<Card>, b: multiset<Card>, x: multiset<Card>)
    requires a + x == b + x
    ensures a == b
  {
    forall e ensures a[e] == b[e] {
      assert (a + x)[e] == (b + x)[e];
    }
  }

  lemma {:induction false} EmptyUnion(n: nat)
    ensures Union(NoHands(n)) == multiset{}
  {
    if n > 0 {
      EmptyUnion(n - 1);
      assert NoHands(n)[..n - 1] == NoHands(n - 1);
    }
  }

  /** Dealing a whole deck partitions it among the seats, with the sizes `DealSizes` gives. */
  lemma DealAll(deck: seq<Card>, n: nat)
    requires n > 0
    ensures Union(Deal(deck, n, |deck|)) == multiset(deck)
    ensures forall p :: 0 <= p < n ==>
      |Deal(deck, n, |deck|)[p]| == |deck| / n + (if p < |deck| % n then 1 else 0)
  {
    DealUnion(deck, n, |deck|);
    assert deck[0..] == deck;
    DealSizes(deck, n, |deck|);
  }

  /** The deck `dealCards` deals: a fresh deck, shuffled with the draws `js`. */
  function ShuffledDeck(suffix: nat -> string, js: seq<int>): seq<Card>
    requires ValidDraws(js, DECK_SIZE)
  {
    Shuffled(MakeDeck(suffix), js, DECK_SIZE)
  }

  /** The hands `dealCards` leaves at `n` seats. */
  function DealtHands(suffix: nat -> string, js: seq<int>, n: nat): seq<seq<Card>>
    requires ValidDraws(js, DECK_SIZE) && n > 0
  {
    Deal(ShuffledDeck(suffix, js), n, DECK_SIZE)
  }

  /**
   * Dealing a freshly built and shuffled deck to `n` seats partitions the sixteen
   * cards among them, seat `p` receiving `16 / n` cards plus one when `p < 16 % n`.
   */
  lemma DealtHandsPartition(suffix: nat -> string, js: seq<int>, n: nat)
    requires ValidDraws(js, DECK_SIZE) && n > 0
    ensures |DealtHands(suffix, js, n)| == n
    ensures Union(DealtHands(suffix, js, n)) == multiset(MakeDeck(suffix))
    ensures forall p :: 0 <= p < n ==>
      |DealtHands(suffix, js, n)[p]| == DECK_SIZE / n + (if p < DECK_SIZE % n then 1 else 0)
  {
    var deck := ShuffledDeck(suffix, js);
    MakeDeckComplete(suffix);
    ShuffledPermutes(MakeDeck(suffix), js, DECK_SIZE);
    DealAll(deck, n);
  }
  /** The deal is balanced: an earlier seat never has fewer cards than a later one, and at most one more. */
  lemma DealtHandsBalanced(suffix: nat -> string, js: seq<int>, n: nat, p: nat, q: nat)
    requires ValidDraws(js, DECK_SIZE) && p < q < n
    ensures |DealtHands(suffix, js, n)[q]| <= |DealtHands(suffix, js, n)[p]| <= |DealtHands(suffix, js, n)[q]| + 1
  {
    DealtHandsPartition(suffix, js, n);
  }

  /** The seats `start_game` leaves: cleared, dealt, and finished exactly where no card arrived. */
  function StartedSeats(ps: seq<Player>, suffix: nat -> string, js: seq<int>): (r: seq<Player>)
    requires |ps| > 0 && ValidDraws(js, DECK_SIZE)
    ensures |r| == |ps|
  {
    MarkEmpty(WithHands(Cleared(ps), DealtHands(suffix, js, |ps|)))
  }

  /**
   * After `start_game` the seats keep their identities, hold between them exactly
   * the sixteen cards of the new deck, seat `p` holding `16 / n` cards plus one
   * when `p < 16 % n`, and a seat is finished exactly when it received no card.
   */
  lemma StartedSeatsDeal(ps: seq<Player>, suffix: nat -> string, js: seq<int>)
    requires |ps| > 0 && ValidDraws(js, DECK_SIZE)
    ensures var r := StartedSeats(ps, suffix, js);
      && Held(r) == multiset(MakeDeck(suffix))
      && FinishedHandsEmpty(r) && EmptyHandsFinished(r)
      && forall p :: 0 <= p < |ps| ==>
           && r[p].id == ps[p].id && r[p].socketId == ps[p].socketId
           && r[p].name == ps[p].name && r[p].isHost == ps[p].isHost
           && r[p].hand == DealtHands(suffix, js, |ps|)[p]
           && |r[p].hand| == DECK_SIZE / |ps| + (if p < DECK_SIZE % |ps| then 1 else 0)
  {
    var r := StartedSeats(ps, suffix, js);
    DealtHandsPartition(suffix, js, |ps|);
    assert Hands(r) == DealtHands(suffix, js, |ps|);
    forall q | q in r ensures q.finished <==> q.hand == [] {
      var p :| 0 <= p < |r| && r[p] == q;
    }
  }
}
