/**
 * The bluff resolver (`resolveCall`): reveal the tail of the pile that the last
 * claim put there, judge the claim, and hand the revealed cards to the liar or
 * to the wrong accuser.
 */
module Bluff {
  import opened Common
  import opened Deck
  import opened Players
  import opened Claims

  /** Where a relative index lands in an array of length `len` (`slice` and `splice` clamp it). */
  function JsIndex(len: nat, rel: int): (k: nat)
    ensures k <= len
  {
    if rel < 0 then (if len + rel < 0 then 0 else len + rel)
    else if rel < len then rel else len
  }

  /** `s.slice(start)`. */
  function JsSlice(s: seq<Card>, start: int): seq<Card>
  {
    s[JsIndex(|s|, start)..]
  }

  /** What `s.splice(start, deleteCount)` leaves in `s`. */
  function JsSplice(s: seq<Card>, start: int, deleteCount: int): seq<Card>
  {
    var k := JsIndex(|s|, start);
    var del := if deleteCount < 0 then 0 else if deleteCount < |s| - k then deleteCount else |s| - k;
    s[..k] + s[k + del..]
  }

  /** `pile.slice(-count)`; note that `-0` is `0`, so a count of zero reveals the whole pile. */
  function Revealed(pile: seq<Card>, count: nat): seq<Card>
  {
    JsSlice(pile, -(count as int))
  }

  /** The pile after `pile.splice(-count, count)`; a count of zero removes nothing. */
  function AfterReveal(pile: seq<Card>, count: nat): seq<Card>
  {
    JsSplice(pile, -(count as int), count)
  }

  /** How many cards a reveal of `count` takes from the end of a pile of length `len`. */
  function TailLength(len: nat, count: nat): nat
  {
    if count < len then count else len
  }

  /**
   * For a claim of at least one card the reveal is exactly the last
   * `min(count, |pile|)` cards, and what stays on the pile is everything before them.
   */
  lemma RevealTail(pile: seq<Card>, count: nat)
    requires count >= 1
    ensures Revealed(pile, count) == pile[|pile| - TailLength(|pile|, count)..]
    ensures AfterReveal(pile, count) == pile[..|pile| - TailLength(|pile|, count)]
    ensures AfterReveal(pile, count) + Revealed(pile, count) == pile
  {
    assert pile[..|pile| - TailLength(|pile|, count)] + pile[|pile| - TailLength(|pile|, count)..] == pile;
  }

  /** For a claim of no card the whole pile is revealed and nothing leaves it. */
  lemma RevealZero(pile: seq<Card>)
    ensures Revealed(pile, 0) == pile
    ensures AfterReveal(pile, 0) == pile
  {
    assert pile[..0] + pile[0..] == pile;
  }

  /** JavaScript truthiness of the claimed rank: `null` and `""` are falsy. */
  predicate Truthy(rank: Option<string>)
  {
    rank.Some? && rank.value != ""
  }

  /** Some card of `cards` has a rank other than `rank`. */
  predicate HasOtherRank(cards: seq<Card>, rank: string)
  {
    exists i :: 0 <= i < |cards| && cards[i].rank != rank
  }

  /** `revealed.some(c => last.rank ? (c.rank !== last.rank) : false)`. */
  function AnyDiffers(revealed: seq<Card>, rank: Option<string>): bool
  {
    if revealed == [] then false
    else (if Truthy(rank) then revealed[0].rank != rank.value else false) || AnyDiffers(revealed[1..], rank)
  }

  /**
   * The claim is judged a lie exactly when it asserts a rank and some revealed
   * card has another rank; a claim without a rank is never a lie.
   */
  lemma {:induction false} AnyDiffersIff(revealed: seq<Card>, rank: Option<string>)
    ensures AnyDiffers(revealed, rank) <==> Truthy(rank) && HasOtherRank(revealed, rank.value)
    ensures !Truthy(rank) ==> !AnyDiffers(revealed, rank)
  {
    if revealed != [] {
      AnyDiffersIff(revealed[1..], rank);
      assert forall i :: 1 <= i < |revealed| ==> revealed[i] == revealed[1..][i - 1];
    }
  }

  datatype Verdict = Liar | Wrong

  /** What `resolveCall` reports: which branch fired, who picked the cards up, and how many. */
  datatype Resolution = Resolution(result: Verdict, who: string, picked: nat)

  /** The players and the pile after a resolution, the seat that received the cards, and the report. */
  datatype Resolved = Resolved(players: seq<Player>, pile: seq<Card>, recipient: nat, resolution: Resolution)

  /** The card moves of `resolveCall` for a pending claim. */
  function Resolve(players: seq<Player>, pile: seq<Card>, claim: Claim, callerIndex: nat, claimedIndex: nat): Resolved
    requires callerIndex < |players| && claimedIndex < |players|
  {
    var revealed := Revealed(pile, claim.count);
    var liar := AnyDiffers(revealed, claim.rank);
    var who := if liar then claimedIndex else callerIndex;
    var hand := players[who].hand + revealed;
    var p := players[who].(hand := hand, finished := if |hand| > 0 then false else players[who].finished);
    Resolved(players[who := p], AfterReveal(pile, claim.count), who,
             Resolution(if liar then Liar else Wrong, p.id, |revealed|))
  }

  /**
   * The verdict: `liar`, and the claimed player receives the cards, exactly when
   * the claim names a rank that some revealed card does not have; otherwise
   * `wrong`, and the caller receives them. The report names the recipient and
   * counts the revealed cards, which are the whole pile for a count of zero.
   */
  lemma ResolveVerdict(players: seq<Player>, pile: seq<Card>, claim: Claim, callerIndex: nat, claimedIndex: nat)
    requires callerIndex < |players| && claimedIndex < |players|
    ensures var r := Resolve(players, pile, claim, callerIndex, claimedIndex);
      && (r.resolution.result == Liar <==>
            Truthy(claim.rank) && HasOtherRank(Revealed(pile, claim.count), claim.rank.value))
      && (!Truthy(claim.rank) ==> r.resolution.result == Wrong)
      && r.recipient == (if r.resolution.result == Liar then claimedIndex else callerIndex)
      && r.resolution.who == players[r.recipient].id
      && r.resolution.picked == (if claim.count == 0 then |pile| else TailLength(|pile|, claim.count))
  {
    AnyDiffersIff(Revealed(pile, claim.count), claim.rank);
    if claim.count == 0 {
      RevealZero(pile);
    } else {
      RevealTail(pile, claim.count);
    }
  }

  /**
   * Reveal locality: for a claim of at least one card, only the last
   * `min(count, |pile|)` cards leave the pile, they are appended to the
   * recipient's hand, the recipient is no longer finished if that hand is
   * non-empty, and every other seat is untouched.
   */
  lemma ResolveLocality(players: seq<Player>, pile: seq<Card>, claim: Claim, callerIndex: nat, claimedIndex: nat)
    requires callerIndex < |players| && claimedIndex < |players| && claim.count >= 1
    ensures var r := Resolve(players, pile, claim, callerIndex, claimedIndex);
      var n := TailLength(|pile|, claim.count);
      && r.pile == pile[..|pile| - n]
      && |r.players| == |players|
      && r.players[r.recipient].hand == players[r.recipient].hand + pile[|pile| - n..]
      && r.players[r.recipient].finished == (players[r.recipient].finished && r.players[r.recipient].hand == [])
      && r.players[r.recipient] == players[r.recipient].(hand := r.players[r.recipient].hand,
                                                         finished := r.players[r.recipient].finished)
      && forall j :: 0 <= j < |players| && j != r.recipient ==> r.players[j] == players[j]
  {
    RevealTail(pile, claim.count);
  }

  /** Card conservation: for a claim of at least one card, the hands and the pile keep their multiset. */
  lemma ResolveConserves(players: seq<Player>, pile: seq<Card>, claim: Claim, callerIndex: nat, claimedIndex: nat)
    requires callerIndex < |players| && claimedIndex < |players| && claim.count >= 1
    ensures var r := Resolve(players, pile, claim, callerIndex, claimedIndex);
      Held(r.players) + multiset(r.pile) == Held(players) + multiset(pile)
  {
    var r := Resolve(players, pile, claim, callerIndex, claimedIndex);
    var w := r.recipient;
    var revealed := Revealed(pile, claim.count);
    RevealTail(pile, claim.count);
    HeldUpdate(players, w, r.players[w]);
    assert r.players == players[w := r.players[w]];
    assert multiset(r.players[w].hand) == multiset(players[w].hand) + multiset(revealed);
    assert multiset(pile) == multiset(r.pile) + multiset(revealed);
    ExchangeCards(Held(r.players), Held(players), multiset(players[w].hand), multiset(revealed), multiset(r.pile));
  }

  /**
   * A claim of no card is resolved as if it covered the whole pile: the recipient
   * receives a copy of every pile card while the pile stays as it was, so the
   * room then holds every pile card twice.
   */
  lemma ResolveZeroCopiesPile(players: seq<Player>, pile: seq<Card>, claim: Claim, callerIndex: nat, claimedIndex: nat)
    requires callerIndex < |players| && claimedIndex < |players| && claim.count == 0
    ensures var r := Resolve(players, pile, claim, callerIndex, claimedIndex);
      && r.pile == pile
      && r.players[r.recipient].hand == players[r.recipient].hand + pile
      && Held(r.players) + multiset(r.pile) == Held(players) + multiset(pile) + multiset(pile)
  {
    var r := Resolve(players, pile, claim, callerIndex, claimedIndex);
    var w := r.recipient;
    RevealZero(pile);
    HeldUpdate(players, w, r.players[w]);
    assert r.players == players[w := r.players[w]];
    assert multiset(r.players[w].hand) == multiset(players[w].hand) + multiset(pile);
    ExchangeCards(Held(r.players), Held(players), multiset(players[w].hand), multiset(pile), multiset{});
  }

  /** If seat `w` traded hand `h` for `h + x`, the held cards grew by `x`. */
  lemma ExchangeCards(after: multiset<Card>, before: multiset<Card>, h: multiset<Card>, x: multiset<Card>, rest: multiset<Card>)
    requires after + h == before + (h + x)
    ensures after + rest == before + (rest + x)
  {
    forall e ensures (after + rest)[e] == (before + (rest + x))[e] {
      assert (after + h)[e] == (before + (h + x))[e];
    }
  }
}
