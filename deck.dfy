/** The deck factory: four ranks times four suits, and the Fisher-Yates shuffle. */
module Deck {

  datatype Card = Card(rank: string, suit: string, id: string)

  const SUITS: seq<string> := ["♠", "♥", "♦", "♣"]
  const RANKS: seq<string> := ["A", "J", "Q", "K"]
  const DECK_SIZE: nat := 16

  /**
   * The card pushed at position `k` of the deck: suits form the outer loop and
   * ranks the inner one. `suffix(k)` stands for the random tail of its id.
   */
  function CardAt(k: nat, suffix: nat -> string): Card
    requires k < DECK_SIZE
  {
    var r := RANKS[k % |RANKS|];
    var s := SUITS[k / |RANKS|];
    Card(r, s, r + s + suffix(k))
  }

  function MakeDeck(suffix: nat -> string): seq<Card>
  {
    seq(DECK_SIZE, k requires 0 <= k < DECK_SIZE => CardAt(k, suffix))
  }

  /** No two positions of a sequence hold cards with the same id. */
  predicate DistinctIds(cards: seq<Card>)
  {
    forall i, j :: 0 <= i < j < |cards| ==> cards[i].id != cards[j].id
  }

  /**
   * The deck holds sixteen cards, one for every (rank, suit) pair, and their ids
   * are pairwise distinct whatever the random suffixes are, because every id
   * starts with its card's one-character rank and one-character suit.
   */
  lemma MakeDeckComplete(suffix: nat -> string)
    ensures |MakeDeck(suffix)| == DECK_SIZE == |RANKS| * |SUITS|
    ensures forall k :: 0 <= k < DECK_SIZE ==>
      MakeDeck(suffix)[k].rank in RANKS && MakeDeck(suffix)[k].suit in SUITS
    ensures forall r, s :: r in RANKS && s in SUITS ==>
      exists k :: 0 <= k < DECK_SIZE && MakeDeck(suffix)[k].rank == r && MakeDeck(suffix)[k].suit == s
    ensures forall i, j :: 0 <= i < j < DECK_SIZE ==>
      (MakeDeck(suffix)[i].rank, MakeDeck(suffix)[i].suit) != (MakeDeck(suffix)[j].rank, MakeDeck(suffix)[j].suit)
    ensures DistinctIds(MakeDeck(suffix))
  {
    var d := MakeDeck(suffix);
    forall r, s | r in RANKS && s in SUITS
      ensures exists k :: 0 <= k < DECK_SIZE && d[k].rank == r && d[k].suit == s
    {
      var ri :| 0 <= ri < 4 && RANKS[ri] == r;
      var si :| 0 <= si < 4 && SUITS[si] == s;
      var k := 4 * si + ri;
      assert k % 4 == ri && k / 4 == si;
      assert d[k].rank == r && d[k].suit == s;
    }
    forall i, j | 0 <= i < j < DECK_SIZE
      ensures (d[i].rank, d[i].suit) != (d[j].rank, d[j].suit)
      ensures d[i].id != d[j].id
    {
      assert i % 4 != j % 4 || i / 4 != j / 4;
      assert d[i].id[0] == d[i].rank[0] && d[i].id[1] == d[i].suit[0];
      assert d[j].id[0] == d[j].rank[0] && d[j].id[1] == d[j].suit[0];
    }
  }

  function Swap(s: seq<Card>, i: nat, j: nat): seq<Card>
    requires i < |s| && j < |s|
  {
    s[i := s[j]][j := s[i]]
  }

  /** Draws for a Fisher-Yates pass over `n` elements: the draw for index `i` lies in `[0, i]`. */
  predicate ValidDraws(js: seq<int>, n: nat)
  {
    |js| == n && forall i :: 0 <= i < n ==> 0 <= js[i] <= i
  }

  /**
   * What the descending Fisher-Yates loop leaves in `s` once it has still to
   * visit the indices `k - 1` down to `1`, swapping index `i` with `js[i]`.
   */
  function Shuffled(s: seq<Card>, js: seq<int>, k: nat): (r: seq<Card>)
    requires k <= |s| && k <= |js|
    requires forall i :: 0 <= i < k ==> 0 <= js[i] <= i
    ensures |r| == |s|
    decreases k
  {
    if k <= 1 then s else Shuffled(Swap(s, k - 1, js[k - 1]), js, k - 1)
  }

  /** The shuffle rearranges: same length, same multiset of cards. */
  lemma {:induction false} ShuffledPermutes(s: seq<Card>, js: seq<int>, k: nat)
    requires k <= |s| && k <= |js|
    requires forall i :: 0 <= i < k ==> 0 <= js[i] <= i
    ensures multiset(Shuffled(s, js, k)) == multiset(s)
    decreases k
  {
    if k > 1 {
      var t := Swap(s, k - 1, js[k - 1]);
      SwapPermutes(s, k - 1, js[k - 1]);
      ShuffledPermutes(t, js, k - 1);
    }
  }

  lemma SwapPermutes(s: seq<Card>, i: nat, j: nat)
    requires i < |s| && j < |s|
    ensures |Swap(s, i, j)| == |s| && multiset(Swap(s, i, j)) == multiset(s)
  {
    var t := s[i := s[j]];
    assert multiset(t) == multiset(s) - multiset{s[i]} + multiset{s[j]};
    assert multiset(t[j := s[i]]) == multiset(t) - multiset{t[j]} + multiset{s[i]};
  }

  /** The in-place shuffle; `js` holds the draws `Math.floor(Math.random() * (i + 1))`. */
  method Shuffle(a: array<Card>, js: seq<int>)
    requires ValidDraws(js, a.Length)
    modifies a
    ensures a[..] == Shuffled(old(a[..]), js, a.Length)
    ensures multiset(a[..]) == multiset(old(a[..]))
  {
    var i := a.Length - 1;
    while i > 0
      invariant -1 <= i < a.Length
      invariant Shuffled(a[..], js, i + 1) == Shuffled(old(a[..]), js, a.Length)
    {
      var j := js[i];
      a[i], a[j] := a[j], a[i];
      i := i - 1;
    }
    ShuffledPermutes(old(a[..]), js, a.Length);
  }
}
