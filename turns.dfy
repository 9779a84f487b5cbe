/** The turn scheduler (`nextTurn`) and game-over detection (`checkLastPlayer`). */
module Turns {
  import opened Arithmetic
  import opened Common
  import opened Players

  /**
   * The scan of `nextTurn` from offset `i`: the first of `(idx + i) % n`,
   * `(idx + i + 1) % n`, ..., `(idx + n) % n` whose player is unfinished, or
   * `idx` itself when the scan runs out.
   */
  function ScanFrom(ps: seq<Player>, idx: nat, i: nat): nat
    requires |ps| > 0
    decreases |ps| + 1 - i
  {
    if i > |ps| then idx
    else if !ps[Cand(idx, i, |ps|)].finished then Cand(idx, i, |ps|)
    else ScanFrom(ps, idx, i + 1)
  }

  /** `(idx + i) % len`, the candidate seat at offset `i`. */
  function Cand(idx: nat, i: nat, n: nat): (c: nat)
    requires n > 0
    ensures c < n
  {
    (idx + i) % n
  }

  /** The turn index `nextTurn` leaves behind. */
  function NextTurnIndex(ps: seq<Player>, idx: nat): nat
    requires |ps| > 0
  {
    if |Active(ps)| <= 1 then idx else ScanFrom(ps, idx, 1)
  }

  /** Seat `j` lies strictly after `from` and strictly before `to`, going round the table. */
  predicate StrictlyBetween(from: nat, to: nat, j: nat)
  {
    if from < to then from < j < to else from < j || j < to
  }

  lemma CandWrap(idx: nat, i: nat, n: nat)
    requires idx < n && i <= n
    ensures Cand(idx, i, n) == if idx + i < n then idx + i else idx + i - n
  {
    var x := idx + i;
    if x < n {
      DivModUnique(x, n, 0, x);
    } else {
      DivModUnique(x, n, 1, x - n);
    }
  }

  /** If an unfinished seat is reachable at offset `k >= i`, the scan stops at the first one. */
  lemma {:induction false} ScanFinds(ps: seq<Player>, idx: nat, i: nat, k: nat) returns (k0: nat)
    requires idx < |ps| && 1 <= i <= k <= |ps|
    requires !ps[Cand(idx, k, |ps|)].finished
    ensures i <= k0 <= k && ScanFrom(ps, idx, i) == Cand(idx, k0, |ps|)
    ensures !ps[Cand(idx, k0, |ps|)].finished
    ensures forall m :: i <= m < k0 ==> ps[Cand(idx, m, |ps|)].finished
    decreases k - i
  {
    if !ps[Cand(idx, i, |ps|)].finished {
      k0 := i;
    } else {
      k0 := ScanFinds(ps, idx, i + 1, k);
    }
  }

  /**
   * With at least two active players, `nextTurn` moves to a different, unfinished
   * seat in range, and every seat it skipped on the way round is finished.
   */
  lemma NextTurnLands(ps: seq<Player>, idx: nat)
    requires idx < |ps| && |Active(ps)| >= 2
    ensures NextTurnIndex(ps, idx) < |ps|
    ensures NextTurnIndex(ps, idx) != idx
    ensures !ps[NextTurnIndex(ps, idx)].finished
    ensures forall j :: 0 <= j < |ps| && StrictlyBetween(idx, NextTurnIndex(ps, idx), j) ==> ps[j].finished
  {
    var n := |ps|;
    var j := OtherActive(ps, idx);
    var k := if j > idx then j - idx else j + n - idx;
    CandWrap(idx, k, n);
    var k0 := ScanFinds(ps, idx, 1, k);
    var r := NextTurnIndex(ps, idx);
    CandWrap(idx, k0, n);
    assert r == Cand(idx, k0, n);
    forall m | 0 <= m < n && StrictlyBetween(idx, r, m) ensures ps[m].finished {
      var off := if m > idx then m - idx else m + n - idx;
      CandWrap(idx, off, n);
      assert 1 <= off < k0;
    }
  }

  /** With at most one active player `nextTurn` leaves the turn where it was. */
  lemma NextTurnStays(ps: seq<Player>, idx: nat)
    requires |ps| > 0 && |Active(ps)| <= 1
    ensures NextTurnIndex(ps, idx) == idx
  {
  }

  datatype PlayerRef = PlayerRef(id: string, name: string)

  /** The `game_over` payload. */
  datatype GameOver = GameOver(loserId: string, loserName: string, winners: seq<PlayerRef>)

  /** `players.filter(p => p.id !== loserId).map(p => ({ id, name }))`. */
  function Winners(ps: seq<Player>, loserId: string): seq<PlayerRef>
  {
    if ps == [] then []
    else (if ps[0].id == loserId then [] else [PlayerRef(ps[0].id, ps[0].name)]) + Winners(ps[1..], loserId)
  }

  function Refs(ps: seq<Player>): seq<PlayerRef>
  {
    seq(|ps|, i requires 0 <= i < |ps| => PlayerRef(ps[i].id, ps[i].name))
  }

  /** Seat `i` is the only unfinished seat. */
  predicate SoleActive(ps: seq<Player>, i: int)
  {
    0 <= i < |ps| && !ps[i].finished && forall j :: 0 <= j < |ps| && j != i ==> ps[j].finished
  }

  /** The decision part of `checkLastPlayer`: the payload it emits, if it fires. */
  function GameOverOf(ps: seq<Player>, started: bool): Option<GameOver>
  {
    var active := Active(ps);
    if |active| == 1 && started then
      Some(GameOver(active[0].id, active[0].name, Winners(ps, active[0].id)))
    else None
  }

  /** With distinct ids, the winners are every seat but the loser's, in seat order. */
  lemma {:induction false} WinnersAreOthers(ps: seq<Player>, i: nat)
    requires i < |ps| && DistinctPlayerIds(ps)
    ensures Winners(ps, ps[i].id) == Refs(ps[..i] + ps[i + 1..])
  {
    if i == 0 {
      WinnersNone(ps[1..], ps[0].id);
      assert ps[..0] + ps[1..] == ps[1..];
    } else {
      var t := ps[1..];
      assert t[i - 1] == ps[i];
      assert DistinctPlayerIds(t) by {
        forall a, b | 0 <= a < b < |t| ensures t[a].id != t[b].id {
          assert t[a] == ps[a + 1] && t[b] == ps[b + 1];
        }
      }
      WinnersAreOthers(t, i - 1);
      assert ps[0].id != ps[i].id;
      assert ps[..i] + ps[i + 1..] == [ps[0]] + (t[..i - 1] + t[i..]);
      RefsCons(ps[0], t[..i - 1] + t[i..]);
    }
  }

  lemma RefsCons(p: Player, ps: seq<Player>)
    ensures Refs([p] + ps) == [PlayerRef(p.id, p.name)] + Refs(ps)
  {
  }

  lemma {:induction false} WinnersNone(ps: seq<Player>, loserId: string)
    requires forall k :: 0 <= k < |ps| ==> ps[k].id != loserId
    ensures Winners(ps, loserId) == Refs(ps)
  {
    if ps != [] {
      WinnersNone(ps[1..], loserId);
      RefsCons(ps[0], ps[1..]);
      assert [ps[0]] + ps[1..] == ps;
    }
  }

  /**
   * `checkLastPlayer` fires exactly when the room is started and exactly one seat
   * is unfinished; it then names that seat as the loser.
   */
  lemma GameOverFires(ps: seq<Player>, started: bool)
    ensures GameOverOf(ps, started).Some? <==> started && exists i :: SoleActive(ps, i)
    ensures GameOverOf(ps, started).Some? ==>
      exists i :: SoleActive(ps, i) &&
        GameOverOf(ps, started).value.loserId == ps[i].id &&
        GameOverOf(ps, started).value.loserName == ps[i].name &&
        GameOverOf(ps, started).value.winners == Winners(ps, ps[i].id)
  {
    if |Active(ps)| == 1 {
      var i := ActiveSingleSeat(ps);
      assert SoleActive(ps, i);
    } else if exists i :: SoleActive(ps, i) {
      var i :| SoleActive(ps, i);
      ActiveSingle(ps, i);
      assert false;
    }
  }
}
