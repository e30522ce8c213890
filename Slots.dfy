/** The slot pointer of the draw: the pair (round, poolIndex) that app.js
    keeps in `state.round` and `state.poolIndex`, read by `nextSlot` and
    moved by `advanceSlotPointer`. Pools are filled 0..5 once per round,
    and the k-th draw uses entry `round * 6 + poolIndex` of the order. */
module Slots {

  const Pools: nat := 6
  const Rounds: nat := 4
  const Teams: nat := 24

  datatype Slot = Slot(round: int, poolIndex: int)

  /** The position in the draw order that a slot reads (`orderIndex`):
      for a slot of a round 0, 1, ... and a pool 0..5, the round is the
      quotient of the position by 6 and the pool its remainder. */
  function Index(s: Slot): (k: int)
    ensures 0 <= s.round && 0 <= s.poolIndex < Pools ==>
              0 <= k && k / Pools == s.round && k % Pools == s.poolIndex
  {
    s.round * Pools + s.poolIndex
  }

  /** The slot filled by the k-th draw (counting from 0). */
  function SlotOf(k: nat): (s: Slot) {
    Slot(k / Pools, k % Pools)
  }

  /** `advanceSlotPointer` on a pointer value: next pool in the same round,
      or pool 0 of the next round once all six pools had their turn. */
  function Advanced(s: Slot): (r: Slot)
    ensures 0 <= s.poolIndex < Pools ==> 0 <= r.poolIndex < Pools
    ensures 0 <= s.poolIndex < Pools ==> Index(r) == Index(s) + 1
    ensures 0 <= s.poolIndex < Pools ==>
              (r.round == s.round + 1 <==> s.poolIndex == Pools - 1) &&
              (r.round == s.round <==> s.poolIndex < Pools - 1)
  {
    if s.poolIndex + 1 >= Pools then Slot(s.round + 1, 0)
    else Slot(s.round, s.poolIndex + 1)
  }

  /** Where the pointer is after `k` advances from (0, 0), the pointer that
      `prepareOrder` leaves. */
  function Walk(k: nat): (s: Slot) {
    if k == 0 then Slot(0, 0) else Advanced(Walk(k - 1))
  }

  /** Slot and order index are two views of one position. */
  lemma IndexRoundTrip(k: nat, s: Slot)
    ensures Index(SlotOf(k)) == k && 0 <= SlotOf(k).poolIndex < Pools
    ensures 0 <= s.round && 0 <= s.poolIndex < Pools ==> SlotOf(Index(s)) == s
  {
    if 0 <= s.round && 0 <= s.poolIndex < Pools {
      var n := Index(s);
      assert n / Pools == s.round && n % Pools == s.poolIndex by {
        assert n == s.round * Pools + s.poolIndex;
      }
    }
  }

  /** One advance moves from the slot of draw k to the slot of draw k + 1. */
  lemma AdvancedSlotOf(k: nat)
    ensures Advanced(SlotOf(k)) == SlotOf(k + 1)
  {
    IndexRoundTrip(k, Advanced(SlotOf(k)));
  }

  /** Successive advances from (0, 0) visit (0,0), (0,1), ..., (0,5), (1,0), ...:
      after k advances the pointer is the slot of draw k. */
  lemma {:induction false} WalkVisitsSlotsInOrder(k: nat)
    ensures Walk(k) == SlotOf(k)
  {
    if k > 0 {
      WalkVisitsSlotsInOrder(k - 1);
      AdvancedSlotOf(k - 1);
    }
  }

  /** The 24 draws stay within rounds 0..3 and pools 0..5, and after them the
      pointer stands at round 4, where `nextSlot` reports the end. */
  lemma DrawsStayInRange(k: nat)
    requires k < Teams
    ensures 0 <= Walk(k).round < Rounds && 0 <= Walk(k).poolIndex < Pools
    ensures Walk(Teams) == Slot(Rounds, 0)
  {
    WalkVisitsSlotsInOrder(k);
    WalkVisitsSlotsInOrder(Teams);
  }

  /** Each (round, pool) slot is filled by exactly one of the 24 draws. */
  lemma EachSlotFilledOnce(r: int, p: int, k: nat)
    requires 0 <= r < Rounds && 0 <= p < Pools && k < Teams
    ensures Walk(k) == Slot(r, p) <==> k == r * Pools + p
  {
    WalkVisitsSlotsInOrder(k);
    IndexRoundTrip(k, Slot(r, p));
  }

  /** Round-robin fill: a pool is revisited only in a later round, so every
      pool gets one team before any pool gets a second. */
  lemma PoolRevisitedInLaterRound(k1: nat, k2: nat)
    requires k1 < k2 && Walk(k1).poolIndex == Walk(k2).poolIndex
    ensures Walk(k1).round < Walk(k2).round
  {
    WalkVisitsSlotsInOrder(k1);
    WalkVisitsSlotsInOrder(k2);
    IndexRoundTrip(k1, Slot(0, 0));
    IndexRoundTrip(k2, Slot(0, 0));
  }

  /** Over the 24 draws each pool receives exactly four teams, one per round. */
  lemma PoolReceivesFour(p: int)
    requires 0 <= p < Pools
    ensures (set k: nat | k < Teams && Walk(k).poolIndex == p) == {p, p + 6, p + 12, p + 18}
    ensures |(set k: nat | k < Teams && Walk(k).poolIndex == p)| == Rounds
  {
    forall k: nat | k < Teams ensures Walk(k).poolIndex == p <==> k in {p, p + 6, p + 12, p + 18} {
      WalkVisitsSlotsInOrder(k);
    }
    var four := {p, p + 6, p + 12, p + 18};
    assert |four| == 4 by {
      assert four == {p} + {p + 6} + {p + 12} + {p + 18};
    }
  }
}
