/** The rollback walk of `getLatestBlockhash` (`run_update_loop` in `rpc_solana.rs`). */
module Rollback {
  import opened Wrappers
  import opened Geyser
  import opened Collections
  import opened Storage

  /** `Underflow`: the walk would decrement slot 0. An overflow-checked build panics there; an
      unchecked one wraps to the largest slot. */
  datatype Outcome = Found(slot: Slot) | NotEnough | Underflow

  /** The largest stored slot under `below` whose height is one less than `height`. */
  function PrevByHeight(slots: Slots, below: Slot, height: nat): Option<Slot> {
    if below == 0 then None
    else if below - 1 in slots && slots[below - 1].height + 1 == height then Some(below - 1)
    else PrevByHeight(slots, below - 1, height)
  }

  /** The slots visited by a walk of `rollback` steps down from `start`; shorter if a step fails. */
  function Greedy(slots: Slots, start: Slot, rollback: nat): (chain: seq<Slot>)
    requires start in slots
    ensures |chain| > 0 && chain[0] == start && |chain| <= rollback + 1
    ensures chain[|chain| - 1] in slots
  {
    if rollback == 0 then [start]
    else
      match PrevByHeight(slots, start, slots[start].height)
      case None => [start]
      case Some(previous) =>
        PrevIsLargest(slots, start, slots[start].height);
        [start] + Greedy(slots, previous, rollback - 1)
  }

  function WalkOutcome(slots: Slots, start: Slot, rollback: nat): Outcome
    requires start in slots
  {
    var chain := Greedy(slots, start, rollback);
    if |chain| == rollback + 1 then Found(chain[rollback])
    else if 0 in slots then Underflow
    else NotEnough
  }

  /** Stored slots that descend strictly while the height drops by one at each step. */
  ghost predicate IsChain(slots: Slots, chain: seq<Slot>) {
    && chain != []
    && (forall i :: 0 <= i < |chain| ==> chain[i] in slots)
    && (forall i :: 0 <= i < |chain| - 1 ==>
          chain[i + 1] < chain[i] && slots[chain[i + 1]].height + 1 == slots[chain[i]].height)
  }

  ghost predicate ChainExists(slots: Slots, start: Slot, rollback: nat) {
    exists chain :: IsChain(slots, chain) && |chain| == rollback + 1 && chain[0] == start
  }

  ghost predicate EndsChain(slots: Slots, start: Slot, rollback: nat, found: Slot) {
    exists chain :: IsChain(slots, chain) && |chain| == rollback + 1 && chain[0] == start && chain[rollback] == found
  }

  lemma {:induction false} PrevIsLargest(slots: Slots, below: Slot, height: nat)
    ensures match PrevByHeight(slots, below, height)
            case None => forall s :: s in slots && s < below ==> slots[s].height + 1 != height
            case Some(p) => p in slots && p < below && slots[p].height + 1 == height
                            && forall s :: s in slots && p < s < below ==> slots[s].height + 1 != height
  {
    if below > 0 {
      PrevIsLargest(slots, below - 1, height);
    }
  }

  /** Soundness: what the walk visits is a chain. */
  lemma {:induction false} GreedyIsChain(slots: Slots, start: Slot, rollback: nat)
    requires start in slots
    ensures IsChain(slots, Greedy(slots, start, rollback))
  {
    if rollback > 0 {
      PrevIsLargest(slots, start, slots[start].height);
      match PrevByHeight(slots, start, slots[start].height)
      case None =>
      case Some(previous) => GreedyIsChain(slots, previous, rollback - 1);
    }
  }

  /** Completeness, by exchange: from any slot at or above the head of a chain and at the same height,
      the walk is as long as the chain and stays at or above it. */
  lemma {:induction false} GreedyDominates(slots: Slots, start: Slot, chain: seq<Slot>)
    requires IsChain(slots, chain) && start in slots
    requires start >= chain[0] && slots[start].height == slots[chain[0]].height
    ensures |Greedy(slots, start, |chain| - 1)| == |chain|
    ensures forall i :: 0 <= i < |chain| ==> Greedy(slots, start, |chain| - 1)[i] >= chain[i]
  {
    if |chain| > 1 {
      PrevIsLargest(slots, start, slots[start].height);
      assert chain[1] in slots && chain[1] < start && slots[chain[1]].height + 1 == slots[start].height;
      var previous := PrevByHeight(slots, start, slots[start].height).value;
      var rest := chain[1..];
      assert forall i :: 0 <= i < |rest| ==> rest[i] == chain[i + 1];
      GreedyDominates(slots, previous, rest);
    }
  }

  lemma {:induction false} ChainHeights(slots: Slots, chain: seq<Slot>, i: nat)
    requires IsChain(slots, chain) && i < |chain|
    ensures slots[chain[i]].height + i == slots[chain[0]].height
    ensures chain[i] + i <= chain[0]
  {
    if i > 0 {
      ChainHeights(slots, chain, i - 1);
      assert chain[(i - 1) + 1] == chain[i];
    }
  }

  /** The walk succeeds exactly when some chain of that length starts at the slot; the slot found is then
      the end of the pointwise largest chain, exactly `rollback` lower in height. */
  lemma WalkSoundAndComplete(slots: Slots, start: Slot, rollback: nat)
    requires start in slots
    ensures WalkOutcome(slots, start, rollback).Found? <==> ChainExists(slots, start, rollback)
    ensures WalkOutcome(slots, start, rollback).Found? ==>
              var found := WalkOutcome(slots, start, rollback).slot;
              && found in slots
              && slots[found].height == slots[start].height - rollback
              && EndsChain(slots, start, rollback, found)
              && forall chain :: IsChain(slots, chain) && |chain| == rollback + 1 && chain[0] == start
                   ==> found >= chain[rollback]
  {
    var greedy := Greedy(slots, start, rollback);
    GreedyIsChain(slots, start, rollback);
    if |greedy| == rollback + 1 {
      ChainHeights(slots, greedy, rollback);
    }
    forall chain | IsChain(slots, chain) && |chain| == rollback + 1 && chain[0] == start
      ensures |greedy| == rollback + 1 && greedy[rollback] >= chain[rollback]
    {
      GreedyDominates(slots, start, chain);
    }
  }

  /** The walk leaves the unsigned range exactly when slot 0 is stored and there is no chain. */
  lemma UnderflowIff(slots: Slots, start: Slot, rollback: nat)
    requires start in slots
    ensures WalkOutcome(slots, start, rollback) == Underflow <==> 0 in slots && !ChainExists(slots, start, rollback)
  {
    WalkSoundAndComplete(slots, start, rollback);
  }

  /** A reachable storage on which the walk decrements slot 0: only the block of slot 0 was pushed. */
  lemma UnderflowExample(genesis: GeyserMessage, rollback: nat)
    requires genesis.Block? && genesis.slot == 0 && rollback > 0
    ensures 0 in Run([genesis]).slots && WalkOutcome(Run([genesis]).slots, 0, rollback) == Underflow
  {
    assert [] + [genesis] == [genesis];
    RunStep([], genesis);
    assert Greedy(Run([genesis]).slots, 0, rollback) == [0];
  }

  // ----- Underflow in an unchecked build ----------------------------------------------------

  const U64_SIZE: nat := 0x1_0000_0000_0000_0000

  /** The inner loop: still searching with `slot` decremented so far, ended at a match, or given up. */
  datatype Search = Searching(slot: Slot) | Hit(slot: Slot) | GivenUp

  /** One iteration for a block one lower than `height`, where decrementing 0 wraps around. */
  function SearchStep(slots: Slots, slot: Slot, height: nat): Search {
    var next: Slot := if slot == 0 then U64_SIZE - 1 else slot - 1;
    if next in slots then
      if slots[next].height + 1 == height then Hit(next) else Searching(next)
    else if slots != map[] && next < MinOf(slots.Keys) then GivenUp
    else Searching(next)
  }

  /** At most `n` iterations. */
  function SearchRun(slots: Slots, start: Slot, height: nat, n: nat): Search {
    if n == 0 then Searching(start)
    else
      match SearchRun(slots, start, height, n - 1)
      case Searching(slot) => SearchStep(slots, slot, height)
      case Hit(slot) => Hit(slot)
      case GivenUp => GivenUp
  }

  predicate OneLower(slots: Slots, slot: Slot, height: nat) {
    slot in slots && slots[slot].height + 1 == height
  }

  lemma {:induction false} SearchDown(slots: Slots, start: Slot, height: nat, n: nat)
    requires 0 in slots && n <= start
    requires forall s: Slot :: start - n <= s < start ==> !OneLower(slots, s, height)
    ensures SearchRun(slots, start, height, n) == Searching(start - n)
  {
    if n > 0 {
      SearchDown(slots, start, height, n - 1);
      assert !OneLower(slots, start - n, height);
    }
  }

  /** Decrementing 0 goes on as if the search came from above the largest slot. */
  lemma {:induction false} SearchWraps(slots: Slots, start: Slot, height: nat, n: nat)
    requires SearchRun(slots, start, height, start) == Searching(0) && n > 0
    ensures SearchRun(slots, start, height, start + n) == SearchRun(slots, U64_SIZE, height, n)
  {
    if n > 1 {
      SearchWraps(slots, start, height, n - 1);
    } else {
      assert SearchRun(slots, U64_SIZE, height, 0) == Searching(U64_SIZE);
    }
  }

  lemma {:induction false} SearchNeverEnds(slots: Slots, start: Slot, height: nat, n: nat)
    requires 0 in slots && forall s: Slot :: !OneLower(slots, s, height)
    ensures SearchRun(slots, start, height, n).Searching?
  {
    if n > 0 {
      SearchNeverEnds(slots, start, height, n - 1);
      var slot := SearchRun(slots, start, height, n - 1).slot;
      assert !OneLower(slots, if slot == 0 then U64_SIZE - 1 else slot - 1, height);
    }
  }

  /** The wrapped search hits the largest stored slot of the height. */
  lemma SearchHits(slots: Slots, start: Slot, height: nat, found: Slot)
    requires 0 in slots && found < U64_SIZE && OneLower(slots, found, height)
    requires forall s: Slot :: s < start || found < s < U64_SIZE ==> !OneLower(slots, s, height)
    ensures SearchRun(slots, start, height, start + (U64_SIZE - found)) == Hit(found)
  {
    var n := U64_SIZE - found;
    SearchDown(slots, start, height, start);
    SearchDown(slots, U64_SIZE, height, n - 1);
    assert SearchRun(slots, U64_SIZE, height, n) == Hit(found);
    SearchWraps(slots, start, height, n);
  }

  /** The release build, whose arithmetic wraps, when slot 0 is stored and nothing below the start matches:
      the search hits the largest stored slot of the height, which is above its start, and never ends if
      there is none. */
  lemma UncheckedUnderflow(slots: Slots, start: Slot)
    requires 0 in slots && start in slots && PrevByHeight(slots, start, slots[start].height) == None
    requires forall s :: s in slots ==> s < U64_SIZE
    ensures var height := slots[start].height;
            match PrevByHeight(slots, U64_SIZE, height)
            case Some(found) =>
              start < found < U64_SIZE
              && SearchRun(slots, start, height, start + (U64_SIZE - found)) == Hit(found)
            case None => forall n: nat :: SearchRun(slots, start, height, n).Searching?
  {
    var height := slots[start].height;
    PrevIsLargest(slots, start, height);
    PrevIsLargest(slots, U64_SIZE, height);
    match PrevByHeight(slots, U64_SIZE, height)
    case Some(found) => SearchHits(slots, start, height, found);
    case None =>
      forall n: nat ensures SearchRun(slots, start, height, n).Searching? {
        SearchNeverEnds(slots, start, height, n);
      }
  }

  /** The nested loops of the request handler. `decrements` counts `slot -= 1` over all steps. */
  method Walk(slots: Slots, start: Slot, rollback: nat) returns (outcome: Outcome, ghost decrements: nat)
    requires start in slots
    ensures outcome == WalkOutcome(slots, start, rollback)
    ensures decrements <= start - MinOf(slots.Keys) + 1
  {
    var slot: Slot := start;
    var value := slots[slot];
    var firstAvailableSlot := MinOf(slots.Keys);
    decrements := 0;
    for step := 0 to rollback
      invariant slot in slots && value == slots[slot]
      invariant slot <= start && decrements == start - slot
      invariant WalkOutcome(slots, start, rollback) == WalkOutcome(slots, slot, rollback - step)
    {
      ghost var from: Slot := slot;
      var found := false;
      while !found
        invariant slot <= from && decrements == start - slot
        invariant found ==> PrevByHeight(slots, from, value.height) == Some(slot)
        invariant !found ==> PrevByHeight(slots, from, value.height) == PrevByHeight(slots, slot, value.height)
        invariant !found ==> slot >= firstAvailableSlot
        decreases !found, slot
      {
        if slot == 0 {
          outcome := Underflow;
          return;
        }
        slot := slot - 1;
        decrements := decrements + 1;
        if slot in slots {
          if slots[slot].height + 1 == value.height {
            found := true;
          }
        } else if slot < firstAvailableSlot {
          PrevIsLargest(slots, slot, value.height);
          outcome := NotEnough;
          return;
        }
      }
      PrevIsLargest(slots, from, value.height);
      WalkStep(slots, from, rollback - step);
      value := slots[slot];
    }
    outcome := Found(slot);
  }

  lemma WalkStep(slots: Slots, start: Slot, rollback: nat)
    requires start in slots && rollback > 0
    ensures match PrevByHeight(slots, start, slots[start].height)
            case None => !WalkOutcome(slots, start, rollback).Found?
            case Some(p) => p in slots && WalkOutcome(slots, start, rollback) == WalkOutcome(slots, p, rollback - 1)
  {
    PrevIsLargest(slots, start, slots[start].height);
  }
}
