/** The blockhash storage of the update loop: `LatestBlockhashStorage` in `rpc_solana.rs`. */
module Storage {
  import opened Wrappers
  import opened Geyser
  import opened Collections

  const MAX_RECENT_BLOCKHASHES: nat := 300

  // The storage starts pruning when it counts more Finalized slots than this.
  const MAX_FINALIZED: nat := MAX_RECENT_BLOCKHASHES + 10

  datatype BlockhashSlot = BlockhashSlot(hash: Hash, height: nat, commitment: CommitmentLevel)

  type Slots = map<Slot, BlockhashSlot>

  datatype State = State(
    slots: Slots,
    finalizedTotal: nat,
    slotProcessed: Slot,
    slotConfirmed: Slot,
    slotFinalized: Slot)

  const INITIAL := State(map[], 0, 0, 0, 0)

  function FinalizedKeys(slots: Slots): set<Slot> {
    set s | s in slots && slots[s].commitment == Finalized
  }

  /** The entries at or above `floor`. */
  function From(slots: Slots, floor: Slot): Slots {
    map s | s in slots && s >= floor :: slots[s]
  }

  function WithBlock(st: State, slot: Slot, height: nat, hash: Hash): State {
    st.(slots := st.slots[slot := BlockhashSlot(hash, height, Processed)])
  }

  /** A status changes only a stored slot; the Processed pointer alone never moves back. */
  function WithCommitment(st: State, slot: Slot, commitment: CommitmentLevel): State {
    if slot !in st.slots then st
    else
      var marked := st.(slots := st.slots[slot := st.slots[slot].(commitment := commitment)]);
      match commitment
      case Processed => if slot > st.slotProcessed then marked.(slotProcessed := slot) else marked
      case Confirmed => marked.(slotConfirmed := slot)
      case Finalized => marked.(finalizedTotal := st.finalizedTotal + 1, slotFinalized := slot)
  }

  /** What pruning amounts to: once the counter exceeds the bound, everything up to and including the
      smallest Finalized slot is dropped, and that slot is no longer counted. */
  function Pruned(st: State): State {
    if st.finalizedTotal <= MAX_FINALIZED || FinalizedKeys(st.slots) == {} then st
    else st.(slots := From(st.slots, MinOf(FinalizedKeys(st.slots)) + 1), finalizedTotal := st.finalizedTotal - 1)
  }

  function Apply(st: State, m: GeyserMessage): State {
    match m
    case Status(slot, commitment) => Pruned(WithCommitment(st, slot, commitment))
    case Block(_, slot, hash, _, height, _, _, _) => WithBlock(st, slot, height, hash)
  }

  function Run(log: seq<GeyserMessage>): State {
    if log == [] then INITIAL else Apply(Run(log[..|log| - 1]), log[|log| - 1])
  }

  lemma RunStep(log: seq<GeyserMessage>, m: GeyserMessage)
    ensures Run(log + [m]) == Apply(Run(log), m)
  {
    assert (log + [m])[..|log|] == log;
  }

  /** The counter may exceed the number of stored Finalized slots, but never the bound. */
  ghost predicate Sound(st: State) {
    |FinalizedKeys(st.slots)| <= st.finalizedTotal <= MAX_FINALIZED
  }

  /** By how much the counter exceeds the number of stored Finalized slots. */
  ghost function Drift(st: State): int {
    st.finalizedTotal - |FinalizedKeys(st.slots)|
  }

  /** The message concerns a slot that is stored as Finalized. */
  ghost predicate HitsFinalized(st: State, m: GeyserMessage) {
    m.slot in FinalizedKeys(st.slots)
  }

  ghost function FinalizedHits(log: seq<GeyserMessage>): nat {
    if log == [] then 0
    else
      var earlier := log[..|log| - 1];
      FinalizedHits(earlier) + if HitsFinalized(Run(earlier), log[|log| - 1]) then 1 else 0
  }

  lemma HitsAdd(log: seq<GeyserMessage>, m: GeyserMessage)
    ensures FinalizedHits(log + [m]) == FinalizedHits(log) + if HitsFinalized(Run(log), m) then 1 else 0
  {
    assert (log + [m])[..|log|] == log;
  }

  lemma FinalizedKeysAfterUpdate(slots: Slots, slot: Slot, value: BlockhashSlot)
    ensures FinalizedKeys(slots[slot := value])
            == if value.commitment == Finalized then FinalizedKeys(slots) + {slot} else FinalizedKeys(slots) - {slot}
  {
  }

  lemma FinalizedKeysAfterPrune(st: State)
    requires st.finalizedTotal > MAX_FINALIZED && FinalizedKeys(st.slots) != {}
    ensures FinalizedKeys(Pruned(st).slots) == FinalizedKeys(st.slots) - {MinOf(FinalizedKeys(st.slots))}
  {
  }

  /** Setting the commitment of a stored slot: what happens to the counter and to the Finalized keys. */
  lemma CommitmentStep(st: State, slot: Slot, commitment: CommitmentLevel)
    requires Sound(st)
    ensures var marked := WithCommitment(st, slot, commitment);
            Drift(marked) == Drift(st) + (if slot in FinalizedKeys(st.slots) then 1 else 0)
            && 0 <= Drift(marked)
            && marked.finalizedTotal <= MAX_FINALIZED + 1
            && (marked.finalizedTotal > MAX_FINALIZED ==> slot in FinalizedKeys(marked.slots))
  {
    if slot in st.slots {
      FinalizedKeysAfterUpdate(st.slots, slot, st.slots[slot].(commitment := commitment));
    }
  }

  /** For every message in every sound state: the state stays sound, and the drift grows by one exactly
      when the message concerns a slot already stored as Finalized. */
  lemma DriftStep(st: State, m: GeyserMessage)
    requires Sound(st)
    ensures Sound(Apply(st, m))
    ensures Drift(Apply(st, m)) == Drift(st) + if HitsFinalized(st, m) then 1 else 0
  {
    match m
    case Block(_, slot, hash, _, height, _, _, _) =>
      FinalizedKeysAfterUpdate(st.slots, slot, BlockhashSlot(hash, height, Processed));
    case Status(slot, commitment) =>
      CommitmentStep(st, slot, commitment);
      var marked := WithCommitment(st, slot, commitment);
      if marked.finalizedTotal > MAX_FINALIZED {
        FinalizedKeysAfterPrune(marked);
      }
  }

  /** Every run, whatever the messages: the counter is bounded and its excess is the number of messages
      that concerned a slot already stored as Finalized. */
  lemma {:induction false} DriftCountsHits(log: seq<GeyserMessage>)
    ensures Sound(Run(log))
    ensures Drift(Run(log)) == FinalizedHits(log)
  {
    if log == [] {
      assert FinalizedKeys(map[]) == {};
    } else {
      DriftCountsHits(log[..|log| - 1]);
      DriftStep(Run(log[..|log| - 1]), log[|log| - 1]);
    }
  }

  class LatestBlockhashStorage {
    var slots: Slots
    var finalizedTotal: nat
    var slotProcessed: Slot
    var slotConfirmed: Slot
    var slotFinalized: Slot

    ghost function Abs(): State
      reads this
    {
      State(slots, finalizedTotal, slotProcessed, slotConfirmed, slotFinalized)
    }

    ghost predicate Valid()
      reads this
    {
      Sound(Abs())
    }

    constructor ()
      ensures Valid() && Abs() == INITIAL
    {
      slots := map[];
      finalizedTotal := 0;
      slotProcessed, slotConfirmed, slotFinalized := 0, 0, 0;
      assert FinalizedKeys(map[]) == {};
    }

    method PushBlock(slot: Slot, height: nat, hash: Hash)
      requires Valid()
      modifies this
      ensures Valid() && Abs() == WithBlock(old(Abs()), slot, height, hash)
    {
      FinalizedKeysAfterUpdate(slots, slot, BlockhashSlot(hash, height, Processed));
      slots := slots[slot := BlockhashSlot(hash, height, Processed)];
    }

    /** Ends for every history of the storage: the counter passes the bound only when a Finalized slot
        has just been stored. */
    method UpdateCommitment(slot: Slot, commitment: CommitmentLevel)
      requires Valid()
      modifies this
      ensures Valid() && Abs() == Pruned(WithCommitment(old(Abs()), slot, commitment))
    {
      CommitmentStep(Abs(), slot, commitment);
      DriftStep(Abs(), Status(slot, commitment));
      if slot in slots {
        slots := slots[slot := slots[slot].(commitment := commitment)];
        if commitment == Processed && slot > slotProcessed {
          slotProcessed := slot;
        } else if commitment == Confirmed {
          slotConfirmed := slot;
        } else if commitment == Finalized {
          finalizedTotal := finalizedTotal + 1;
          slotFinalized := slot;
        }
      }
      Prune();
    }

    /** The pruning loop of `update_commitment`: pops the smallest slots one at a time. It ends whenever
        a counter above the bound comes with a stored Finalized slot. */
    method Prune()
      requires finalizedTotal > MAX_FINALIZED ==> finalizedTotal == MAX_FINALIZED + 1 && FinalizedKeys(slots) != {}
      modifies this
      ensures Abs() == Pruned(old(Abs()))
    {
      ghost var marked := Abs();
      ghost var floor: Slot := 0;
      assert slots == From(slots, 0);
      while finalizedTotal > MAX_FINALIZED
        invariant finalizedTotal <= MAX_FINALIZED ==> Abs() == Pruned(marked)
        invariant finalizedTotal > MAX_FINALIZED ==>
                    && Abs() == marked.(slots := From(marked.slots, floor))
                    && FinalizedKeys(marked.slots) != {} && floor <= MinOf(FinalizedKeys(marked.slots))
        decreases |slots|
      {
        ghost var least := MinOf(FinalizedKeys(marked.slots));
        assert least in slots;
        if slots != map[] {
          var first := MinOf(slots.Keys);
          var value := slots[first];
          slots := slots - {first};
          assert slots == From(marked.slots, first + 1);
          floor := first + 1;
          if value.commitment == Finalized {
            assert first in FinalizedKeys(marked.slots);
            finalizedTotal := finalizedTotal - 1;
          }
        }
      }
    }
  }
}
