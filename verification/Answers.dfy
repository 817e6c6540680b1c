/** What the answers of the update loop say, in terms of the fields of the storage, of the chains in it and of the
    messages received (`run_update_loop` in `rpc_solana.rs`). */
module Answers {
  import opened Wrappers
  import opened Geyser
  import opened Collections
  import opened Dedup
  import opened Storage
  import opened Rollback
  import opened Fees
  import opened Shares
  import opened Window
  import opened Pipeline
  import opened Pointers
  import opened UpdateLoop

  /** The pointer of a commitment. */
  ghost predicate IsTip(st: State, commitment: CommitmentLevel, slot: Slot) {
    match commitment
    case Processed => slot == st.slotProcessed
    case Confirmed => slot == st.slotConfirmed
    case Finalized => slot == st.slotFinalized
  }

  // ----- getLatestBlockhash -----------------------------------------------------------------

  /** The largest end of the chains of that length from the slot, its hash, and the last height at which that hash
      is valid. */
  ghost predicate HasBlockhash(slots: Slots, slot: Slot, rollback: nat, value: Value)
    requires slot in slots
  {
    value.Blockhash? &&
    var Blockhash(found, hash, lastValidBlockHeight) := value;
    && found in slots && EndsChain(slots, slot, rollback, found)
    && (forall chain :: IsChain(slots, chain) && |chain| == rollback + 1 && chain[0] == slot
          ==> found >= chain[rollback])
    && slots[found].height + rollback == slots[slot].height
    && hash == slots[found].hash
    && lastValidBlockHeight == slots[found].height + 300
  }

  ghost predicate BlockhashServed(st: State, head: Head, commitment: CommitmentLevel, rollback: nat,
                                  minContextSlot: Option<Slot>, answer: Option<Output>)
  {
    forall slot: Slot :: IsTip(st, commitment, slot) ==>
      if rollback > 300 then answer == Some(Failure(head, InvalidParams("rollback exceeds 300")))
      else if minContextSlot.Some? && slot < minContextSlot.value then
        answer == Some(Failure(head, MinContextSlotNotReached(slot)))
      else if slot !in st.slots then answer == Some(Failure(head, InternalError("no slot")))
      else if ChainExists(st.slots, slot, rollback) then
        && answer.Some? && answer.value.Success? && answer.value.head == head
        && HasBlockhash(st.slots, slot, rollback, answer.value.value)
      else if 0 in st.slots then answer == None
      else answer == Some(Failure(head, InvalidParams("not enought slots in the storage")))
  }

  /** Every request for a blockhash. */
  lemma BlockhashExact(st: State, head: Head, commitment: CommitmentLevel, rollback: nat, minContextSlot: Option<Slot>)
    ensures BlockhashServed(st, head, commitment, rollback, minContextSlot,
                            AnswerBlockhash(st, head, commitment, rollback, minContextSlot))
  {
    var slot := PointerOf(st, commitment);
    assert forall s: Slot :: IsTip(st, commitment, s) ==> s == slot;
    if slot in st.slots {
      WalkSoundAndComplete(st.slots, slot, rollback);
    }
  }

  // ----- getSlot ----------------------------------------------------------------------------

  /** `getSlot` succeeds exactly when the pointer is not below the requested slot, with the pointer of the
      requested commitment. */
  ghost predicate SlotServed(st: State, head: Head, commitment: CommitmentLevel, minContextSlot: Option<Slot>,
                             answer: Option<Output>)
  {
    forall slot: Slot :: IsTip(st, commitment, slot) ==>
      answer == Some(if minContextSlot.Some? && slot < minContextSlot.value
                     then Failure(head, MinContextSlotNotReached(slot))
                     else Success(head, SlotNumber(slot)))
  }

  lemma SlotAnsweredIff(st: State, window: SlotsInfo, head: Head, commitment: CommitmentLevel,
                        minContextSlot: Option<Slot>)
    ensures SlotServed(st, head, commitment, minContextSlot,
                       Answer(st, window, GetSlot(head, commitment, minContextSlot)))
  {
  }

  function SlotAnswer(st: State, window: SlotsInfo, head: Head, commitment: CommitmentLevel): Option<Output> {
    Answer(st, window, GetSlot(head, commitment, None))
  }

  ghost predicate SlotIs(answer: Option<Output>, slot: Slot) {
    answer.Some? && answer.value.Success? && answer.value.value == SlotNumber(slot)
  }

  lemma AnswerIsTip(st: State, window: SlotsInfo, head: Head, commitment: CommitmentLevel, slot: Slot)
    requires SlotIs(SlotAnswer(st, window, head, commitment), slot)
    ensures IsTip(st, commitment, slot)
  {
  }

  /** In every orderly run the answers for the three commitments are ordered by finality. */
  lemma SlotAnswersOrdered(log: seq<GeyserMessage>, window: SlotsInfo, head: Head, p: Slot, c: Slot, f: Slot)
    requires Orderly(log)
    requires SlotIs(SlotAnswer(Run(log), window, head, Processed), p)
    requires SlotIs(SlotAnswer(Run(log), window, head, Confirmed), c)
    requires SlotIs(SlotAnswer(Run(log), window, head, Finalized), f)
    ensures f <= c <= p
  {
    PointerSafety(log, Processed);
  }

  /** Behind deduplication of every stream and capacity, the Finalized and the Processed answers never decrease. */
  lemma SlotAnswersNeverFall(raw: seq<GeyserMessage>, capacity: nat, i: nat, window: SlotsInfo, later: SlotsInfo,
                             head: Head, commitment: CommitmentLevel, slot: Slot, slot': Slot)
    requires i <= |raw| && commitment != Confirmed
    requires SlotIs(SlotAnswer(Run(Forwarded(raw[..i], capacity)), window, head, commitment), slot)
    requires SlotIs(SlotAnswer(Run(Forwarded(raw, capacity)), later, head, commitment), slot')
    ensures slot <= slot'
  {
    FinalityMonotone(raw, capacity, i);
    AnswerIsTip(Run(Forwarded(raw[..i], capacity)), window, head, commitment, slot);
    AnswerIsTip(Run(Forwarded(raw, capacity)), later, head, commitment, slot');
  }

  // ----- The window, slot by slot -----------------------------------------------------------

  /** The answered slots are the 150 largest received as blocks, ascending. */
  ghost predicate IsWindow(log: seq<GeyserMessage>, slots: seq<Slot>) {
    StrictlyIncreasing(slots) && IsTop(Elements(slots), BlockSlots(log), 150)
  }

  lemma WindowListed(log: seq<GeyserMessage>)
    ensures IsWindow(log, Ascending(RunWindow(log).Keys))
  {
    WindowIsTop(log);
    assert Elements(Ascending(RunWindow(log).Keys)) == RunWindow(log).Keys;
  }

  // ----- getRecentPrioritizationFees --------------------------------------------------------

  function SlotsOf(fees: seq<(Slot, nat)>): (r: seq<Slot>)
    ensures |r| == |fees| && forall i :: 0 <= i < |r| ==> r[i] == fees[i].0
  {
    seq(|fees|, i requires 0 <= i < |fees| => fees[i].0)
  }

  /** The fee is that of the transactions of the last block of the slot. */
  ghost predicate FeeShown(log: seq<GeyserMessage>, keys: seq<Pubkey>, percentile: Option<nat>, fee: (Slot, nat)) {
    exists i: nat :: IsLastBlock(log, fee.0, i)
                     && (AllSorted(log[i].transactions) ==> IsFee(log[i].transactions, keys, percentile, fee.1))
  }

  ghost predicate FeesServed(log: seq<GeyserMessage>, head: Head, keys: seq<Pubkey>, percentile: Option<nat>,
                             answer: Option<Output>)
  {
    && answer.Some? && answer.value.Success? && answer.value.head == head && answer.value.value.SlotFees?
    && var fees := answer.value.value.fees;
       && IsWindow(log, SlotsOf(fees))
       && forall i :: 0 <= i < |fees| ==> FeeShown(log, keys, percentile, fees[i])
  }

  lemma WindowFeeShown(log: seq<GeyserMessage>, keys: seq<Pubkey>, percentile: Option<nat>, slot: Slot)
    requires slot in RunWindow(log)
    ensures FeeShown(log, keys, percentile, (slot, FeeOver(RunWindow(log)[slot].fees, keys, percentile)))
  {
    WindowShowsLog(log, slot);
    var i: nat :| Shows(log, slot, i, RunWindow(log)[slot]);
    if AllSorted(log[i].transactions) {
      FeeOverExact(log[i].transactions, keys, percentile);
    }
    assert IsLastBlock(log, slot, i);
  }

  /** Every request for fees: one fee for each slot of the window, from the transactions of its last block and the
      requested keys. */
  lemma FeesExact(log: seq<GeyserMessage>, head: Head, keys: seq<Pubkey>, percentile: Option<nat>)
    ensures FeesServed(log, head, keys, percentile,
                       Answer(Run(log), RunWindow(log), RecentPrioritizationFees(head, keys, percentile)))
  {
    var window := RunWindow(log);
    var slots := Ascending(window.Keys);
    var fees := FeesBySlot(window, slots, keys, percentile);
    WindowListed(log);
    assert SlotsOf(fees) == slots;
    forall i | 0 <= i < |fees| ensures FeeShown(log, keys, percentile, fees[i]) {
      WindowFeeShown(log, keys, percentile, slots[i]);
    }
  }

  // ----- The filtered slots -----------------------------------------------------------------

  lemma {:induction false} VotesCounted(txs: seq<GeyserTransaction>)
    ensures VoteCount(txs) == |Chosen(txs, Votes)|
  {
    if txs == [] {
      assert Chosen(txs, Votes) == {};
    } else {
      VotesCounted(txs[..|txs| - 1]);
      ChosenStep(txs, Votes);
    }
  }

  /** The counts, the average and the levels are those of the transactions that pass the filter. */
  ghost predicate Counts(txs: seq<GeyserTransaction>, filter: SlotFilter, slot: SolfeesFee) {
    && slot.total == |txs| && slot.totalVote == |Chosen(txs, Votes)|
    && (AllSorted(txs) ==>
          && slot.totalFiltered == |Chosen(txs, Passing(filter))|
          && IsAverage(slot.feeAverage, |Chosen(txs, Passing(filter))|, TotalPrice(txs, filter))
          && |slot.feeLevels| == |filter.levels|
          && forall j, v: nat :: 0 <= j < |filter.levels| ==>
               (slot.feeLevels[j] == Some(v) <==> IsLevel(txs, Passing(filter), Some(filter.levels[j]), v)))
  }

  /** The answered slot shows the last block of its slot, with the commitment of the last status after it. */
  ghost predicate SlotShown(log: seq<GeyserMessage>, filter: SlotFilter, slot: SolfeesFee) {
    exists i: nat :: && IsLastBlock(log, slot.slot, i) && Stands(log, slot.slot, i, slot.commitment)
                     && slot.height == log[i].height && Counts(log[i].transactions, filter, slot)
  }

  /** The format of the frontend has the leader, the hash and the time as well. */
  ghost predicate FrontendSlotShown(log: seq<GeyserMessage>, filter: SlotFilter, slot: FilteredSlot) {
    exists i: nat, shared: SolfeesFee ::
      && IsLastBlock(log, slot.slot, i) && Stands(log, slot.slot, i, slot.commitment)
      && slot.height == log[i].height && slot.leader == log[i].leader
      && slot.hash == log[i].hash && slot.time == log[i].time
      && Counts(log[i].transactions, filter, shared)
      && shared.totalFiltered == slot.totalFiltered && shared.totalVote == slot.totalVote
      && shared.total == slot.total && shared.feeAverage == slot.feeAverage && shared.feeLevels == slot.feeLevels
  }

  function FrontendSlotsOf(slots: seq<FilteredSlot>): (r: seq<Slot>)
    ensures |r| == |slots| && forall i :: 0 <= i < |r| ==> r[i] == slots[i].slot
  {
    seq(|slots|, i requires 0 <= i < |slots| => slots[i].slot)
  }

  function SolfeesSlotsOf(slots: seq<SolfeesFee>): (r: seq<Slot>)
    ensures |r| == |slots| && forall i :: 0 <= i < |r| ==> r[i] == slots[i].slot
  {
    seq(|slots|, i requires 0 <= i < |slots| => slots[i].slot)
  }

  ghost predicate FilteredServed(log: seq<GeyserMessage>, head: Head, filter: SlotFilter, frontend: bool,
                                 answer: Option<Output>)
  {
    && answer.Some? && answer.value.Success? && answer.value.head == head
    && if frontend then
         && answer.value.value.FrontendSlots?
         && var slots := answer.value.value.slots;
            && IsWindow(log, FrontendSlotsOf(slots))
            && forall i :: 0 <= i < |slots| ==> FrontendSlotShown(log, filter, slots[i])
       else
         && answer.value.value.SolfeesFees?
         && var slots := answer.value.value.slotFees;
            && IsWindow(log, SolfeesSlotsOf(slots))
            && forall i :: 0 <= i < |slots| ==> SlotShown(log, filter, slots[i])
  }

  lemma FilteredCounts(txs: seq<GeyserTransaction>, info: SlotInfo, filter: SlotFilter)
    requires info.transactions == txs
    ensures Counts(txs, filter, Reduced(FilteredSlotOf(info, filter)))
  {
    VotesCounted(txs);
    if AllSorted(txs) {
      ScanAverage(txs, filter);
      var levels := Levels(Filtered(txs, filter), filter.levels);
      forall j, v: nat | 0 <= j < |filter.levels|
        ensures levels[j] == Some(v) <==> IsLevel(txs, Passing(filter), Some(filter.levels[j]), v)
      {
        ScanLevels(txs, filter, j, v);
      }
    }
  }

  lemma WindowSlotShown(log: seq<GeyserMessage>, filter: SlotFilter, slot: Slot)
    requires slot in RunWindow(log)
    ensures FrontendSlotShown(log, filter, FilteredSlotOf(RunWindow(log)[slot], filter))
    ensures SlotShown(log, filter, Reduced(FilteredSlotOf(RunWindow(log)[slot], filter)))
  {
    var info := RunWindow(log)[slot];
    WindowShowsLog(log, slot);
    var i: nat :| Shows(log, slot, i, info);
    FilteredCounts(log[i].transactions, info, filter);
    assert IsLastBlock(log, slot, i);
  }

  lemma WindowSlotsShown(log: seq<GeyserMessage>, filter: SlotFilter, order: seq<Slot>)
    requires forall s :: s in order ==> s in RunWindow(log)
    ensures var slots := FilteredBySlot(RunWindow(log), order, filter);
            && FrontendSlotsOf(slots) == order && SolfeesSlotsOf(ReducedAll(slots)) == order
            && (forall i :: 0 <= i < |slots| ==> FrontendSlotShown(log, filter, slots[i]))
            && (forall i :: 0 <= i < |slots| ==> SlotShown(log, filter, ReducedAll(slots)[i]))
  {
    var slots := FilteredBySlot(RunWindow(log), order, filter);
    forall i | 0 <= i < |slots|
      ensures slots[i].slot == order[i] && ReducedAll(slots)[i].slot == order[i]
      ensures FrontendSlotShown(log, filter, slots[i]) && SlotShown(log, filter, ReducedAll(slots)[i])
    {
      WindowSlotShown(log, filter, order[i]);
      WindowShowsLog(log, order[i]);
    }
    assert FrontendSlotsOf(slots) == order;
    assert SolfeesSlotsOf(ReducedAll(slots)) == order;
  }

  /** Every request for filtered slots: one record for each slot of the window, in the format of the endpoint. */
  lemma FilteredExact(log: seq<GeyserMessage>, head: Head, filter: SlotFilter, frontend: bool)
    ensures FilteredServed(log, head, filter, frontend,
                           Answer(Run(log), RunWindow(log), SolfeesSlots(head, filter, frontend)))
  {
    WindowListed(log);
    WindowSlotsShown(log, filter, Ascending(RunWindow(log).Keys));
  }
}
