/** Pruning keeps enough finalized history for every allowed rollback. */
module Capacity {
  import opened Wrappers
  import opened Geyser
  import opened Collections
  import opened Dedup
  import opened Producers
  import opened Storage
  import opened Pipeline
  import opened Rollback

  // ----- The finalized blocks of a stream ---------------------------------------------------

  /** The height of the first block of a slot in the stream. */
  function BlockHeight(log: seq<GeyserMessage>, slot: Slot): Option<nat> {
    if log == [] then None
    else
      var before, m := BlockHeight(log[..|log| - 1], slot), log[|log| - 1];
      if before.None? && m.Block? && m.slot == slot then Some(m.height) else before
  }

  /** Slot and height of every block that came before the first Finalized of its slot, in the order of these
      statuses. This depends on the stream alone, not on what the storage keeps. */
  ghost function FinalizedBlocks(log: seq<GeyserMessage>): seq<(Slot, nat)> {
    if log == [] then []
    else
      var earlier, m := log[..|log| - 1], log[|log| - 1];
      var height := BlockHeight(earlier, m.slot);
      if KindOf(m) == Some(Finalized) && IsFirst(earlier, m) && height.Some? then
        FinalizedBlocks(earlier) + [(m.slot, height.value)]
      else FinalizedBlocks(earlier)
  }

  lemma BlockStep(log: seq<GeyserMessage>, m: GeyserMessage, slot: Slot)
    ensures BlockHeight(log + [m], slot)
            == if BlockHeight(log, slot).None? && m.Block? && m.slot == slot then Some(m.height)
               else BlockHeight(log, slot)
    ensures FinalizedBlocks(log + [m])
            == if KindOf(m) == Some(Finalized) && IsFirst(log, m) && BlockHeight(log, m.slot).Some?
               then FinalizedBlocks(log) + [(m.slot, BlockHeight(log, m.slot).value)] else FinalizedBlocks(log)
  {
    assert (log + [m])[..|log|] == log;
  }

  lemma {:induction false} HeightIffMentioned(log: seq<GeyserMessage>, slot: Slot)
    ensures BlockHeight(log, slot).Some? <==> Mentions(log, (slot, None))
  {
    if log == [] {
    } else {
      var earlier, m := log[..|log| - 1], log[|log| - 1];
      assert log == earlier + [m];
      HeightIffMentioned(earlier, slot);
      MentionsStep(earlier, m, (slot, None));
    }
  }

  lemma {:induction false} FinalizedBlockKnown(log: seq<GeyserMessage>, i: nat)
    requires i < |FinalizedBlocks(log)|
    ensures Mentions(log, (FinalizedBlocks(log)[i].0, Some(Finalized)))
    ensures BlockHeight(log, FinalizedBlocks(log)[i].0) == Some(FinalizedBlocks(log)[i].1)
  {
    var earlier, m := log[..|log| - 1], log[|log| - 1];
    assert log == earlier + [m];
    BlockStep(earlier, m, FinalizedBlocks(log)[i].0);
    MentionsStep(earlier, m, (FinalizedBlocks(log)[i].0, Some(Finalized)));
    if i < |FinalizedBlocks(earlier)| {
      FinalizedBlockKnown(earlier, i);
    }
  }

  /** A Finalized that comes first is above all finalized blocks. */
  lemma FirstIsAbove(log: seq<GeyserMessage>, m: GeyserMessage)
    requires KindOf(m) == Some(Finalized) && IsFirst(log, m)
    ensures forall i :: 0 <= i < |FinalizedBlocks(log)| ==> FinalizedBlocks(log)[i].0 < m.slot
  {
    forall i | 0 <= i < |FinalizedBlocks(log)| ensures FinalizedBlocks(log)[i].0 < m.slot {
      FinalizedBlockKnown(log, i);
      MaxFinalizedIsMax(log);
      var j :| 0 <= j < |log| && KeyOf(log[j]) == (FinalizedBlocks(log)[i].0, Some(Finalized));
    }
  }

  /** The finalized blocks are in ascending order, for every stream. */
  lemma {:induction false} FinalizedBlocksIncrease(log: seq<GeyserMessage>)
    ensures StrictlyIncreasing(SlotList(FinalizedBlocks(log)))
  {
    if log == [] {
    } else {
      var earlier, m := log[..|log| - 1], log[|log| - 1];
      FinalizedBlocksIncrease(earlier);
      if KindOf(m) == Some(Finalized) && IsFirst(earlier, m) {
        FirstIsAbove(earlier, m);
      }
    }
  }

  // ----- Deduplication keeps them -----------------------------------------------------------

  /** Deduplication keeps the first block of every slot at or above the tip. */
  lemma {:induction false} ForwardedHeight(raw: seq<GeyserMessage>, capacity: nat, slot: Slot)
    requires slot >= MaxFinalized(raw)
    ensures BlockHeight(Forwarded(raw, capacity), slot) == BlockHeight(raw, slot)
  {
    if raw == [] {
    } else {
      var earlier, m := raw[..|raw| - 1], raw[|raw| - 1];
      assert raw == earlier + [m];
      FilterStep(earlier, capacity, m);
      ForwardedHeight(earlier, capacity, slot);
      BlockStep(earlier, m, slot);
      BlockStep(Forwarded(earlier, capacity), m, slot);
      HeightIffMentioned(earlier, slot);
      NeverLosesFirst(earlier, capacity, m);
    }
  }

  lemma ForwardedFirst(raw: seq<GeyserMessage>, capacity: nat, m: GeyserMessage)
    requires KindOf(m) == Some(Finalized) && Forwards(raw, capacity, m)
    ensures IsFirst(Forwarded(raw, capacity), m) <==> IsFirst(raw, m)
  {
    var log := Forwarded(raw, capacity);
    MaxFinalizedIsMax(log);
    if MaxFinalized(log) > 0 {
      ForwardedFinalizedBelow(raw, capacity, MaxFinalized(log));
    }
    if Mentions(raw, KeyOf(m)) {
      ReceivedWasForwarded(raw, capacity, KeyOf(m));
    } else if Mentions(log, KeyOf(m)) {
      ForwardedWasReceived(raw, capacity, KeyOf(m));
    }
  }

  /** For every stream and capacity: deduplication changes nothing about the finalized blocks. */
  lemma {:induction false} SameFinalizedBlocks(raw: seq<GeyserMessage>, capacity: nat)
    ensures FinalizedBlocks(Forwarded(raw, capacity)) == FinalizedBlocks(raw)
  {
    if raw == [] {
    } else {
      var earlier, m := raw[..|raw| - 1], raw[|raw| - 1];
      assert raw == earlier + [m];
      SameFinalizedBlocks(earlier, capacity);
      FilterStep(earlier, capacity, m);
      BlockStep(earlier, m, m.slot);
      NeverLosesFirst(earlier, capacity, m);
      if Forwards(earlier, capacity, m) {
        BlockStep(Forwarded(earlier, capacity), m, m.slot);
        if KindOf(m) == Some(Finalized) {
          ForwardedFirst(earlier, capacity, m);
          ForwardedHeight(earlier, capacity, m.slot);
        }
      }
    }
  }

  // ----- Orderly streams --------------------------------------------------------------------

  ghost predicate IsFinalizedBlock(log: seq<GeyserMessage>, slot: Slot) {
    slot in SlotList(FinalizedBlocks(log))
  }

  lemma FinalizedBlockStep(log: seq<GeyserMessage>, m: GeyserMessage, slot: Slot)
    ensures IsFinalizedBlock(log + [m], slot)
            <==> || IsFinalizedBlock(log, slot)
                 || (slot == m.slot && KindOf(m) == Some(Finalized) && IsFirst(log, m)
                     && Mentions(log, (slot, None)))
  {
    BlockStep(log, m, m.slot);
    HeightIffMentioned(log, m.slot);
    if BlockHeight(log, m.slot).Some? {
      SlotListAppend(FinalizedBlocks(log), (m.slot, BlockHeight(log, m.slot).value));
    }
  }

  lemma NonFallingTip(log: seq<GeyserMessage>, m: GeyserMessage)
    requires NonFalling(log + [m], Finalized) && KindOf(m) == Some(Finalized)
    ensures m.slot >= MaxFinalized(log)
  {
    assert (log + [m])[..|log|] == log;
    MaxFinalizedIsMax(log);
  }

  /** In a stream that keeps each slot's order and whose Finalized slots never decrease, every Finalized
      belongs to a finalized block. */
  lemma {:induction false} SequenceListsAll(log: seq<GeyserMessage>, slot: Slot)
    requires InSequence(log) && NonFalling(log, Finalized)
    ensures Mentions(log, (slot, Some(Finalized))) <==> IsFinalizedBlock(log, slot)
  {
    if log == [] {
    } else {
      var earlier, m := log[..|log| - 1], log[|log| - 1];
      assert log == earlier + [m];
      SequenceListsAll(earlier, slot);
      FinalizedBlockStep(earlier, m, slot);
      MentionsStep(earlier, m, (slot, Some(Finalized)));
      if KindOf(m) == Some(Finalized) {
        NonFallingTip(earlier, m);
        assert Mentions(earlier, (m.slot, LIFECYCLE[0]));
      }
    }
  }

  /** Orderly producers, for every capacity: the finalized blocks of the raw stream are exactly the slots
      whose Finalized reaches the backend, each with the height of the block that reaches it. */
  lemma FinalizedBlocksExact(stream: seq<Tagged>, capacity: nat, slot: Slot, height: nat)
    requires InOrder(stream)
    ensures var log := Forwarded(Messages(stream), capacity);
            (slot, height) in FinalizedBlocks(Messages(stream))
            <==> Mentions(log, (slot, Some(Finalized))) && BlockHeight(log, slot) == Some(height)
  {
    var log := Forwarded(Messages(stream), capacity);
    ProducersKeepSequence(stream, capacity);
    FinalizedNonFalling(Messages(stream), capacity);
    SequenceListsAll(log, slot);
    SameFinalizedBlocks(Messages(stream), capacity);
    var blocks := FinalizedBlocks(log);
    if (slot, height) in blocks {
      var i :| 0 <= i < |blocks| && blocks[i] == (slot, height);
      FinalizedBlockKnown(log, i);
      assert SlotList(blocks)[i] == slot;
    } else if IsFinalizedBlock(log, slot) {
      var i :| 0 <= i < |blocks| && SlotList(blocks)[i] == slot;
      FinalizedBlockKnown(log, i);
      assert blocks[i] in blocks;
    }
  }

  /** The Finalized slots never decrease, and one that is repeated has its block before it. This holds behind
      deduplication whenever no Finalized is forgotten, and always for orderly producers. */
  ghost predicate Settled(log: seq<GeyserMessage>) {
    log == [] ||
    var earlier, m := log[..|log| - 1], log[|log| - 1];
    && Settled(earlier)
    && (KindOf(m) == Some(Finalized) ==>
          && m.slot >= MaxFinalized(earlier)
          && (Mentions(earlier, KeyOf(m)) ==> IsFinalizedBlock(earlier, m.slot)))
  }

  lemma {:induction false} RisingIsSettled(log: seq<GeyserMessage>)
    requires Rising(log, Finalized)
    ensures Settled(log)
  {
    if log == [] {
    } else {
      RisingIsSettled(log[..|log| - 1]);
      MaxFinalizedIsMax(log[..|log| - 1]);
    }
  }

  lemma {:induction false} SequenceIsSettled(log: seq<GeyserMessage>)
    requires InSequence(log) && NonFalling(log, Finalized)
    ensures Settled(log)
  {
    if log == [] {
    } else {
      var earlier, m := log[..|log| - 1], log[|log| - 1];
      assert log == earlier + [m];
      SequenceIsSettled(earlier);
      SequenceListsAll(earlier, m.slot);
      if KindOf(m) == Some(Finalized) {
        NonFallingTip(earlier, m);
      }
    }
  }

  // ----- The blocks that a log marks as Finalized -------------------------------------------

  /** Slot and height of every block followed by a Finalized of its slot at or above the earlier ones, in the
      order in which that first happens. A Finalized may have come before the block too; without that, these
      are the finalized blocks. */
  ghost function MarkedBlocks(log: seq<GeyserMessage>): seq<(Slot, nat)> {
    if log == [] then []
    else
      var earlier, m := log[..|log| - 1], log[|log| - 1];
      var height := BlockHeight(earlier, m.slot);
      if KindOf(m) == Some(Finalized) && m.slot >= MaxFinalized(earlier) && height.Some?
         && m.slot !in SlotList(MarkedBlocks(earlier)) then
        MarkedBlocks(earlier) + [(m.slot, height.value)]
      else MarkedBlocks(earlier)
  }

  ghost predicate IsMarked(log: seq<GeyserMessage>, slot: Slot) {
    slot in SlotList(MarkedBlocks(log))
  }

  ghost predicate Marks(log: seq<GeyserMessage>, m: GeyserMessage) {
    && KindOf(m) == Some(Finalized) && m.slot >= MaxFinalized(log)
    && Mentions(log, (m.slot, None)) && !IsMarked(log, m.slot)
  }

  lemma MarkedStep(log: seq<GeyserMessage>, m: GeyserMessage)
    ensures Marks(log, m) ==> BlockHeight(log, m.slot).Some?
    ensures MarkedBlocks(log + [m])
            == if Marks(log, m) then MarkedBlocks(log) + [(m.slot, BlockHeight(log, m.slot).value)]
               else MarkedBlocks(log)
  {
    assert (log + [m])[..|log|] == log;
    HeightIffMentioned(log, m.slot);
  }

  lemma IsMarkedStep(log: seq<GeyserMessage>, m: GeyserMessage, slot: Slot)
    ensures IsMarked(log + [m], slot) <==> IsMarked(log, slot) || (slot == m.slot && Marks(log, m))
  {
    MarkedStep(log, m);
    if Marks(log, m) {
      SlotListAppend(MarkedBlocks(log), (m.slot, BlockHeight(log, m.slot).value));
    }
  }

  lemma {:induction false} MarkedKnown(log: seq<GeyserMessage>, i: nat)
    requires i < |MarkedBlocks(log)|
    ensures MarkedBlocks(log)[i].0 <= MaxFinalized(log)
    ensures BlockHeight(log, MarkedBlocks(log)[i].0) == Some(MarkedBlocks(log)[i].1)
  {
    var earlier, m := log[..|log| - 1], log[|log| - 1];
    assert log == earlier + [m];
    BlockStep(earlier, m, MarkedBlocks(log)[i].0);
    if i < |MarkedBlocks(earlier)| {
      MarkedKnown(earlier, i);
    }
  }

  lemma {:induction false} MarkedIncrease(log: seq<GeyserMessage>)
    ensures StrictlyIncreasing(SlotList(MarkedBlocks(log)))
  {
    if log == [] {
    } else {
      var earlier, m := log[..|log| - 1], log[|log| - 1];
      var marked := MarkedBlocks(earlier);
      MarkedIncrease(earlier);
      if MarkedBlocks(log) != marked {
        forall i | 0 <= i < |marked| ensures marked[i].0 < m.slot {
          MarkedKnown(earlier, i);
          assert SlotList(marked)[i] == marked[i].0;
        }
      }
    }
  }

  /** In a settled stream the marked blocks are the finalized blocks. */
  lemma {:induction false} SettledMarks(log: seq<GeyserMessage>)
    requires Settled(log)
    ensures MarkedBlocks(log) == FinalizedBlocks(log)
  {
    if log == [] {
    } else {
      var earlier, m := log[..|log| - 1], log[|log| - 1];
      assert log == earlier + [m];
      SettledMarks(earlier);
      if KindOf(m) == Some(Finalized) && IsMarked(earlier, m.slot) {
        var i :| 0 <= i < |FinalizedBlocks(earlier)| && SlotList(FinalizedBlocks(earlier))[i] == m.slot;
        FinalizedBlockKnown(earlier, i);
      }
    }
  }

  // ----- What stays stored ------------------------------------------------------------------

  /** Pruning cuts at a stored Finalized slot. */
  lemma PruneCut(log: seq<GeyserMessage>, m: GeyserMessage, slot: Slot)
    requires slot in Run(log).slots || (m.Block? && m.slot == slot)
    requires forall s: Slot :: Mentions(log + [m], (s, Some(Finalized))) ==> s < slot
    ensures slot in Run(log + [m]).slots
  {
    RunStep(log, m);
    if m.Status? {
      var marked := WithCommitment(Run(log), m.slot, m.commitment);
      forall s | s in FinalizedKeys(marked.slots) ensures s < slot {
        if s in FinalizedKeys(Run(log).slots) { StoredIsMentioned(log, s); }
        MentionsStep(log, m, (s, Some(Finalized)));
      }
    }
  }

  /** Whatever the stream: pruning never drops a block above every Finalized received so far. So a Finalized
      above the earlier ones finds its block stored whenever that block came before it. */
  lemma {:induction false} StaysStored(log: seq<GeyserMessage>, slot: Slot)
    requires Mentions(log, (slot, None))
    requires forall s: Slot :: Mentions(log, (s, Some(Finalized))) ==> s < slot
    ensures slot in Run(log).slots
  {
    var earlier, m := log[..|log| - 1], log[|log| - 1];
    assert log == earlier + [m];
    MentionsStep(earlier, m, (slot, None));
    forall s: Slot | Mentions(earlier, (s, Some(Finalized))) ensures s < slot {
      MentionsStep(earlier, m, (s, Some(Finalized)));
    }
    if Mentions(earlier, (slot, None)) {
      StaysStored(earlier, slot);
    }
    PruneCut(earlier, m, slot);
  }

  lemma FirstFindsBlock(log: seq<GeyserMessage>, m: GeyserMessage)
    requires KindOf(m) == Some(Finalized) && IsFirst(log, m)
    ensures m.slot in Run(log).slots <==> Mentions(log, (m.slot, None))
  {
    if m.slot in Run(log).slots {
      StoredIsMentioned(log, m.slot);
    }
    if Mentions(log, (m.slot, None)) {
      forall s: Slot | Mentions(log, (s, Some(Finalized))) ensures s < m.slot {
        MaxFinalizedIsMax(log);
        var j :| 0 <= j < |log| && KeyOf(log[j]) == (s, Some(Finalized));
      }
      StaysStored(log, m.slot);
    }
  }

  /** The last `n` elements. */
  function Newest<T>(s: seq<T>, n: nat): (r: seq<T>)
    ensures |r| == if |s| <= n then |s| else n
    ensures forall i :: 0 <= i < |r| ==> r[i] == s[|s| - |r| + i]
  {
    if |s| <= n then s else s[|s| - n..]
  }

  function SlotList(blocks: seq<(Slot, nat)>): (r: seq<Slot>)
    ensures |r| == |blocks| && forall i :: 0 <= i < |r| ==> r[i] == blocks[i].0
  {
    seq(|blocks|, i requires 0 <= i < |blocks| => blocks[i].0)
  }

  /** The stored Finalized slots are exactly these blocks, with their heights, and the counter counts them. */
  ghost predicate Holds(st: State, kept: seq<(Slot, nat)>) {
    && FinalizedKeys(st.slots) == Elements(SlotList(kept))
    && (forall i :: 0 <= i < |kept| ==> kept[i].0 in st.slots && st.slots[kept[i].0].height == kept[i].1)
    && st.finalizedTotal == |kept|
  }

  /** The stored Finalized slots are exactly the newest 310 finalized blocks, in ascending order. */
  ghost predicate Retained(st: State, blocks: seq<(Slot, nat)>) {
    && StrictlyIncreasing(SlotList(blocks))
    && Holds(st, Newest(blocks, 310))
    && (blocks != [] ==> st.slotFinalized == blocks[|blocks| - 1].0)
  }

  lemma SlotListAppend(blocks: seq<(Slot, nat)>, block: (Slot, nat))
    ensures SlotList(blocks + [block]) == SlotList(blocks) + [block.0]
    ensures Elements(SlotList(blocks + [block])) == Elements(SlotList(blocks)) + {block.0}
  {
    assert SlotList(blocks + [block]) == SlotList(blocks) + [block.0];
    ElementsOfConcat(SlotList(blocks), [block.0]);
  }

  lemma SlotListTail(blocks: seq<(Slot, nat)>)
    requires blocks != [] && StrictlyIncreasing(SlotList(blocks))
    ensures Elements(SlotList(blocks[1..])) == Elements(SlotList(blocks)) - {blocks[0].0}
    ensures Elements(SlotList(blocks)) != {} && MinOf(Elements(SlotList(blocks))) == blocks[0].0
  {
    var slots := SlotList(blocks);
    assert slots == [slots[0]] + SlotList(blocks[1..]);
    ElementsOfConcat([slots[0]], SlotList(blocks[1..]));
    assert slots[0] in Elements(slots);
  }

  lemma NewestIncreasing(blocks: seq<(Slot, nat)>, n: nat)
    requires StrictlyIncreasing(SlotList(blocks))
    ensures StrictlyIncreasing(SlotList(Newest(blocks, n)))
  {
    var kept := Newest(blocks, n);
    forall i, j | 0 <= i < j < |kept| ensures kept[i].0 < kept[j].0 {
      assert SlotList(blocks)[|blocks| - |kept| + i] < SlotList(blocks)[|blocks| - |kept| + j];
    }
  }

  lemma IncreasingAppend(blocks: seq<(Slot, nat)>, block: (Slot, nat))
    requires StrictlyIncreasing(SlotList(blocks)) && forall i :: 0 <= i < |blocks| ==> blocks[i].0 < block.0
    ensures StrictlyIncreasing(SlotList(blocks + [block]))
  {
  }

  /** A stored block above all held ones is marked; the counter is not yet checked. */
  lemma HoldsMore(st: State, kept: seq<(Slot, nat)>, slot: Slot)
    requires Holds(st, kept) && slot in st.slots && forall i :: 0 <= i < |kept| ==> kept[i].0 < slot
    ensures Holds(WithCommitment(st, slot, Finalized), kept + [(slot, st.slots[slot].height)])
  {
    FinalizedKeysAfterUpdate(st.slots, slot, st.slots[slot].(commitment := Finalized));
    SlotListAppend(kept, (slot, st.slots[slot].height));
  }

  lemma NewestAppend(blocks: seq<(Slot, nat)>, block: (Slot, nat), n: nat)
    requires n > 0
    ensures Newest(blocks + [block], n)
            == if |blocks| < n then Newest(blocks, n) + [block] else (Newest(blocks, n) + [block])[1..]
  {
  }

  lemma PrunedTail(st: State, all: seq<(Slot, nat)>)
    requires StrictlyIncreasing(SlotList(all)) && |all| == MAX_FINALIZED + 1 && Holds(st, all)
    ensures Holds(Pruned(st), all[1..]) && Pruned(st).slotFinalized == st.slotFinalized
  {
    SlotListTail(all);
    FinalizedKeysAfterPrune(st);
    forall i | 1 <= i < |all| ensures all[i].0 > all[0].0 { assert SlotList(all)[0] < SlotList(all)[i]; }
  }

  /** Finalizing a stored block above all earlier ones. */
  lemma RetainedAfterFinalized(st: State, blocks: seq<(Slot, nat)>, slot: Slot)
    requires Retained(st, blocks) && slot in st.slots
    requires forall i :: 0 <= i < |blocks| ==> blocks[i].0 < slot
    ensures Retained(Pruned(WithCommitment(st, slot, Finalized)), blocks + [(slot, st.slots[slot].height)])
  {
    var block, kept := (slot, st.slots[slot].height), Newest(blocks, MAX_FINALIZED);
    IncreasingAppend(blocks, block);
    NewestIncreasing(blocks, MAX_FINALIZED);
    IncreasingAppend(kept, block);
    HoldsMore(st, kept, slot);
    NewestAppend(blocks, block, MAX_FINALIZED);
    if |blocks| >= MAX_FINALIZED {
      PrunedTail(WithCommitment(st, slot, Finalized), kept + [block]);
    }
  }

  /** A state that agrees on the Finalized slots, their entries, the counter and the pointer. */
  lemma RetainedFrame(st: State, after: State, blocks: seq<(Slot, nat)>)
    requires Retained(st, blocks)
    requires FinalizedKeys(after.slots) == FinalizedKeys(st.slots)
    requires forall s :: s in FinalizedKeys(st.slots) ==> after.slots[s] == st.slots[s]
    requires after.finalizedTotal == st.finalizedTotal && after.slotFinalized == st.slotFinalized
    ensures Retained(after, blocks)
  {
    var kept := Newest(blocks, MAX_FINALIZED);
    forall i | 0 <= i < |kept| ensures kept[i].0 in FinalizedKeys(st.slots) { assert SlotList(kept)[i] == kept[i].0; }
  }

  lemma OtherKeepsFinalized(st: State, m: GeyserMessage)
    requires st.finalizedTotal <= MAX_FINALIZED && !HitsFinalized(st, m)
    requires !(KindOf(m) == Some(Finalized) && m.slot in st.slots)
    ensures var after := Apply(st, m);
            && FinalizedKeys(after.slots) == FinalizedKeys(st.slots)
            && (forall s :: s in FinalizedKeys(st.slots) ==> after.slots[s] == st.slots[s])
            && after.finalizedTotal == st.finalizedTotal && after.slotFinalized == st.slotFinalized
  {
    match m
    case Block(_, slot, hash, _, height, _, _, _) =>
      FinalizedKeysAfterUpdate(st.slots, slot, BlockhashSlot(hash, height, Processed));
    case Status(slot, commitment) =>
      if slot in st.slots {
        FinalizedKeysAfterUpdate(st.slots, slot, st.slots[slot].(commitment := commitment));
      }
  }

  lemma RetainedOtherwise(st: State, blocks: seq<(Slot, nat)>, m: GeyserMessage)
    requires Retained(st, blocks) && !HitsFinalized(st, m)
    requires !(KindOf(m) == Some(Finalized) && m.slot in st.slots)
    ensures Retained(Apply(st, m), blocks)
  {
    OtherKeepsFinalized(st, m);
    RetainedFrame(st, Apply(st, m), blocks);
  }

  /** No two blocks of one slot differ in height. */
  ghost predicate SteadyHeights(log: seq<GeyserMessage>) {
    log == [] ||
    var earlier, m := log[..|log| - 1], log[|log| - 1];
    && SteadyHeights(earlier)
    && (m.Block? && BlockHeight(earlier, m.slot).Some? ==> BlockHeight(earlier, m.slot).value == m.height)
  }

  lemma {:induction false} NoRepeatsIsSteady(log: seq<GeyserMessage>)
    requires NoRepeats(log)
    ensures SteadyHeights(log)
  {
    if log == [] {
    } else {
      NoRepeatsIsSteady(log[..|log| - 1]);
      HeightIffMentioned(log[..|log| - 1], log[|log| - 1].slot);
    }
  }

  lemma {:induction false} ForwardedIsSteady(raw: seq<GeyserMessage>, capacity: nat)
    requires SteadyHeights(raw)
    ensures SteadyHeights(Forwarded(raw, capacity))
  {
    if raw == [] {
    } else {
      var earlier, m := raw[..|raw| - 1], raw[|raw| - 1];
      assert raw == earlier + [m];
      ForwardedIsSteady(earlier, capacity);
      FilterStep(earlier, capacity, m);
      if Forwards(earlier, capacity, m) {
        ForwardedHeight(earlier, capacity, m.slot);
        assert (Forwarded(earlier, capacity) + [m])[..|Forwarded(earlier, capacity)|] == Forwarded(earlier, capacity);
      }
    }
  }

  lemma {:induction false} StoredHeight(log: seq<GeyserMessage>, slot: Slot)
    requires SteadyHeights(log) && slot in Run(log).slots
    ensures BlockHeight(log, slot) == Some(Run(log).slots[slot].height)
  {
    var earlier, m := log[..|log| - 1], log[|log| - 1];
    assert log == earlier + [m];
    BlockStep(earlier, m, slot);
    if slot in Run(earlier).slots {
      StoredHeight(earlier, slot);
    }
  }

  lemma {:induction false} CleanHasNoRepeats(log: seq<GeyserMessage>)
    requires Clean(log)
    ensures NoRepeats(log)
  {
    if log == [] {
    } else {
      CleanHasNoRepeats(log[..|log| - 1]);
    }
  }

  /** Over every clean run whose Finalized slots increase, the stored Finalized slots are exactly the newest
      310 finalized blocks of the stream, all of them while there are fewer. */
  lemma {:induction false} NewestRetained(log: seq<GeyserMessage>)
    requires Clean(log) && Rising(log, Finalized)
    ensures Retained(Run(log), FinalizedBlocks(log))
  {
    if log == [] {
      assert Elements(SlotList([])) == {};
    } else {
      var earlier, m := log[..|log| - 1], log[|log| - 1];
      NewestRetained(earlier);
      CleanNeverHits(log);
      if KindOf(m) == Some(Finalized) {
        RetainedStep(earlier, m);
      } else {
        RetainedOtherwise(Run(earlier), FinalizedBlocks(earlier), m);
      }
    }
  }

  lemma RetainedStep(log: seq<GeyserMessage>, m: GeyserMessage)
    requires Clean(log + [m]) && Rising(log + [m], Finalized) && KindOf(m) == Some(Finalized)
    requires Retained(Run(log), FinalizedBlocks(log)) && !HitsFinalized(Run(log), m)
    ensures Retained(Run(log + [m]), FinalizedBlocks(log + [m]))
  {
    assert (log + [m])[..|log|] == log;
    RisingIsSettled(log + [m]);
    RunStep(log, m);
    BlockStep(log, m, m.slot);
    FirstFindsBlock(log, m);
    HeightIffMentioned(log, m.slot);
    if m.slot in Run(log).slots {
      CleanHasNoRepeats(log);
      NoRepeatsIsSteady(log);
      StoredHeight(log, m.slot);
      FirstIsAbove(log, m);
      RetainedAfterFinalized(Run(log), FinalizedBlocks(log), m.slot);
    } else {
      RetainedOtherwise(Run(log), FinalizedBlocks(log), m);
    }
  }

  // ----- Retention in spite of a drifting counter -------------------------------------------

  /** The `i`-th block from the newest down. */
  function FromNewest(blocks: seq<(Slot, nat)>, i: nat): (Slot, nat)
    requires i < |blocks|
  {
    blocks[|blocks| - 1 - i]
  }

  lemma StoredIsMarked(log: seq<GeyserMessage>, m: GeyserMessage)
    requires NonFalling(log + [m], Finalized) && KindOf(m) == Some(Finalized) && m.slot in Run(log).slots
    ensures IsMarked(log + [m], m.slot)
  {
    NonFallingTip(log, m);
    StoredIsMentioned(log, m.slot);
    IsMarkedStep(log, m, m.slot);
  }

  /** When the Finalized slots never decrease, every slot stored as Finalized belongs to a marked block. */
  lemma {:induction false} FinalizedAreMarked(log: seq<GeyserMessage>, slot: Slot)
    requires NonFalling(log, Finalized) && slot in FinalizedKeys(Run(log).slots)
    ensures IsMarked(log, slot)
  {
    var earlier, m := log[..|log| - 1], log[|log| - 1];
    assert log == earlier + [m];
    IsMarkedStep(earlier, m, slot);
    if slot in FinalizedKeys(Run(earlier).slots) {
      FinalizedAreMarked(earlier, slot);
    } else {
      StoredIsMarked(earlier, m);
    }
  }

  /** At most `i` blocks are newer than the `i`-th from the newest. */
  lemma NewerCount(blocks: seq<(Slot, nat)>, i: nat, keys: set<Slot>)
    requires StrictlyIncreasing(SlotList(blocks)) && i < |blocks|
    requires forall k :: k in keys ==> k in SlotList(blocks) && k > FromNewest(blocks, i).0
    ensures |keys| <= i
  {
    var slots := SlotList(blocks);
    var newer := slots[|slots| - i..];
    forall k | k in keys ensures k in newer {
      var j :| 0 <= j < |slots| && slots[j] == k;
      assert slots[|slots| - 1 - i] < slots[j];
      assert newer[j - (|slots| - i)] == k;
    }
    DistinctSize(newer);
    SubsetSize(keys, Elements(newer));
  }

  lemma StatusMarks(log: seq<GeyserMessage>, m: GeyserMessage, slot: Slot)
    requires NonFalling(log + [m], Finalized) && m.Status?
    requires slot in FinalizedKeys(WithCommitment(Run(log), m.slot, m.commitment).slots)
    ensures IsMarked(log + [m], slot)
  {
    assert (log + [m])[..|log|] == log;
    IsMarkedStep(log, m, slot);
    if slot in FinalizedKeys(Run(log).slots) {
      FinalizedAreMarked(log, slot);
    } else {
      StoredIsMarked(log, m);
    }
  }

  lemma NewestIsLargest(log: seq<GeyserMessage>, slot: Slot)
    requires IsMarked(log, slot)
    ensures MarkedBlocks(log) != [] && slot <= FromNewest(MarkedBlocks(log), 0).0 <= MaxFinalized(log)
  {
    var blocks := MarkedBlocks(log);
    MarkedIncrease(log);
    var i :| 0 <= i < |blocks| && SlotList(blocks)[i] == slot;
    assert i < |blocks| - 1 ==> SlotList(blocks)[i] < SlotList(blocks)[|blocks| - 1];
    MarkedKnown(log, |blocks| - 1);
  }

  /** A prune cuts at a marked block, so it drops no unmarked block at or above the tip. */
  lemma PruneKeepsUnmarked(log: seq<GeyserMessage>, m: GeyserMessage, slot: Slot)
    requires NonFalling(log + [m], Finalized) && slot >= MaxFinalized(log + [m]) && !IsMarked(log + [m], slot)
    requires slot in Run(log).slots || (m.Block? && m.slot == slot)
    ensures slot in Run(log + [m]).slots
  {
    RunStep(log, m);
    if m.Status? {
      forall s | s in FinalizedKeys(WithCommitment(Run(log), m.slot, m.commitment).slots) ensures s < slot {
        StatusMarks(log, m, s);
        NewestIsLargest(log + [m], s);
      }
    }
  }

  lemma {:induction false} StaysUntilMarked(log: seq<GeyserMessage>, slot: Slot)
    requires NonFalling(log, Finalized) && Mentions(log, (slot, None))
    requires slot >= MaxFinalized(log) && !IsMarked(log, slot)
    ensures slot in Run(log).slots
  {
    var earlier, m := log[..|log| - 1], log[|log| - 1];
    assert log == earlier + [m];
    MentionsStep(earlier, m, (slot, None));
    IsMarkedStep(earlier, m, slot);
    if Mentions(earlier, (slot, None)) {
      StaysUntilMarked(earlier, slot);
    }
    PruneKeepsUnmarked(earlier, m, slot);
  }

  /** A prune drops only what enough stored Finalized slots have followed. */
  lemma PruneKeepsNewer(st: State, blocks: seq<(Slot, nat)>, i: nat)
    requires StrictlyIncreasing(SlotList(blocks)) && i < |blocks| && i + Drift(st) < MAX_FINALIZED
    requires FinalizedKeys(st.slots) <= Elements(SlotList(blocks))
    requires FromNewest(blocks, i).0 in st.slots
    ensures FromNewest(blocks, i).0 in Pruned(st).slots
  {
    if st.finalizedTotal > MAX_FINALIZED && FinalizedKeys(st.slots) != {} {
      var keys := FinalizedKeys(st.slots);
      var least := MinOf(keys);
      if FromNewest(blocks, i).0 <= least {
        NewerCount(blocks, i, keys - {least});
      }
    }
  }

  lemma AllMarked(log: seq<GeyserMessage>, m: GeyserMessage)
    requires NonFalling(log + [m], Finalized) && m.Status?
    ensures FinalizedKeys(WithCommitment(Run(log), m.slot, m.commitment).slots)
            <= Elements(SlotList(MarkedBlocks(log + [m])))
  {
    forall k | k in FinalizedKeys(WithCommitment(Run(log), m.slot, m.commitment).slots)
      ensures k in SlotList(MarkedBlocks(log + [m]))
    {
      StatusMarks(log, m, k);
    }
  }

  lemma MarkedDrift(log: seq<GeyserMessage>, m: GeyserMessage)
    requires m.Status?
    ensures Drift(WithCommitment(Run(log), m.slot, m.commitment)) == FinalizedHits(log + [m])
    ensures Run(log + [m]) == Pruned(WithCommitment(Run(log), m.slot, m.commitment))
  {
    assert (log + [m])[..|log|] == log;
    DriftCountsHits(log);
    CommitmentStep(Run(log), m.slot, m.commitment);
  }

  lemma StoredStep(log: seq<GeyserMessage>, m: GeyserMessage, i: nat)
    requires NonFalling(log + [m], Finalized)
    requires i < |MarkedBlocks(log + [m])| && i + FinalizedHits(log + [m]) < MAX_FINALIZED
    requires FromNewest(MarkedBlocks(log + [m]), i).0 in Run(log).slots
    ensures FromNewest(MarkedBlocks(log + [m]), i).0 in Run(log + [m]).slots
  {
    if m.Status? {
      MarkedDrift(log, m);
      AllMarked(log, m);
      MarkedIncrease(log + [m]);
      PruneKeepsNewer(WithCommitment(Run(log), m.slot, m.commitment), MarkedBlocks(log + [m]), i);
    } else {
      RunStep(log, m);
    }
  }

  /** Over every run whose Finalized slots never decrease, whatever the counter: with an excess of `d` the
      storage still has the newest 310 - d marked blocks. */
  lemma {:induction false} NewestStored(log: seq<GeyserMessage>, i: nat)
    requires NonFalling(log, Finalized)
    requires i < |MarkedBlocks(log)| && i + FinalizedHits(log) < 310
    ensures FromNewest(MarkedBlocks(log), i).0 in Run(log).slots
  {
    var earlier, m := log[..|log| - 1], log[|log| - 1];
    assert log == earlier + [m];
    MarkedStep(earlier, m);
    if !Marks(earlier, m) {
      NewestStored(earlier, i);
    } else if i > 0 {
      NewestStored(earlier, i - 1);
    } else {
      StaysUntilMarked(earlier, m.slot);
    }
    StoredStep(earlier, m, i);
  }

  /** Behind deduplication this needs no assumption: for every stream and capacity. */
  lemma NewestAlwaysStored(raw: seq<GeyserMessage>, capacity: nat, i: nat)
    requires i < |MarkedBlocks(Forwarded(raw, capacity))|
    requires i + FinalizedHits(Forwarded(raw, capacity)) < 310
    ensures FromNewest(MarkedBlocks(Forwarded(raw, capacity)), i).0 in Run(Forwarded(raw, capacity)).slots
  {
    FinalizedNonFalling(raw, capacity);
    NewestStored(Forwarded(raw, capacity), i);
  }

  /** The Finalized pointer is the newest marked block. */
  lemma {:induction false} PointerIsNewest(log: seq<GeyserMessage>)
    requires NonFalling(log, Finalized) && MarkedBlocks(log) != []
    ensures Run(log).slotFinalized == FromNewest(MarkedBlocks(log), 0).0
  {
    var earlier, m := log[..|log| - 1], log[|log| - 1];
    assert log == earlier + [m];
    MarkedStep(earlier, m);
    if MarkedBlocks(earlier) != [] {
      PointerIsNewest(earlier);
    }
    if KindOf(m) == Some(Finalized) {
      NonFallingTip(earlier, m);
      if Marks(earlier, m) {
        StaysUntilMarked(earlier, m.slot);
      } else if m.slot in Run(earlier).slots {
        StoredIsMentioned(earlier, m.slot);
        NewestIsLargest(earlier, m.slot);
      }
    }
  }

  // ----- Rollback ---------------------------------------------------------------------------

  /** Each block is one higher than the one before it. */
  ghost predicate ConsecutiveHeights(blocks: seq<(Slot, nat)>) {
    forall i :: 0 <= i < |blocks| - 1 ==> blocks[i + 1].1 == blocks[i].1 + 1
  }

  /** The slots of the newest blocks, from the newest down. */
  function Descending(blocks: seq<(Slot, nat)>, n: nat): (r: seq<Slot>)
    requires n <= |blocks|
    ensures |r| == n && forall i :: 0 <= i < n ==> r[i] == FromNewest(blocks, i).0
  {
    seq(n, i requires 0 <= i < n => FromNewest(blocks, i).0)
  }

  lemma OlderIsLower(blocks: seq<(Slot, nat)>, i: nat)
    requires StrictlyIncreasing(SlotList(blocks)) && ConsecutiveHeights(blocks) && i + 1 < |blocks|
    ensures FromNewest(blocks, i + 1).0 < FromNewest(blocks, i).0
    ensures FromNewest(blocks, i + 1).1 + 1 == FromNewest(blocks, i).1
  {
    var k := |blocks| - 2 - i;
    assert SlotList(blocks)[k] < SlotList(blocks)[k + 1];
    assert blocks[k + 1].1 == blocks[k].1 + 1;
  }

  lemma NewestHeight(log: seq<GeyserMessage>, i: nat)
    requires NonFalling(log, Finalized) && SteadyHeights(log)
    requires i < |MarkedBlocks(log)| && i + FinalizedHits(log) < MAX_FINALIZED
    ensures var block := FromNewest(MarkedBlocks(log), i);
            block.0 in Run(log).slots && Run(log).slots[block.0].height == block.1
  {
    NewestStored(log, i);
    StoredHeight(log, FromNewest(MarkedBlocks(log), i).0);
    MarkedKnown(log, |MarkedBlocks(log)| - 1 - i);
  }

  lemma BlocksAreChain(slots: Slots, blocks: seq<(Slot, nat)>, rollback: nat)
    requires StrictlyIncreasing(SlotList(blocks)) && ConsecutiveHeights(blocks) && rollback < |blocks|
    requires forall i :: 0 <= i <= rollback ==>
               FromNewest(blocks, i).0 in slots && slots[FromNewest(blocks, i).0].height == FromNewest(blocks, i).1
    ensures IsChain(slots, Descending(blocks, rollback + 1))
  {
    forall i | 0 <= i < rollback
      ensures FromNewest(blocks, i + 1).0 < FromNewest(blocks, i).0
      ensures FromNewest(blocks, i + 1).1 + 1 == FromNewest(blocks, i).1
    {
      OlderIsLower(blocks, i);
    }
  }

  lemma NewestAreChain(log: seq<GeyserMessage>, rollback: nat)
    requires NonFalling(log, Finalized) && SteadyHeights(log) && ConsecutiveHeights(MarkedBlocks(log))
    requires rollback < |MarkedBlocks(log)| && rollback + FinalizedHits(log) < MAX_FINALIZED
    ensures IsChain(Run(log).slots, Descending(MarkedBlocks(log), rollback + 1))
    ensures forall i :: 0 <= i <= rollback ==>
              Run(log).slots[FromNewest(MarkedBlocks(log), i).0].height == FromNewest(MarkedBlocks(log), i).1
  {
    var blocks := MarkedBlocks(log);
    MarkedIncrease(log);
    forall i | 0 <= i <= rollback
      ensures FromNewest(blocks, i).0 in Run(log).slots
      ensures Run(log).slots[FromNewest(blocks, i).0].height == FromNewest(blocks, i).1
    {
      NewestHeight(log, i);
    }
    BlocksAreChain(Run(log).slots, blocks, rollback);
    assert forall i :: 0 <= i <= rollback ==> Descending(blocks, rollback + 1)[i] == FromNewest(blocks, i).0;
  }

  /** The capacity theorem: from the last Finalized slot, every rollback within the marked blocks that
      stays below 310 less the excess of the counter succeeds, exactly `rollback` blocks lower.
      So all rollbacks up to the documented 300 do while the excess is at most 9. */
  lemma FinalizedRollback(log: seq<GeyserMessage>, rollback: nat)
    requires NonFalling(log, Finalized) && SteadyHeights(log) && ConsecutiveHeights(MarkedBlocks(log))
    requires rollback < |MarkedBlocks(log)| && rollback + FinalizedHits(log) < 310
    ensures var st, newest := Run(log), FromNewest(MarkedBlocks(log), 0);
            && st.slotFinalized == newest.0 && newest.0 in st.slots && st.slots[newest.0].height == newest.1
            && WalkOutcome(st.slots, newest.0, rollback).Found?
            && var found := WalkOutcome(st.slots, newest.0, rollback).slot;
               && found in st.slots && st.slots[found].height == newest.1 - rollback
               && found >= FromNewest(MarkedBlocks(log), rollback).0
  {
    var st, blocks := Run(log), MarkedBlocks(log);
    NewestAreChain(log, rollback);
    PointerIsNewest(log);
    var chain := Descending(blocks, rollback + 1);
    assert chain[0] == st.slotFinalized;
    WalkSoundAndComplete(st.slots, st.slotFinalized, rollback);
  }

  /** Every stored slot below the newest of the blocks that has the height of one of them is that block: no
      other fork reaches down to these heights. */
  ghost predicate NoRival(slots: Slots, blocks: seq<(Slot, nat)>) {
    forall s, i :: s in slots && 0 <= i < |blocks| && s < FromNewest(blocks, 0).0 && slots[s].height == blocks[i].1
      ==> s == blocks[i].0
  }

  lemma ExactWithoutRival(slots: Slots, blocks: seq<(Slot, nat)>, rollback: nat)
    requires rollback < |blocks| && NoRival(slots, blocks)
    requires IsChain(slots, Descending(blocks, rollback + 1))
    requires forall i :: 0 <= i <= rollback ==> slots[FromNewest(blocks, i).0].height == FromNewest(blocks, i).1
    requires WalkOutcome(slots, FromNewest(blocks, 0).0, rollback).Found?
    ensures WalkOutcome(slots, FromNewest(blocks, 0).0, rollback) == Found(FromNewest(blocks, rollback).0)
  {
    var tip := FromNewest(blocks, 0).0;
    ChainHeights(slots, Descending(blocks, rollback + 1), rollback);
    GreedyIsChain(slots, tip, rollback);
    ChainHeights(slots, Greedy(slots, tip, rollback), rollback);
    assert blocks[|blocks| - 1 - rollback] == FromNewest(blocks, rollback);
  }

  /** Without a rival fork the rollback gives exactly the marked block that is `rollback` below the newest. */
  lemma FinalizedRollbackExact(log: seq<GeyserMessage>, rollback: nat)
    requires NonFalling(log, Finalized) && SteadyHeights(log) && ConsecutiveHeights(MarkedBlocks(log))
    requires rollback < |MarkedBlocks(log)| && rollback + FinalizedHits(log) < 310
    requires NoRival(Run(log).slots, MarkedBlocks(log))
    ensures Run(log).slotFinalized in Run(log).slots
    ensures WalkOutcome(Run(log).slots, Run(log).slotFinalized, rollback)
            == Found(FromNewest(MarkedBlocks(log), rollback).0)
  {
    var st, blocks := Run(log), MarkedBlocks(log);
    FinalizedRollback(log, rollback);
    NewestAreChain(log, rollback);
    ExactWithoutRival(st.slots, blocks, rollback);
  }
}
