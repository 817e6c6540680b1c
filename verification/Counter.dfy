/** When the counter of the blockhash storage is exact, in terms of the raw stream. */
module Counter {
  import opened Wrappers
  import opened Geyser
  import opened Collections
  import opened Dedup
  import opened Producers
  import opened Storage
  import opened Pipeline
  import opened Capacity

  // ----- Every stream and capacity ----------------------------------------------------------

  /** The message is forwarded although its slot is already marked as Finalized. */
  ghost predicate Strikes(raw: seq<GeyserMessage>, capacity: nat, m: GeyserMessage) {
    Forwards(raw, capacity, m) && IsMarked(Forwarded(raw, capacity), m.slot)
  }

  lemma MarkedIsFinalized(log: seq<GeyserMessage>, m: GeyserMessage)
    requires NonFalling(log + [m], Finalized) && Marks(log, m)
    ensures m.slot in FinalizedKeys(WithCommitment(Run(log), m.slot, Finalized).slots)
  {
    assert (log + [m])[..|log|] == log;
    StaysUntilMarked(log, m.slot);
  }

  /** A message keeps a stored Finalized slot Finalized, unless it concerns that slot or drops it. */
  lemma FinalizedStays(st: State, m: GeyserMessage, slot: Slot)
    requires !HitsFinalized(st, m) && slot in Apply(st, m).slots
    requires slot in FinalizedKeys(st.slots)
             || (m.Status? && slot in FinalizedKeys(WithCommitment(st, m.slot, m.commitment).slots))
    ensures slot in FinalizedKeys(Apply(st, m).slots)
  {
  }

  /** Before the first hit, the newest marked block is still stored as Finalized. */
  lemma {:induction false} NewestIsFinalized(log: seq<GeyserMessage>)
    requires NonFalling(log, Finalized) && FinalizedHits(log) == 0 && MarkedBlocks(log) != []
    ensures FromNewest(MarkedBlocks(log), 0).0 in FinalizedKeys(Run(log).slots)
  {
    var earlier, m := log[..|log| - 1], log[|log| - 1];
    assert log == earlier + [m];
    HitsAdd(earlier, m);
    MarkedStep(earlier, m);
    RunStep(earlier, m);
    if Marks(earlier, m) {
      MarkedIsFinalized(earlier, m);
    } else {
      NewestIsFinalized(earlier);
    }
    NewestStored(log, 0);
    FinalizedStays(Run(earlier), m, FromNewest(MarkedBlocks(log), 0).0);
  }

  /** Before the first hit, a message at or above the tip hits exactly when its slot is marked. */
  lemma HitIff(log: seq<GeyserMessage>, m: GeyserMessage)
    requires NonFalling(log, Finalized) && FinalizedHits(log) == 0 && m.slot >= MaxFinalized(log)
    ensures HitsFinalized(Run(log), m) <==> IsMarked(log, m.slot)
  {
    if IsMarked(log, m.slot) {
      NewestIsLargest(log, m.slot);
      assert m.slot == FromNewest(MarkedBlocks(log), 0).0;
      NewestIsFinalized(log);
    } else if m.slot in FinalizedKeys(Run(log).slots) {
      FinalizedAreMarked(log, m.slot);
    }
  }

  lemma ForwardedTip(raw: seq<GeyserMessage>, capacity: nat)
    ensures MaxFinalized(Forwarded(raw, capacity)) <= MaxFinalized(raw)
  {
    MaxFinalizedIsMax(Forwarded(raw, capacity));
    if MaxFinalized(Forwarded(raw, capacity)) > 0 {
      ForwardedFinalizedBelow(raw, capacity, MaxFinalized(Forwarded(raw, capacity)));
    }
  }

  lemma NoHitsStep(raw: seq<GeyserMessage>, capacity: nat, m: GeyserMessage)
    ensures FinalizedHits(Forwarded(raw + [m], capacity)) == 0
            <==> FinalizedHits(Forwarded(raw, capacity)) == 0 && !Strikes(raw, capacity, m)
  {
    var log := Forwarded(raw, capacity);
    FilterStep(raw, capacity, m);
    if Forwards(raw, capacity, m) {
      HitsAdd(log, m);
      ForwardedTip(raw, capacity);
      FinalizedNonFalling(raw, capacity);
      if FinalizedHits(log) == 0 {
        HitIff(log, m);
      }
    }
  }

  lemma {:induction false} NoHitsIff(raw: seq<GeyserMessage>, capacity: nat)
    ensures FinalizedHits(Forwarded(raw, capacity)) == 0
            <==> forall i :: 0 <= i < |raw| ==> !Strikes(raw[..i], capacity, raw[i])
  {
    if raw == [] {
    } else {
      var n := |raw| - 1;
      assert raw == raw[..n] + [raw[n]];
      NoHitsIff(raw[..n], capacity);
      NoHitsStep(raw[..n], capacity, raw[n]);
      assert forall i :: 0 <= i < n ==> raw[..n][..i] == raw[..i];
    }
  }

  /** For every stream and capacity: the counter is the number of stored Finalized slots exactly when no message
      of a slot that is already marked as Finalized gets through. */
  lemma DriftFreeIff(raw: seq<GeyserMessage>, capacity: nat)
    ensures var st := Run(Forwarded(raw, capacity));
            st.finalizedTotal == |FinalizedKeys(st.slots)|
            <==> forall i :: 0 <= i < |raw| ==> !Strikes(raw[..i], capacity, raw[i])
  {
    DriftCountsHits(Forwarded(raw, capacity));
    NoHitsIff(raw, capacity);
  }

  // ----- Within the LRU window --------------------------------------------------------------

  /** A first Processed or Confirmed, not below the tip, whose slot is a finalized block already. */
  ghost predicate LateHit(earlier: seq<GeyserMessage>, m: GeyserMessage) {
    IsEarlyStatus(m) && IsFirst(earlier, m) && IsFinalizedBlock(earlier, m.slot)
  }

  lemma FinalizedBlockMentioned(log: seq<GeyserMessage>, slot: Slot)
    requires IsFinalizedBlock(log, slot)
    ensures Mentions(log, (slot, None)) && Mentions(log, (slot, Some(Finalized)))
  {
    var i :| 0 <= i < |FinalizedBlocks(log)| && SlotList(FinalizedBlocks(log))[i] == slot;
    FinalizedBlockKnown(log, i);
    HeightIffMentioned(log, slot);
  }

  lemma StrikesAreLate(raw: seq<GeyserMessage>, capacity: nat, m: GeyserMessage)
    requires Settled(Forwarded(raw, capacity)) && !Forgotten(raw, capacity, m)
    ensures Strikes(raw, capacity, m) <==> LateHit(raw, m)
  {
    SettledMarks(Forwarded(raw, capacity));
    SameFinalizedBlocks(raw, capacity);
    NeverLosesFirst(raw, capacity, m);
    if IsFinalizedBlock(raw, m.slot) {
      FinalizedBlockMentioned(raw, m.slot);
    }
  }

  lemma PrefixSettled(raw: seq<GeyserMessage>, capacity: nat, i: nat)
    requires i <= |raw| && forall j :: 0 <= j < |raw| ==> !Forgotten(raw[..j], capacity, raw[j])
    ensures Settled(Forwarded(raw[..i], capacity))
  {
    assert forall j :: 0 <= j < i ==> raw[..i][..j] == raw[..j];
    FinalizedRisingIff(raw[..i], capacity);
    RisingIsSettled(Forwarded(raw[..i], capacity));
  }

  /** Within the window: the counter is exact exactly when no Processed or Confirmed arrives late, for the first
      time and not below the tip, for a finalized block. A late status below the tip does no harm. */
  lemma CounterExactIff(raw: seq<GeyserMessage>, capacity: nat)
    requires WithinWindow(Admitted(raw), capacity)
    ensures var st := Run(Forwarded(raw, capacity));
            st.finalizedTotal == |FinalizedKeys(st.slots)|
            <==> forall i :: 0 <= i < |raw| ==> !LateHit(raw[..i], raw[i])
  {
    RefinesIdeal(raw, capacity);
    IdealIff(raw, capacity);
    forall i | 0 <= i < |raw| ensures Strikes(raw[..i], capacity, raw[i]) <==> LateHit(raw[..i], raw[i]) {
      PrefixSettled(raw, capacity, i);
      StrikesAreLate(raw[..i], capacity, raw[i]);
    }
    DriftFreeIff(raw, capacity);
  }

  lemma {:induction false} NoLateHit(raw: seq<GeyserMessage>, i: nat)
    requires NoLateStatus(raw) && i < |raw|
    ensures !LateHit(raw[..i], raw[i])
  {
    var n := |raw| - 1;
    if i < n {
      assert raw[..n][..i] == raw[..i];
      NoLateHit(raw[..n], i);
    } else if IsFinalizedBlock(raw[..n], raw[n].slot) {
      FinalizedBlockMentioned(raw[..n], raw[n].slot);
    }
  }

  /** So the counter is exact, and within its bound, when no status is late at all. */
  lemma CounterExact(raw: seq<GeyserMessage>, capacity: nat)
    requires WithinWindow(Admitted(raw), capacity) && NoLateStatus(raw)
    ensures var st := Run(Forwarded(raw, capacity));
            st.finalizedTotal == |FinalizedKeys(st.slots)| <= 310
  {
    forall i | 0 <= i < |raw| ensures !LateHit(raw[..i], raw[i]) {
      NoLateHit(raw, i);
    }
    CounterExactIff(raw, capacity);
    DriftCountsHits(Forwarded(raw, capacity));
  }

  /** The same for any interleaving of orderly producers. */
  lemma CounterExactForProducers(stream: seq<Tagged>, capacity: nat)
    requires InOrder(stream) && WithinWindow(Admitted(Messages(stream)), capacity)
    ensures var st := Run(Forwarded(Messages(stream), capacity));
            st.finalizedTotal == |FinalizedKeys(st.slots)| <= 310
  {
    ProducersAreNotLate(stream);
    CounterExact(Messages(stream), capacity);
  }
}
