/** The three commitment pointers of the storage, over whole runs. */
module Pointers {
  import opened Wrappers
  import opened Geyser
  import opened Collections
  import opened Dedup
  import opened Producers
  import opened Storage
  import opened Pipeline

  function PointerOf(st: State, commitment: CommitmentLevel): Slot {
    match commitment
    case Processed => st.slotProcessed
    case Confirmed => st.slotConfirmed
    case Finalized => st.slotFinalized
  }

  /** Some status of this commitment found its slot in the storage. */
  ghost predicate PointerSet(log: seq<GeyserMessage>, commitment: CommitmentLevel) {
    log != [] &&
    var earlier, m := log[..|log| - 1], log[|log| - 1];
    PointerSet(earlier, commitment) || (KindOf(m) == Some(commitment) && m.slot in Run(earlier).slots)
  }

  /** Message `i` is a status of this commitment that found its slot in the storage. */
  ghost predicate FindsSlot(log: seq<GeyserMessage>, i: nat, commitment: CommitmentLevel) {
    i < |log| && KindOf(log[i]) == Some(commitment) && log[i].slot in Run(log[..i]).slots
  }

  /** The slot of the last such message, 0 before the first one. */
  ghost predicate IsLast(log: seq<GeyserMessage>, commitment: CommitmentLevel, slot: Slot) {
    || (slot == 0 && forall i: nat :: !FindsSlot(log, i, commitment))
    || (exists i: nat :: FindsSlot(log, i, commitment) && log[i].slot == slot
                         && forall k: nat :: k > i ==> !FindsSlot(log, k, commitment))
  }

  /** The largest slot of such messages, 0 before the first one. */
  ghost predicate IsLargest(log: seq<GeyserMessage>, commitment: CommitmentLevel, slot: Slot) {
    && (forall i: nat :: FindsSlot(log, i, commitment) ==> log[i].slot <= slot)
    && (slot == 0 || exists i: nat :: FindsSlot(log, i, commitment) && log[i].slot == slot)
  }

  lemma FindsStep(log: seq<GeyserMessage>, m: GeyserMessage, i: nat, commitment: CommitmentLevel)
    ensures FindsSlot(log + [m], i, commitment)
            <==> || FindsSlot(log, i, commitment)
                 || (i == |log| && KindOf(m) == Some(commitment) && m.slot in Run(log).slots)
  {
    if i <= |log| {
      assert (log + [m])[..i] == log[..i];
      assert log[..|log|] == log;
    }
  }

  lemma LastStep(log: seq<GeyserMessage>, m: GeyserMessage, commitment: CommitmentLevel, slot: Slot)
    requires IsLast(log, commitment, slot)
    ensures IsLast(log + [m], commitment,
                   if KindOf(m) == Some(commitment) && m.slot in Run(log).slots then m.slot else slot)
  {
    var longer := log + [m];
    forall i: nat
      ensures FindsSlot(longer, i, commitment)
              <==> || FindsSlot(log, i, commitment)
                   || (i == |log| && KindOf(m) == Some(commitment) && m.slot in Run(log).slots)
    {
      FindsStep(log, m, i, commitment);
    }
    if KindOf(m) == Some(commitment) && m.slot in Run(log).slots {
      assert FindsSlot(longer, |log|, commitment) && longer[|log|] == m;
    } else if i: nat :| FindsSlot(log, i, commitment) && log[i].slot == slot
                        && forall k: nat :: k > i ==> !FindsSlot(log, k, commitment) {
      assert FindsSlot(longer, i, commitment) && longer[i] == log[i];
    }
  }

  lemma LargestStep(log: seq<GeyserMessage>, m: GeyserMessage, commitment: CommitmentLevel, slot: Slot)
    requires IsLargest(log, commitment, slot)
    ensures IsLargest(log + [m], commitment,
                      if KindOf(m) == Some(commitment) && m.slot in Run(log).slots && m.slot > slot then m.slot
                      else slot)
  {
    var longer := log + [m];
    forall i: nat
      ensures FindsSlot(longer, i, commitment)
              <==> || FindsSlot(log, i, commitment)
                   || (i == |log| && KindOf(m) == Some(commitment) && m.slot in Run(log).slots)
    {
      FindsStep(log, m, i, commitment);
    }
    if KindOf(m) == Some(commitment) && m.slot in Run(log).slots && m.slot > slot {
      assert FindsSlot(longer, |log|, commitment) && longer[|log|] == m;
    } else if i: nat :| FindsSlot(log, i, commitment) && log[i].slot == slot {
      assert FindsSlot(longer, i, commitment) && longer[i] == log[i];
    }
  }

  lemma PointersAfter(st: State, m: GeyserMessage)
    ensures Apply(st, m).slotProcessed
            == if KindOf(m) == Some(Processed) && m.slot in st.slots && m.slot > st.slotProcessed then m.slot
               else st.slotProcessed
    ensures Apply(st, m).slotConfirmed
            == if KindOf(m) == Some(Confirmed) && m.slot in st.slots then m.slot else st.slotConfirmed
    ensures Apply(st, m).slotFinalized
            == if KindOf(m) == Some(Finalized) && m.slot in st.slots then m.slot else st.slotFinalized
  {
  }

  lemma PointersStep(log: seq<GeyserMessage>, m: GeyserMessage, before: State, after: State)
    requires before == Run(log) && after == Apply(before, m)
    requires IsLargest(log, Processed, before.slotProcessed)
    requires IsLast(log, Confirmed, before.slotConfirmed) && IsLast(log, Finalized, before.slotFinalized)
    ensures IsLargest(log + [m], Processed, after.slotProcessed)
    ensures IsLast(log + [m], Confirmed, after.slotConfirmed) && IsLast(log + [m], Finalized, after.slotFinalized)
  {
    PointersAfter(before, m);
    LargestStep(log, m, Processed, before.slotProcessed);
    LastStep(log, m, Confirmed, before.slotConfirmed);
    LastStep(log, m, Finalized, before.slotFinalized);
  }

  /** Over every run: the Confirmed and Finalized pointers are the last slots found by such a status, the
      Processed pointer is the largest one. */
  lemma {:induction false} PointersExact(log: seq<GeyserMessage>)
    ensures IsLargest(log, Processed, Run(log).slotProcessed)
    ensures IsLast(log, Confirmed, Run(log).slotConfirmed)
    ensures IsLast(log, Finalized, Run(log).slotFinalized)
  {
    if log == [] {
    } else {
      var earlier, m := log[..|log| - 1], log[|log| - 1];
      assert log == earlier + [m];
      PointersExact(earlier);
      PointersStep(earlier, m, Run(earlier), Run(log));
    }
  }

  /** A message that comes once, after the earlier kinds of its slot, and above the earlier Confirmed
      (Finalized) slots if it is a Confirmed (Finalized). */
  ghost predicate Orderly(log: seq<GeyserMessage>) {
    InTurn(log) && Rising(log, Confirmed) && Rising(log, Finalized)
  }

  /** What the pointers know about the stored slots. */
  ghost predicate Known(log: seq<GeyserMessage>, slot: Slot) {
    var st := Run(log);
    slot in st.slots ==>
      && Mentions(log, (slot, None))
      && (Mentions(log, (slot, Some(Processed))) ==> slot <= st.slotProcessed)
      && (Mentions(log, (slot, Some(Confirmed))) ==> slot <= st.slotConfirmed)
      && (slot in FinalizedKeys(st.slots) ==> Mentions(log, (slot, Some(Finalized))) && slot <= st.slotFinalized)
  }

  ghost predicate Ordered(log: seq<GeyserMessage>) {
    var st := Run(log);
    && st.slotFinalized <= st.slotConfirmed <= st.slotProcessed
    && (st.slotConfirmed == 0 || Mentions(log, (st.slotConfirmed, Some(Confirmed))))
  }

  ghost predicate Kept(log: seq<GeyserMessage>, commitment: CommitmentLevel) {
    var st, slot := Run(log), PointerOf(Run(log), commitment);
    if PointerSet(log, commitment) then
      slot in st.slots && (commitment == Finalized ==> slot in FinalizedKeys(st.slots))
    else slot == 0
  }

  lemma {:induction false} MentionedInTurn(log: seq<GeyserMessage>, slot: Slot, kind: Kind, r: nat)
    requires InTurn(log) && Mentions(log, (slot, kind)) && r <= Rank(kind)
    ensures Mentions(log, (slot, LIFECYCLE[r]))
  {
    var earlier, m := log[..|log| - 1], log[|log| - 1];
    assert log == earlier + [m];
    MentionsStep(earlier, m, (slot, kind));
    MentionsStep(earlier, m, (slot, LIFECYCLE[r]));
    if Mentions(earlier, (slot, kind)) {
      MentionedInTurn(earlier, slot, kind, r);
    }
  }

  lemma {:induction false} InTurnIsClean(log: seq<GeyserMessage>)
    requires InTurn(log)
    ensures Clean(log)
  {
    if log == [] {
    } else {
      var earlier, m := log[..|log| - 1], log[|log| - 1];
      InTurnIsClean(earlier);
      if IsEarlyStatus(m) && Mentions(earlier, (m.slot, Some(Finalized))) {
        MentionedInTurn(earlier, m.slot, Some(Finalized), Rank(KindOf(m)));
      }
    }
  }

  lemma KnownAfterBlock(log: seq<GeyserMessage>, m: GeyserMessage, slot: Slot)
    requires Orderly(log + [m]) && m.Block? && Known(log, slot)
    ensures Known(log + [m], slot)
  {
    RunStep(log, m);
    assert (log + [m])[..|log|] == log;
    forall k: Kind ensures Mentions(log + [m], (slot, k)) <==> (slot, k) == KeyOf(m) || Mentions(log, (slot, k)) {
      MentionsStep(log, m, (slot, k));
    }
    FinalizedKeysAfterUpdate(Run(log).slots, m.slot, BlockhashSlot(m.hash, m.height, Processed));
    if slot == m.slot {
      forall k: Kind ensures !Mentions(log, (slot, k)) {
        if Mentions(log, (slot, k)) { MentionedInTurn(log, slot, k, 0); }
      }
    }
  }

  lemma KnownAfterStatus(log: seq<GeyserMessage>, m: GeyserMessage, slot: Slot)
    requires Orderly(log + [m]) && m.Status? && Known(log, slot)
    ensures Known(log + [m], slot)
  {
    RunStep(log, m);
    assert (log + [m])[..|log|] == log;
    forall k: Kind ensures Mentions(log + [m], (slot, k)) <==> (slot, k) == KeyOf(m) || Mentions(log, (slot, k)) {
      MentionsStep(log, m, (slot, k));
    }
    var st := Run(log);
    if m.slot in st.slots {
      FinalizedKeysAfterUpdate(st.slots, m.slot, st.slots[m.slot].(commitment := m.commitment));
    }
  }

  /** Pruning an exact counter keeps everything from the last Finalized slot up. */
  lemma PruneKeepsNewest(st: State)
    requires st.slotFinalized in FinalizedKeys(st.slots)
    requires forall s :: s in FinalizedKeys(st.slots) ==> s <= st.slotFinalized
    requires st.finalizedTotal == |FinalizedKeys(st.slots)|
    ensures forall s :: s in st.slots && s >= st.slotFinalized ==>
              s in Pruned(st).slots && Pruned(st).slots[s] == st.slots[s]
  {
    var finalized := FinalizedKeys(st.slots);
    if st.finalizedTotal > MAX_FINALIZED {
      var least := MinOf(finalized);
      assert least == st.slotFinalized ==> finalized == {least};
    }
  }

  /** The counter before and after a Finalized status of an orderly stream. */
  lemma ExactMark(log: seq<GeyserMessage>, m: GeyserMessage)
    requires Orderly(log + [m]) && m.Status?
    ensures var marked := WithCommitment(Run(log), m.slot, m.commitment);
            marked.finalizedTotal == |FinalizedKeys(marked.slots)|
    ensures m.slot !in FinalizedKeys(Run(log).slots)
    ensures m.commitment != Finalized ==> WithCommitment(Run(log), m.slot, m.commitment).finalizedTotal <= MAX_FINALIZED
  {
    assert (log + [m])[..|log|] == log;
    InTurnIsClean(log + [m]);
    CleanNeverHits(log + [m]);
    CleanNeverHits(log);
    DriftCountsHits(log);
    CommitmentStep(Run(log), m.slot, m.commitment);
  }

  /** The slots that a Finalized status leaves alone. */
  lemma FinalizedKeepsNewest(log: seq<GeyserMessage>, m: GeyserMessage)
    requires Orderly(log + [m]) && KindOf(m) == Some(Finalized) && m.slot in Run(log).slots
    requires forall s :: Known(log, s)
    ensures var st, after := Run(log), Run(log + [m]);
            && after.slotFinalized == m.slot && m.slot in FinalizedKeys(after.slots)
            && after.slotConfirmed == st.slotConfirmed && after.slotProcessed == st.slotProcessed
            && (forall s :: s in st.slots && s >= m.slot ==> s in after.slots)
  {
    var st := Run(log);
    RunStep(log, m);
    assert (log + [m])[..|log|] == log;
    ExactMark(log, m);
    var marked := WithCommitment(st, m.slot, Finalized);
    FinalizedKeysAfterUpdate(st.slots, m.slot, st.slots[m.slot].(commitment := Finalized));
    forall s | s in FinalizedKeys(marked.slots) ensures s <= m.slot { assert Known(log, s); }
    PruneKeepsNewest(marked);
  }

  /** What a message that finalizes nothing stored does: only its own pointer may move, and no slot is dropped. */
  ghost predicate DropsNothing(st: State, after: State, m: GeyserMessage) {
    && after.slotFinalized == st.slotFinalized
    && after.slotConfirmed == (if KindOf(m) == Some(Confirmed) && m.slot in st.slots then m.slot else st.slotConfirmed)
    && after.slotProcessed == (if KindOf(m) == Some(Processed) && m.slot in st.slots && m.slot > st.slotProcessed
                               then m.slot else st.slotProcessed)
    && st.slots.Keys <= after.slots.Keys && FinalizedKeys(st.slots) == FinalizedKeys(after.slots)
  }

  lemma BlockDropsNothing(st: State, m: GeyserMessage)
    requires m.Block? && !HitsFinalized(st, m)
    ensures DropsNothing(st, Apply(st, m), m)
  {
    FinalizedKeysAfterUpdate(st.slots, m.slot, BlockhashSlot(m.hash, m.height, Processed));
  }

  lemma StatusDropsNothing(st: State, m: GeyserMessage)
    requires m.Status? && !HitsFinalized(st, m) && Sound(st)
    requires m.slot in st.slots ==> m.commitment != Finalized
    ensures DropsNothing(st, Apply(st, m), m)
  {
    if m.slot in st.slots {
      FinalizedKeysAfterUpdate(st.slots, m.slot, st.slots[m.slot].(commitment := m.commitment));
    }
  }

  lemma OtherDropsNothing(log: seq<GeyserMessage>, m: GeyserMessage)
    requires Orderly(log + [m]) && !(KindOf(m) == Some(Finalized) && m.slot in Run(log).slots)
    ensures DropsNothing(Run(log), Run(log + [m]), m)
  {
    RunStep(log, m);
    InTurnIsClean(log + [m]);
    CleanNeverHits(log + [m]);
    assert (log + [m])[..|log|] == log;
    assert !HitsFinalized(Run(log), m);
    DriftCountsHits(log);
    if m.Block? { BlockDropsNothing(Run(log), m); } else { StatusDropsNothing(Run(log), m); }
  }

  lemma OrderedStep(log: seq<GeyserMessage>, m: GeyserMessage)
    requires Orderly(log + [m]) && Ordered(log) && forall s :: Known(log, s)
    ensures Ordered(log + [m])
  {
    var longer, st := log + [m], Run(log);
    assert longer[..|log|] == log;
    MentionsStep(log, m, (st.slotConfirmed, Some(Confirmed)));
    assert Known(log, m.slot);
    if KindOf(m) == Some(Finalized) && m.slot in st.slots {
      FinalizedKeepsNewest(log, m);
      assert Mentions(log, (m.slot, LIFECYCLE[2]));
    } else {
      OtherDropsNothing(log, m);
      if KindOf(m) == Some(Confirmed) && m.slot in st.slots {
        assert Mentions(log, (m.slot, LIFECYCLE[1]));
        MentionsStep(log, m, (m.slot, Some(Confirmed)));
      }
    }
  }

  lemma KeptStep(log: seq<GeyserMessage>, m: GeyserMessage, commitment: CommitmentLevel)
    requires Orderly(log + [m]) && Ordered(log + [m]) && Kept(log, commitment) && forall s :: Known(log, s)
    ensures Kept(log + [m], commitment)
  {
    assert (log + [m])[..|log|] == log;
    if KindOf(m) == Some(Finalized) && m.slot in Run(log).slots {
      FinalizedKeepsNewest(log, m);
    } else {
      OtherDropsNothing(log, m);
    }
  }

  lemma {:induction false} PointersKnown(log: seq<GeyserMessage>)
    requires Orderly(log)
    ensures Ordered(log)
    ensures forall c: CommitmentLevel :: Kept(log, c)
    ensures forall s :: Known(log, s)
  {
    if log == [] {
    } else {
      var earlier, m := log[..|log| - 1], log[|log| - 1];
      assert log == earlier + [m];
      PointersKnown(earlier);
      forall s ensures Known(log, s) {
        if m.Block? { KnownAfterBlock(earlier, m, s); } else { KnownAfterStatus(earlier, m, s); }
      }
      OrderedStep(earlier, m);
      forall c: CommitmentLevel ensures Kept(log, c) { KeptStep(earlier, m, c); }
    }
  }

  /** Every reachable state: the pointers are ordered by finality, and a pointer that was ever set is
      still a stored slot, in spite of pruning. */
  lemma PointerSafety(log: seq<GeyserMessage>, commitment: CommitmentLevel)
    requires Orderly(log)
    ensures Run(log).slotFinalized <= Run(log).slotConfirmed <= Run(log).slotProcessed
    ensures PointerSet(log, commitment) ==> PointerOf(Run(log), commitment) in Run(log).slots
  {
    PointersKnown(log);
    assert Kept(log, commitment);
  }

  // ----- Producers --------------------------------------------------------------------------

  /** Every producer sends the Confirmed statuses in the order of their slots and skips none that anyone sends;
      repeating is allowed. */
  ghost predicate ConfirmedAscending(stream: seq<Tagged>) {
    forall i, j :: 0 <= i < |stream| && 0 <= j < |stream|
                   && KindOf(stream[i].1) == KindOf(stream[j].1) == Some(Confirmed)
                   && stream[j].1.slot < stream[i].1.slot
      ==> Sent(stream[..i], stream[i].0, (stream[j].1.slot, Some(Confirmed)))
  }

  lemma ConfirmedPrefix(stream: seq<Tagged>, n: nat)
    requires ConfirmedAscending(stream) && n <= |stream|
    ensures ConfirmedAscending(stream[..n])
  {
    assert forall i :: 0 <= i < n ==> stream[..n][..i] == stream[..i] && stream[..n][i] == stream[i];
  }

  lemma MentionedLater(raw: seq<GeyserMessage>, i: nat, n: nat, key: Key)
    requires i <= n <= |raw| && Mentions(raw[..i], key)
    ensures Mentions(raw[..n], key)
  {
    var j :| 0 <= j < i && KeyOf(raw[..i][j]) == key;
    assert raw[..n][j] == raw[..i][j];
  }

  /** A Confirmed that comes first is above all earlier ones. */
  lemma ConfirmedAbove(stream: seq<Tagged>, n: nat, slot: Slot)
    requires ConfirmedAscending(stream) && n < |stream| && KindOf(stream[n].1) == Some(Confirmed)
    requires !Mentions(Messages(stream)[..n], KeyOf(stream[n].1))
    requires Mentions(Messages(stream)[..n], (slot, Some(Confirmed)))
    ensures slot < stream[n].1.slot
  {
    var raw := Messages(stream);
    var i :| 0 <= i < n && KeyOf(raw[..n][i]) == (slot, Some(Confirmed));
    assert KeyOf(stream[i].1) == (slot, Some(Confirmed));
    if stream[n].1.slot < slot {
      SentIsMentioned(stream, i, stream[i].0, KeyOf(stream[n].1));
      MentionedLater(raw, i, n, KeyOf(stream[n].1));
    }
  }

  lemma ConfirmedStep(stream: seq<Tagged>, n: nat, capacity: nat)
    requires ConfirmedAscending(stream) && n < |stream| && KindOf(stream[n].1) == Some(Confirmed)
    requires Forwards(Messages(stream)[..n], capacity, stream[n].1)
    ensures AllBelow(Forwarded(Messages(stream)[..n], capacity), Confirmed, stream[n].1.slot)
            <==> !Forgotten(Messages(stream)[..n], capacity, stream[n].1)
  {
    var earlier, m := Messages(stream)[..n], stream[n].1;
    if Forgotten(earlier, capacity, m) {
      ReceivedWasForwarded(earlier, capacity, KeyOf(m));
    } else {
      forall s: Slot | Mentions(Forwarded(earlier, capacity), (s, Some(Confirmed))) ensures s < m.slot {
        ForwardedWasReceived(earlier, capacity, (s, Some(Confirmed)));
        ConfirmedAbove(stream, n, s);
      }
    }
  }

  /** Then the Confirmed slots strictly increase behind deduplication exactly when no Confirmed arrives
      forgotten. */
  lemma {:induction false} ConfirmedRisingIff(stream: seq<Tagged>, capacity: nat)
    requires ConfirmedAscending(stream)
    ensures var raw := Messages(stream);
            Rising(Forwarded(raw, capacity), Confirmed)
            <==> forall i :: 0 <= i < |raw| && KindOf(raw[i]) == Some(Confirmed)
                   ==> !Forgotten(raw[..i], capacity, raw[i])
  {
    if stream == [] {
    } else {
      var n, raw := |stream| - 1, Messages(stream);
      ConfirmedPrefix(stream, n);
      ConfirmedRisingIff(stream[..n], capacity);
      assert raw[..n] == Messages(stream[..n]);
      assert raw == raw[..n] + [raw[n]];
      FilterStep(raw[..n], capacity, raw[n]);
      assert forall i :: 0 <= i < n ==> raw[..n][..i] == raw[..i];
      if Forwards(raw[..n], capacity, raw[n]) {
        RisingAppend(Forwarded(raw[..n], capacity), raw[n], Confirmed);
        if KindOf(raw[n]) == Some(Confirmed) {
          ConfirmedStep(stream, n, capacity);
        }
      }
    }
  }

  /** Pointer safety behind deduplication of orderly producers, within the window. */
  lemma PointerSafetyForProducers(stream: seq<Tagged>, capacity: nat, commitment: CommitmentLevel)
    requires InOrder(stream) && ConfirmedAscending(stream)
    requires WithinWindow(Admitted(Messages(stream)), capacity)
    ensures var log := Forwarded(Messages(stream), capacity);
            && Run(log).slotFinalized <= Run(log).slotConfirmed <= Run(log).slotProcessed
            && (PointerSet(log, commitment) ==> PointerOf(Run(log), commitment) in Run(log).slots)
  {
    ProducersWithinWindow(stream, capacity);
    RefinesIdeal(Messages(stream), capacity);
    IdealIff(Messages(stream), capacity);
    ConfirmedRisingIff(stream, capacity);
    PointerSafety(Forwarded(Messages(stream), capacity), commitment);
  }
}
