/** Deduplication followed by the blockhash storage: what the storage can rely on. */
module Pipeline {
  import opened Wrappers
  import opened Geyser
  import opened Collections
  import opened Dedup
  import opened Producers
  import opened Storage

  // ----- Conditions on streams --------------------------------------------------------------

  predicate IsEarlyStatus(m: GeyserMessage) {
    m.Status? && m.commitment != Finalized
  }

  /** No slot's Processed or Confirmed is first seen after that slot's Finalized. */
  ghost predicate NoLateStatus(raw: seq<GeyserMessage>) {
    raw == [] ||
    var earlier, m := raw[..|raw| - 1], raw[|raw| - 1];
    && NoLateStatus(earlier)
    && (IsEarlyStatus(m) && !Mentions(earlier, KeyOf(m))
        ==> !Mentions(earlier, (m.slot, Some(Finalized))))
  }

  /** No message is repeated, and no Processed or Confirmed of a slot follows its Finalized. */
  ghost predicate Clean(log: seq<GeyserMessage>) {
    log == [] ||
    var earlier, m := log[..|log| - 1], log[|log| - 1];
    && Clean(earlier)
    && !Mentions(earlier, KeyOf(m))
    && (IsEarlyStatus(m) ==> !Mentions(earlier, (m.slot, Some(Finalized))))
  }

  /** Each message comes once, after all earlier kinds of its slot. */
  ghost predicate InTurn(log: seq<GeyserMessage>) {
    log == [] ||
    var earlier, m := log[..|log| - 1], log[|log| - 1];
    && InTurn(earlier)
    && !Mentions(earlier, KeyOf(m))
    && forall r :: 0 <= r < Rank(KindOf(m)) ==> Mentions(earlier, (m.slot, LIFECYCLE[r]))
  }

  /** Each message comes after all earlier kinds of its slot; it may be repeated. */
  ghost predicate InSequence(log: seq<GeyserMessage>) {
    log == [] ||
    var earlier, m := log[..|log| - 1], log[|log| - 1];
    && InSequence(earlier)
    && forall r :: 0 <= r < Rank(KindOf(m)) ==> Mentions(earlier, (m.slot, LIFECYCLE[r]))
  }

  /** The slots of the statuses `commitment` never decrease. */
  ghost predicate NonFalling(log: seq<GeyserMessage>, commitment: CommitmentLevel) {
    log == [] ||
    var earlier, m := log[..|log| - 1], log[|log| - 1];
    && NonFalling(earlier, commitment)
    && (KindOf(m) == Some(commitment) ==> forall s: Slot :: Mentions(earlier, (s, Some(commitment))) ==> s <= m.slot)
  }

  /** All statuses `commitment` of the log are of lower slots. */
  ghost predicate AllBelow(log: seq<GeyserMessage>, commitment: CommitmentLevel, slot: Slot) {
    forall s: Slot :: Mentions(log, (s, Some(commitment))) ==> s < slot
  }

  /** The slots of the statuses `commitment` increase. */
  ghost predicate Rising(log: seq<GeyserMessage>, commitment: CommitmentLevel) {
    log == [] ||
    var earlier, m := log[..|log| - 1], log[|log| - 1];
    && Rising(earlier, commitment)
    && (KindOf(m) == Some(commitment) ==> AllBelow(earlier, commitment, m.slot))
  }

  // ----- What deduplication provides --------------------------------------------------------

  lemma SentBefore(stream: seq<Tagged>, i: nat, r: nat)
    requires InOrder(stream) && i < |stream| && r < Rank(KindOf(stream[i].1))
    ensures Mentions(Messages(stream)[..i], (stream[i].1.slot, LIFECYCLE[r]))
  {
    SentIsMentioned(stream, i, stream[i].0, (stream[i].1.slot, LIFECYCLE[r]));
  }

  /** Orderly producers send no late status. */
  lemma {:induction false} ProducersAreNotLate(stream: seq<Tagged>)
    requires InOrder(stream)
    ensures NoLateStatus(Messages(stream))
  {
    if stream == [] {
    } else {
      var n := |stream| - 1;
      var raw := Messages(stream);
      assert forall i :: 0 <= i < n ==> stream[..n][..i] == stream[..i];
      ProducersAreNotLate(stream[..n]);
      assert raw[..n] == Messages(stream[..n]);
      var m := raw[n];
      if Mentions(raw[..n], (m.slot, Some(Finalized))) && IsEarlyStatus(m) {
        var j :| 0 <= j < n && KeyOf(raw[..n][j]) == (m.slot, Some(Finalized));
        SentBefore(stream, j, Rank(KindOf(m)));
        var i :| 0 <= i < j && KeyOf(raw[..j][i]) == KeyOf(m);
        assert raw[..n][i] == raw[..j][i];
      }
    }
  }

  lemma ForwardedFinalizedBelow(raw: seq<GeyserMessage>, capacity: nat, slot: Slot)
    requires Mentions(Forwarded(raw, capacity), (slot, Some(Finalized)))
    ensures slot <= MaxFinalized(raw)
  {
    ForwardedWasReceived(raw, capacity, (slot, Some(Finalized)));
    MaxFinalizedIsMax(raw);
    var i :| 0 <= i < |raw| && KeyOf(raw[i]) == (slot, Some(Finalized));
  }

  /** For every stream and capacity: the Finalized slots that reach the backend never decrease. */
  lemma {:induction false} FinalizedNonFalling(raw: seq<GeyserMessage>, capacity: nat)
    ensures NonFalling(Forwarded(raw, capacity), Finalized)
  {
    if raw == [] {
    } else {
      var earlier, m := raw[..|raw| - 1], raw[|raw| - 1];
      assert raw == earlier + [m];
      FilterStep(earlier, capacity, m);
      FinalizedNonFalling(earlier, capacity);
      var log := Forwarded(earlier, capacity);
      if Forwards(earlier, capacity, m) {
        assert (log + [m])[..|log|] == log;
        forall s: Slot | Mentions(log, (s, Some(Finalized))) ensures s <= m.slot {
          ForwardedFinalizedBelow(earlier, capacity, s);
        }
      }
    }
  }

  lemma RisingAppend(log: seq<GeyserMessage>, m: GeyserMessage, commitment: CommitmentLevel)
    ensures Rising(log + [m], commitment)
            <==> Rising(log, commitment) && (KindOf(m) == Some(commitment) ==> AllBelow(log, commitment, m.slot))
  {
    assert (log + [m])[..|log|] == log;
  }

  lemma AboveUnlessForgotten(raw: seq<GeyserMessage>, capacity: nat, m: GeyserMessage)
    requires KindOf(m) == Some(Finalized) && Forwards(raw, capacity, m)
    ensures AllBelow(Forwarded(raw, capacity), Finalized, m.slot) <==> !Forgotten(raw, capacity, m)
  {
    if Forgotten(raw, capacity, m) {
      ReceivedWasForwarded(raw, capacity, KeyOf(m));
    } else {
      forall s: Slot | Mentions(Forwarded(raw, capacity), (s, Some(Finalized))) ensures s < m.slot {
        ForwardedFinalizedBelow(raw, capacity, s);
        ForwardedWasReceived(raw, capacity, (s, Some(Finalized)));
      }
    }
  }

  lemma RisingStep(raw: seq<GeyserMessage>, capacity: nat, m: GeyserMessage)
    ensures Rising(Forwarded(raw + [m], capacity), Finalized)
            <==> && Rising(Forwarded(raw, capacity), Finalized)
                 && !(KindOf(m) == Some(Finalized) && Forgotten(raw, capacity, m))
  {
    FilterStep(raw, capacity, m);
    if Forwards(raw, capacity, m) {
      RisingAppend(Forwarded(raw, capacity), m, Finalized);
      if KindOf(m) == Some(Finalized) {
        AboveUnlessForgotten(raw, capacity, m);
      }
    }
  }

  /** For every stream and capacity: they strictly increase exactly when no Finalized arrives forgotten. */
  lemma {:induction false} FinalizedRisingIff(raw: seq<GeyserMessage>, capacity: nat)
    ensures Rising(Forwarded(raw, capacity), Finalized)
            <==> forall i :: 0 <= i < |raw| && KindOf(raw[i]) == Some(Finalized)
                   ==> !Forgotten(raw[..i], capacity, raw[i])
  {
    if raw == [] {
    } else {
      var n := |raw| - 1;
      assert raw == raw[..n] + [raw[n]];
      FinalizedRisingIff(raw[..n], capacity);
      RisingStep(raw[..n], capacity, raw[n]);
      assert forall i :: 0 <= i < n ==> raw[..n][..i] == raw[..i];
    }
  }

  /** Outside the window they need not: with the cache of the backend, a Finalized repeated after the blocks
      of the next 8192 slots is forwarded again. */
  lemma FinalizedRepeats(slot: Slot)
    ensures var first := Status(slot, Finalized);
            !Rising(Forwarded(Flood(first, LRU_CAPACITY) + [first], LRU_CAPACITY), Finalized)
  {
    DuplicatePasses(Status(slot, Finalized));
    RisingStep(Flood(Status(slot, Finalized), LRU_CAPACITY), LRU_CAPACITY, Status(slot, Finalized));
  }

  /** Within the window nothing is forgotten. */
  lemma WindowForgetsNothing(raw: seq<GeyserMessage>, capacity: nat)
    requires WithinWindow(Admitted(raw), capacity)
    ensures NoRepeats(Forwarded(raw, capacity)) && Rising(Forwarded(raw, capacity), Finalized)
  {
    RefinesIdeal(raw, capacity);
    IdealIff(raw, capacity);
    NoRepeatsIff(raw, capacity);
    FinalizedRisingIff(raw, capacity);
  }

  lemma InSequenceAppend(log: seq<GeyserMessage>, m: GeyserMessage)
    requires InSequence(log)
    requires forall r :: 0 <= r < Rank(KindOf(m)) ==> Mentions(log, (m.slot, LIFECYCLE[r]))
    ensures InSequence(log + [m])
  {
    assert (log + [m])[..|log|] == log;
  }

  lemma EarlierKindsForwarded(stream: seq<Tagged>, n: nat, capacity: nat)
    requires InOrder(stream) && n < |stream| && stream[n].1.slot >= MaxFinalized(Messages(stream)[..n])
    ensures var m := stream[n].1;
            forall r :: 0 <= r < Rank(KindOf(m)) ==>
              Mentions(Forwarded(Messages(stream)[..n], capacity), (m.slot, LIFECYCLE[r]))
  {
    var m := stream[n].1;
    forall r | 0 <= r < Rank(KindOf(m))
      ensures Mentions(Forwarded(Messages(stream)[..n], capacity), (m.slot, LIFECYCLE[r]))
    {
      SentBefore(stream, n, r);
      ReceivedWasForwarded(Messages(stream)[..n], capacity, (m.slot, LIFECYCLE[r]));
    }
  }

  /** Orderly producers, whatever the cache forgets: a forwarded message comes after all earlier kinds of
      its slot. */
  lemma {:induction false} ProducersKeepSequence(stream: seq<Tagged>, capacity: nat)
    requires InOrder(stream)
    ensures InSequence(Forwarded(Messages(stream), capacity))
  {
    if stream == [] {
    } else {
      var n, raw := |stream| - 1, Messages(stream);
      assert forall i :: 0 <= i < n ==> stream[..n][..i] == stream[..i];
      ProducersKeepSequence(stream[..n], capacity);
      assert raw[..n] == Messages(stream[..n]);
      assert raw == raw[..n] + [raw[n]];
      FilterStep(raw[..n], capacity, raw[n]);
      if Forwards(raw[..n], capacity, raw[n]) {
        EarlierKindsForwarded(stream, n, capacity);
        InSequenceAppend(Forwarded(raw[..n], capacity), raw[n]);
      }
    }
  }

  lemma {:induction false} InTurnIff(log: seq<GeyserMessage>)
    ensures InTurn(log) <==> InSequence(log) && NoRepeats(log)
  {
    if log == [] {
    } else {
      InTurnIff(log[..|log| - 1]);
    }
  }

  /** Deduplication of orderly producers gives every message once, and in its turn, exactly when none arrives
      forgotten. */
  lemma ProducersMergeInTurn(stream: seq<Tagged>, capacity: nat)
    requires InOrder(stream)
    ensures var raw := Messages(stream);
            InTurn(Forwarded(raw, capacity))
            <==> forall i :: 0 <= i < |raw| ==> !Forgotten(raw[..i], capacity, raw[i])
  {
    ProducersKeepSequence(stream, capacity);
    InTurnIff(Forwarded(Messages(stream), capacity));
    NoRepeatsIff(Messages(stream), capacity);
  }

  /** Within the window they always do, and their Finalized slots increase. */
  lemma ProducersWithinWindow(stream: seq<Tagged>, capacity: nat)
    requires InOrder(stream) && WithinWindow(Admitted(Messages(stream)), capacity)
    ensures InTurn(Forwarded(Messages(stream), capacity)) && Rising(Forwarded(Messages(stream), capacity), Finalized)
  {
    ProducersKeepSequence(stream, capacity);
    WindowForgetsNothing(Messages(stream), capacity);
    InTurnIff(Forwarded(Messages(stream), capacity));
  }

  // ----- The counter ------------------------------------------------------------------------

  lemma {:induction false} StoredIsMentioned(log: seq<GeyserMessage>, slot: Slot)
    requires slot in Run(log).slots
    ensures Mentions(log, (slot, None))
    ensures Run(log).slots[slot].commitment == Finalized ==> Mentions(log, (slot, Some(Finalized)))
  {
    var earlier, m := log[..|log| - 1], log[|log| - 1];
    assert log == earlier + [m];
    MentionsStep(earlier, m, (slot, None));
    MentionsStep(earlier, m, (slot, Some(Finalized)));
    if slot in Run(earlier).slots {
      StoredIsMentioned(earlier, slot);
    }
  }

  /** A clean stream never touches a slot that is stored as Finalized. */
  lemma {:induction false} CleanNeverHits(log: seq<GeyserMessage>)
    requires Clean(log)
    ensures FinalizedHits(log) == 0
  {
    if log == [] {
    } else {
      var earlier, m := log[..|log| - 1], log[|log| - 1];
      CleanNeverHits(earlier);
      if m.slot in Run(earlier).slots {
        StoredIsMentioned(earlier, m.slot);
      }
    }
  }

  lemma FirstPasses(raw: seq<GeyserMessage>, capacity: nat, m: GeyserMessage)
    requires Forwarded(raw, capacity) == raw && IsFirst(raw, m)
    ensures Forwarded(raw + [m], capacity) == raw + [m]
  {
    NeverLosesFirst(raw, capacity, m);
    FilterStep(raw, capacity, m);
  }

  lemma ThreePass(a: GeyserMessage, b: GeyserMessage, c: GeyserMessage, capacity: nat)
    requires IsFirst([], a) && IsFirst([a], b) && IsFirst([a, b], c)
    ensures Forwarded([a, b, c], capacity) == [a, b, c]
  {
    assert [] + [a] == [a] && [a] + [b] == [a, b] && [a, b] + [c] == [a, b, c];
    FirstPasses([], capacity, a);
    FirstPasses([a], capacity, b);
    FirstPasses([a, b], capacity, c);
  }

  lemma LateStatusFirst(block: GeyserMessage)
    requires block.Block?
    ensures IsFirst([], block) && IsFirst([block], Status(block.slot, Finalized))
    ensures IsFirst([block, Status(block.slot, Finalized)], Status(block.slot, Processed))
  {
    var finalized, late := Status(block.slot, Finalized), Status(block.slot, Processed);
    assert [] + [block] == [block] && [block] + [finalized] == [block, finalized];
    FilterStep([], 0, block);
    FilterStep([block], 0, finalized);
    MentionsStep([], block, KeyOf(finalized));
    MentionsStep([], block, KeyOf(late));
    MentionsStep([block], finalized, KeyOf(late));
  }

  /** Without that, the counter drifts even behind deduplication, whatever its capacity: a Processed after the
      Finalized leaves one Finalized slot counted but none stored. */
  lemma LateStatusDrifts(block: GeyserMessage, capacity: nat)
    requires block.Block?
    ensures var stream := [block, Status(block.slot, Finalized), Status(block.slot, Processed)];
            Drift(Run(Forwarded(stream, capacity))) == 1
  {
    LateStatusFirst(block);
    ThreePass(block, Status(block.slot, Finalized), Status(block.slot, Processed), capacity);
    LateStatusHits(block);
    DriftCountsHits([block, Status(block.slot, Finalized), Status(block.slot, Processed)]);
  }

  lemma LateStatusHits(block: GeyserMessage)
    requires block.Block?
    ensures FinalizedHits([block, Status(block.slot, Finalized), Status(block.slot, Processed)]) == 1
  {
    var finalized, late := Status(block.slot, Finalized), Status(block.slot, Processed);
    assert [] + [block] == [block] && [block] + [finalized] == [block, finalized];
    assert [block, finalized] + [late] == [block, finalized, late];
    RunStep([], block);
    RunStep([block], finalized);
    HitsAdd([], block);
    HitsAdd([block], finalized);
    HitsAdd([block, finalized], late);
  }

  // ----- Finality never goes back -----------------------------------------------------------

  /** A message at or above the Finalized pointer cannot move it back. */
  lemma PointersAdvance(st: State, m: GeyserMessage)
    requires st.slotFinalized <= m.slot
    ensures st.slotFinalized <= Apply(st, m).slotFinalized && st.slotProcessed <= Apply(st, m).slotProcessed
    ensures Apply(st, m).slotFinalized <= if KindOf(m) == Some(Finalized) then m.slot else st.slotFinalized
  {
  }

  lemma FinalityStep(raw: seq<GeyserMessage>, capacity: nat, m: GeyserMessage)
    requires Run(Forwarded(raw, capacity)).slotFinalized <= MaxFinalized(raw)
    ensures var before, after := Run(Forwarded(raw, capacity)), Run(Forwarded(raw + [m], capacity));
            && before.slotFinalized <= after.slotFinalized <= MaxFinalized(raw + [m])
            && before.slotProcessed <= after.slotProcessed
  {
    FilterStep(raw, capacity, m);
    if Forwards(raw, capacity, m) {
      RunStep(Forwarded(raw, capacity), m);
      PointersAdvance(Run(Forwarded(raw, capacity)), m);
    }
  }

  lemma {:induction false} FinalityBounded(raw: seq<GeyserMessage>, capacity: nat)
    ensures Run(Forwarded(raw, capacity)).slotFinalized <= MaxFinalized(raw)
  {
    if raw == [] {
    } else {
      var earlier := raw[..|raw| - 1];
      FinalityBounded(earlier, capacity);
      FinalityStep(earlier, capacity, raw[|raw| - 1]);
      assert raw == earlier + [raw[|raw| - 1]];
    }
  }

  /** For every stream and every cache capacity: the Finalized and Processed pointers never move back. */
  lemma {:induction false} FinalityMonotone(raw: seq<GeyserMessage>, capacity: nat, i: nat)
    requires i <= |raw|
    ensures var before, after := Run(Forwarded(raw[..i], capacity)), Run(Forwarded(raw, capacity));
            before.slotFinalized <= after.slotFinalized && before.slotProcessed <= after.slotProcessed
  {
    if i == |raw| {
      assert raw[..i] == raw;
    } else {
      var earlier, m := raw[..|raw| - 1], raw[|raw| - 1];
      assert earlier[..i] == raw[..i] && raw == earlier + [m];
      FinalityMonotone(earlier, capacity, i);
      FinalityBounded(earlier, capacity);
      FinalityStep(earlier, capacity, m);
    }
  }
}
