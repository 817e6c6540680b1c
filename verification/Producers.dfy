/** Several producers write the same slots to the Redis stream; deduplication merges them. */
module Producers {
  import opened Wrappers
  import opened Geyser
  import opened Collections
  import opened Dedup

  /** What a producer sends about one slot, in this order. */
  const LIFECYCLE: seq<Kind> := [None, Some(Processed), Some(Confirmed), Some(Finalized)]

  function Rank(kind: Kind): (r: nat)
    ensures r < |LIFECYCLE| && LIFECYCLE[r] == kind
  {
    match kind
    case None => 0
    case Some(Processed) => 1
    case Some(Confirmed) => 2
    case Some(Finalized) => 3
  }

  /** A message with the producer that wrote it to the stream. */
  type Tagged = (nat, GeyserMessage)

  ghost predicate Sent(stream: seq<Tagged>, producer: nat, key: Key) {
    exists i :: 0 <= i < |stream| && stream[i].0 == producer && KeyOf(stream[i].1) == key
  }

  /** Every producer sends a kind only after all earlier kinds of that slot; repeating is allowed. */
  ghost predicate InOrder(stream: seq<Tagged>) {
    forall i, r :: 0 <= i < |stream| && 0 <= r < Rank(KindOf(stream[i].1))
      ==> Sent(stream[..i], stream[i].0, (stream[i].1.slot, LIFECYCLE[r]))
  }

  function Messages(stream: seq<Tagged>): seq<GeyserMessage> {
    seq(|stream|, i requires 0 <= i < |stream| => stream[i].1)
  }

  /** The kinds of the messages about one slot, in order. */
  function KindsOf(log: seq<GeyserMessage>, slot: Slot): seq<Kind> {
    if log == [] then []
    else
      var m := log[|log| - 1];
      KindsOf(log[..|log| - 1], slot) + if m.slot == slot then [KindOf(m)] else []
  }

  lemma KindsOfStep(log: seq<GeyserMessage>, m: GeyserMessage, slot: Slot)
    ensures KindsOf(log + [m], slot) == KindsOf(log, slot) + if m.slot == slot then [KindOf(m)] else []
  {
    assert (log + [m])[..|log|] == log;
  }

  lemma SentIsMentioned(stream: seq<Tagged>, i: nat, producer: nat, key: Key)
    requires i <= |stream| && Sent(stream[..i], producer, key)
    ensures Mentions(Messages(stream)[..i], key)
  {
    var j :| 0 <= j < i && stream[..i][j].0 == producer && KeyOf(stream[..i][j].1) == key;
    assert KeyOf(Messages(stream)[..i][j]) == key;
  }

  /** A slot has come out as a prefix of its lifecycle, and while the slot is above the tip that prefix
      is everything received about it. */
  ghost predicate Merged(raw: seq<GeyserMessage>, slot: Slot) {
    var kinds := KindsOf(FirstOccurrences(raw), slot);
    && kinds <= LIFECYCLE
    && (slot >= MaxFinalized(raw) ==> forall k: Kind :: Mentions(raw, (slot, k)) <==> k in kinds)
  }

  lemma MergeStep(raw: seq<GeyserMessage>, m: GeyserMessage, slot: Slot)
    requires Merged(raw, slot)
    requires forall r :: 0 <= r < Rank(KindOf(m)) ==> Mentions(raw, (m.slot, LIFECYCLE[r]))
    ensures Merged(raw + [m], slot)
  {
    var longer := raw + [m];
    assert longer[..|longer| - 1] == raw;
    assert MaxFinalized(longer) >= MaxFinalized(raw);
    forall k: Kind ensures Mentions(longer, (slot, k)) <==> (slot, k) == KeyOf(m) || Mentions(raw, (slot, k)) {
      MentionsStep(raw, m, (slot, k));
    }
    if !IsFirst(raw, m) {
      assert FirstOccurrences(longer) == FirstOccurrences(raw);
    } else {
      assert FirstOccurrences(longer) == FirstOccurrences(raw) + [m];
      var kinds := KindsOf(FirstOccurrences(raw), slot);
      KindsOfStep(FirstOccurrences(raw), m, slot);
      if m.slot == slot {
        NextKind(kinds, KindOf(m));
      }
    }
  }

  lemma {:induction false} FirstsMerged(stream: seq<Tagged>, slot: Slot)
    requires InOrder(stream)
    ensures Merged(Messages(stream), slot)
  {
    var raw := Messages(stream);
    if stream == [] {
    } else {
      var n := |stream| - 1;
      var earlier := stream[..n];
      assert forall i :: 0 <= i < n ==> earlier[..i] == stream[..i];
      FirstsMerged(earlier, slot);
      assert raw == Messages(earlier) + [raw[n]];
      forall r | 0 <= r < Rank(KindOf(raw[n])) ensures Mentions(Messages(earlier), (raw[n].slot, LIFECYCLE[r])) {
        SentIsMentioned(stream, n, stream[n].0, (raw[n].slot, LIFECYCLE[r]));
        assert raw[..n] == Messages(earlier);
      }
      MergeStep(Messages(earlier), raw[n], slot);
    }
  }

  /** The merged stream while no slot leaves the LRU window too early: every slot comes out as a prefix of
      block, Processed, Confirmed, Finalized. So the kinds of a slot come in that order, each at most once,
      nothing follows its Finalized, and at or above the tip nothing received is missing. */
  lemma MergedInOrder(stream: seq<Tagged>, capacity: nat, slot: Slot)
    requires InOrder(stream) && WithinWindow(Admitted(Messages(stream)), capacity)
    ensures var raw := Messages(stream);
            var kinds := KindsOf(Forwarded(raw, capacity), slot);
            && kinds <= LIFECYCLE
            && (slot >= MaxFinalized(raw) ==> forall k: Kind :: Mentions(raw, (slot, k)) <==> k in kinds)
  {
    FirstsMerged(stream, slot);
    RefinesIdeal(Messages(stream), capacity);
  }

  /** A new kind whose predecessors are all present extends the prefix by one. */
  lemma NextKind(kinds: seq<Kind>, kind: Kind)
    requires kinds <= LIFECYCLE && kind !in kinds
    requires forall r :: 0 <= r < Rank(kind) ==> LIFECYCLE[r] in kinds
    ensures kinds + [kind] <= LIFECYCLE
  {
    var r, n := Rank(kind), |kinds|;
    assert n <= r;
    assert n >= r by {
      if n < r { LaterNotInPrefix(n); }
    }
  }

  lemma LaterNotInPrefix(n: nat)
    requires n < |LIFECYCLE|
    ensures LIFECYCLE[n] !in LIFECYCLE[..n]
  {
    assert forall i :: 0 <= i < |LIFECYCLE| ==> Rank(LIFECYCLE[i]) == i;
  }
}
