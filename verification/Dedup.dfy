/** The deduplicating consumer of the Redis stream (`redis.rs`): a finalized tip plus a bounded LRU
    cache of "seen" flags. */
module Dedup {
  import opened Wrappers
  import opened Geyser
  import opened Collections

  // The capacity that the backend passes to the cache.
  const LRU_CAPACITY: nat := 8192

  datatype SeenSlot = SeenSlot(block: bool, processed: bool, confirmed: bool, finalized: bool) {
    predicate Has(kind: Kind) {
      match kind
      case None => block
      case Some(Processed) => processed
      case Some(Confirmed) => confirmed
      case Some(Finalized) => finalized
    }

    function Mark(kind: Kind): (r: SeenSlot)
      ensures forall k: Kind :: r.Has(k) <==> k == kind || Has(k)
    {
      match kind
      case None => this.(block := true)
      case Some(Processed) => this.(processed := true)
      case Some(Confirmed) => this.(confirmed := true)
      case Some(Finalized) => this.(finalized := true)
    }
  }

  const UNSEEN := SeenSlot(false, false, false, false)

  /** `LruCache<Slot, SeenSlot>`: the keys from the most to the least recently used, and their values. */
  datatype Lru = Lru(order: seq<Slot>, entries: map<Slot, SeenSlot>)

  function Without(order: seq<Slot>, slot: Slot): seq<Slot> {
    if slot in order then
      var i := IndexOf(order, slot);
      order[..i] + order[i + 1..]
    else order
  }

  function Take(order: seq<Slot>, n: nat): seq<Slot> {
    if |order| <= n then order else order[..n]
  }

  /** Moves `slot` to the front; the least recently used key falls out of a full cache. */
  function MoveToFront(order: seq<Slot>, capacity: nat, slot: Slot): seq<Slot> {
    Take([slot] + Without(order, slot), capacity)
  }

  /** `LruCache::get_or_insert_mut(slot, SeenSlot::default)`. */
  function GetOrInsert(lru: Lru, capacity: nat, slot: Slot): (r: Lru)
    requires capacity > 0
    ensures slot in r.entries && r.entries[slot] == if slot in lru.entries then lru.entries[slot] else UNSEEN
  {
    var order := MoveToFront(lru.order, capacity, slot);
    assert order[0] == slot;
    Lru(order, map s | s in order :: if s in lru.entries then lru.entries[s] else UNSEEN)
  }

  // ----- The whole stream -------------------------------------------------------------------

  /** The highest slot of a Finalized status, 0 before the first one. */
  function MaxFinalized(raw: seq<GeyserMessage>): Slot {
    if raw == [] then 0
    else
      var tip := MaxFinalized(raw[..|raw| - 1]);
      var m := raw[|raw| - 1];
      if KindOf(m) == Some(Finalized) && m.slot > tip then m.slot else tip
  }

  /** The keys of the messages that were at or above the finalized tip when they arrived. */
  function Admitted(raw: seq<GeyserMessage>): seq<Key> {
    if raw == [] then []
    else
      var earlier := raw[..|raw| - 1];
      var m := raw[|raw| - 1];
      Admitted(earlier) + if m.slot < MaxFinalized(earlier) then [] else [KeyOf(m)]
  }

  ghost predicate Touched(log: seq<Key>, slot: Slot) {
    exists i :: 0 <= i < |log| && log[i].0 == slot
  }

  /** The slots touched after the last touch of `slot`. */
  function SlotsSince(log: seq<Key>, slot: Slot): set<Slot> {
    if log == [] || log[|log| - 1].0 == slot then {}
    else SlotsSince(log[..|log| - 1], slot) + {log[|log| - 1].0}
  }

  /** A cache that holds the `capacity` most recently touched slots still knows that `kind` of `slot`
      was admitted: reading the log backwards, no gap between two touches of `slot` is wide enough to
      evict it before the admission is found. */
  ghost predicate Remembered(log: seq<Key>, capacity: nat, slot: Slot, kind: Kind) {
    RememberedAfter(log, capacity, slot, kind, {})
  }

  /** As `Remembered`, when the slots in `since` were touched after `log`. */
  ghost predicate RememberedAfter(log: seq<Key>, capacity: nat, slot: Slot, kind: Kind, since: set<Slot>) {
    if log == [] then false
    else
      var (last, lastKind) := log[|log| - 1];
      var earlier := log[..|log| - 1];
      if last == slot then
        |since| < capacity && (lastKind == kind || RememberedAfter(earlier, capacity, slot, kind, {}))
      else RememberedAfter(earlier, capacity, slot, kind, since + {last})
  }

  /** The cache after the admitted messages `log`. */
  function Cache(log: seq<Key>, capacity: nat): Lru
    requires capacity > 0
  {
    if log == [] then Lru([], map[])
    else
      var (slot, kind) := log[|log| - 1];
      var lru := GetOrInsert(Cache(log[..|log| - 1], capacity), capacity, slot);
      lru.(entries := lru.entries[slot := lru.entries[slot].Mark(kind)])
  }

  /** All touched slots, the last touched first. */
  function Recent(log: seq<Key>): seq<Slot> {
    if log == [] then []
    else [log[|log| - 1].0] + Without(Recent(log[..|log| - 1]), log[|log| - 1].0)
  }

  lemma {:induction false} RecentSlots(log: seq<Key>)
    ensures Distinct(Recent(log))
    ensures forall s :: s in Recent(log) <==> Touched(log, s)
  {
    if log == [] {
    } else {
      var earlier, last := log[..|log| - 1], log[|log| - 1];
      RecentSlots(earlier);
      WithoutMembers(Recent(earlier), last.0);
      forall s ensures Touched(log, s) <==> s == last.0 || Touched(earlier, s) {
        TouchedStep(earlier, last, s);
        assert log == earlier + [last];
      }
    }
  }

  lemma TouchedStep(log: seq<Key>, key: Key, slot: Slot)
    ensures Touched(log + [key], slot) <==> slot == key.0 || Touched(log, slot)
  {
    var longer := log + [key];
    if Touched(log, slot) {
      var i :| 0 <= i < |log| && log[i].0 == slot;
      assert longer[i].0 == slot;
    }
    assert longer[|log|] == key;
  }

  lemma WithoutMembers(order: seq<Slot>, slot: Slot)
    requires Distinct(order)
    ensures Distinct(Without(order, slot))
    ensures forall s :: s in Without(order, slot) <==> s in order && s != slot
  {
    if slot in order {
      var i := IndexOf(order, slot);
      assert order == order[..i] + [slot] + order[i + 1..];
      assert slot !in order[i + 1..];
    }
  }

  /** In the recency order, exactly the slots touched since are in front of a slot. */
  lemma {:induction false} RecentFront(log: seq<Key>, slot: Slot)
    requires slot in Recent(log)
    ensures Elements(Recent(log)[..IndexOf(Recent(log), slot)]) == SlotsSince(log, slot)
  {
    var earlier, x := log[..|log| - 1], log[|log| - 1].0;
    if slot == x {
      assert Recent(log)[0] == x;
    } else {
      RecentSlots(earlier);
      WithoutMembers(Recent(earlier), x);
      RecentFront(earlier, slot);
      FrontAfterMove(Recent(earlier), x, slot);
    }
  }

  lemma RecentPosition(log: seq<Key>, slot: Slot)
    requires slot in Recent(log)
    ensures IndexOf(Recent(log), slot) == |SlotsSince(log, slot)|
  {
    RecentSlots(log);
    RecentFront(log, slot);
    DistinctSize(Recent(log)[..IndexOf(Recent(log), slot)]);
  }

  lemma FrontAfterMove(order: seq<Slot>, x: Slot, slot: Slot)
    requires Distinct(order) && slot in order && slot != x
    ensures var moved := [x] + Without(order, x);
            slot in moved
            && Elements(moved[..IndexOf(moved, slot)]) == Elements(order[..IndexOf(order, slot)]) + {x}
  {
    var moved := [x] + Without(order, x);
    WithoutMembers(order, x);
    var i := IndexOf(order, slot);
    if x in order && IndexOf(order, x) < i {
      FrontAfterShift(order, IndexOf(order, x), i);
    } else {
      FrontAfterInsert(order, x, i);
    }
  }

  lemma FrontAfterInsert(order: seq<Slot>, x: Slot, i: nat)
    requires Distinct(order) && i < |order| && order[i] != x && (x in order ==> IndexOf(order, x) > i)
    ensures var moved := [x] + Without(order, x);
            order[i] in moved
            && IndexOf(moved, order[i]) == i + 1
            && Elements(moved[..i + 1]) == Elements(order[..i]) + {x}
  {
    var moved := [x] + Without(order, x);
    WithoutMembers(order, x);
    assert moved[i + 1] == order[i];
    PositionUnique(moved, i + 1, order[i]);
    assert moved[..i + 1] == [x] + order[..i];
    ElementsOfConcat([x], order[..i]);
  }

  lemma FrontAfterShift(order: seq<Slot>, j: nat, i: nat)
    requires Distinct(order) && j < i < |order|
    ensures var moved := [order[j]] + Without(order, order[j]);
            order[i] in moved
            && IndexOf(moved, order[i]) == i
            && Elements(moved[..i]) == Elements(order[..i]) + {order[j]}
  {
    var x := order[j];
    PositionUnique(order, j, x);
    WithoutMembers(order, x);
    var moved := [x] + Without(order, x);
    assert moved[i] == order[i];
    PositionUnique(moved, i, order[i]);
    var low, high := order[..j], order[j + 1..i];
    assert moved[..i] == [x] + (low + high);
    assert order[..i] == low + [x] + high;
    ElementsOfConcat([x], low + high);
    ElementsOfConcat(low, high);
    ElementsOfConcat(low + [x], high);
    ElementsOfConcat(low, [x]);
  }

  lemma PositionUnique(order: seq<Slot>, i: nat, slot: Slot)
    requires Distinct(order) && i < |order| && order[i] == slot
    ensures IndexOf(order, slot) == i
  {
  }

  /** Truncating before or after the move makes no difference. */
  lemma MoveTruncated(order: seq<Slot>, capacity: nat, slot: Slot)
    requires Distinct(order) && capacity > 0
    ensures MoveToFront(Take(order, capacity), capacity, slot) == MoveToFront(order, capacity, slot)
  {
    if |order| > capacity {
      if slot in order[..capacity] {
        MoveWithin(order, capacity, slot);
      } else {
        KeepsFront(order, capacity, slot);
        assert Take([slot] + order[..capacity], capacity) == [slot] + order[..capacity - 1];
      }
    }
  }

  lemma MoveWithin(order: seq<Slot>, capacity: nat, slot: Slot)
    requires Distinct(order) && 0 < capacity < |order| && slot in order[..capacity]
    ensures MoveToFront(order[..capacity], capacity, slot) == MoveToFront(order, capacity, slot)
  {
    var kept := order[..capacity];
    var i := IndexOf(kept, slot);
    PositionUnique(order, i, slot);
    assert Without(kept, slot) == order[..i] + order[i + 1..capacity];
    assert ([slot] + (order[..i] + order[i + 1..]))[..capacity] == [slot] + (order[..i] + order[i + 1..capacity]);
  }

  lemma KeepsFront(order: seq<Slot>, n: nat, slot: Slot)
    requires 0 < n <= |order| && slot !in order[..n]
    ensures |Without(order, slot)| >= n - 1 && Without(order, slot)[..n - 1] == order[..n - 1]
  {
    if slot in order {
      var i := IndexOf(order, slot);
      assert i >= n;
    }
  }

  lemma {:induction false} CacheOrder(log: seq<Key>, capacity: nat)
    requires capacity > 0
    ensures Cache(log, capacity).order == Take(Recent(log), capacity)
    ensures Cache(log, capacity).entries.Keys == Elements(Cache(log, capacity).order)
  {
    if log == [] {
    } else {
      var earlier, slot := log[..|log| - 1], log[|log| - 1].0;
      CacheOrder(earlier, capacity);
      RecentSlots(earlier);
      MoveTruncated(Recent(earlier), capacity, slot);
      assert slot in MoveToFront(Recent(earlier), capacity, slot) by {
        assert MoveToFront(Recent(earlier), capacity, slot)[0] == slot;
      }
    }
  }

  /** The cache holds a slot exactly when fewer than `capacity` other slots were touched since. */
  lemma CacheHolds(log: seq<Key>, capacity: nat, slot: Slot)
    requires capacity > 0
    ensures slot in Cache(log, capacity).entries <==> Touched(log, slot) && |SlotsSince(log, slot)| < capacity
  {
    CacheOrder(log, capacity);
    RecentSlots(log);
    var recent := Recent(log);
    if slot in recent {
      RecentPosition(log, slot);
      var i := IndexOf(recent, slot);
      if i < capacity {
        assert Take(recent, capacity)[i] == slot;
      } else if slot in recent[..capacity] {
        PositionUnique(recent, IndexOf(recent[..capacity], slot), slot);
        assert false;
      }
    }
  }

  /** Later touches of other slots matter only by evicting the slot. */
  lemma {:induction false} RememberedUnlessEvicted(log: seq<Key>, capacity: nat, slot: Slot, kind: Kind,
                                                   since: set<Slot>)
    ensures RememberedAfter(log, capacity, slot, kind, since)
            <==> |SlotsSince(log, slot) + since| < capacity && Remembered(log, capacity, slot, kind)
  {
    if log == [] {
    } else {
      var earlier, last := log[..|log| - 1], log[|log| - 1].0;
      if last == slot {
        assert SlotsSince(log, slot) + since == since;
      } else {
        var here := SlotsSince(earlier, slot);
        assert SlotsSince(log, slot) + since == here + (since + {last});
        assert {} + {last} == {last};
        SubsetSize(here + {last}, here + (since + {last}));
        RememberedUnlessEvicted(earlier, capacity, slot, kind, since + {last});
        RememberedUnlessEvicted(earlier, capacity, slot, kind, {last});
      }
    }
  }

  ghost predicate CacheIsExact(log: seq<Key>, capacity: nat)
    requires capacity > 0
  {
    var entries := Cache(log, capacity).entries;
    forall s, k: Kind :: Remembered(log, capacity, s, k) <==> s in entries && entries[s].Has(k)
  }

  /** The flags in the bounded cache, for every stream whatever. */
  lemma {:induction false} CacheExact(log: seq<Key>, capacity: nat)
    requires capacity > 0
    ensures CacheIsExact(log, capacity)
  {
    if log == [] {
    } else {
      var earlier, last := log[..|log| - 1], log[|log| - 1];
      CacheExact(earlier, capacity);
      forall s, k: Kind
        ensures Remembered(log, capacity, s, k)
                <==> s in Cache(log, capacity).entries && Cache(log, capacity).entries[s].Has(k)
      {
        assert log == earlier + [last];
        CacheFlag(earlier, capacity, last, s, k);
      }
    }
  }

  lemma CacheFlag(log: seq<Key>, capacity: nat, key: Key, s: Slot, k: Kind)
    requires capacity > 0 && CacheIsExact(log, capacity)
    ensures var entries := Cache(log + [key], capacity).entries;
            Remembered(log + [key], capacity, s, k) <==> s in entries && entries[s].Has(k)
  {
    var longer := log + [key];
    assert longer[..|longer| - 1] == log;
    var before, entries := Cache(log, capacity).entries, Cache(longer, capacity).entries;
    if s == key.0 {
      assert Remembered(longer, capacity, s, k) <==> key.1 == k || Remembered(log, capacity, s, k);
    } else {
      assert {} + {key.0} == {key.0};
      RememberedUnlessEvicted(log, capacity, s, k, {key.0});
      CacheHolds(longer, capacity, s);
      CacheHolds(log, capacity, s);
      TouchedStep(log, key, s);
      assert SlotsSince(longer, s) == SlotsSince(log, s) + {key.0};
      SubsetSize(SlotsSince(log, s), SlotsSince(longer, s));
    }
  }

  lemma CacheStep(log: seq<Key>, capacity: nat, key: Key)
    requires capacity > 0
    ensures var lru := GetOrInsert(Cache(log, capacity), capacity, key.0);
            key.0 in lru.entries
            && Cache(log + [key], capacity) == lru.(entries := lru.entries[key.0 := lru.entries[key.0].Mark(key.1)])
            && forall k: Kind :: lru.entries[key.0].Has(k) <==> Remembered(log, capacity, key.0, k)
  {
    CacheExact(log, capacity);
    assert (log + [key])[..|log|] == log;
  }

  lemma ReceiveStep(raw: seq<GeyserMessage>, capacity: nat, m: GeyserMessage)
    requires capacity > 0
    ensures MaxFinalized(raw + [m])
            == if KindOf(m) == Some(Finalized) && m.slot > MaxFinalized(raw) then m.slot else MaxFinalized(raw)
    ensures Admitted(raw + [m]) == Admitted(raw) + if m.slot < MaxFinalized(raw) then [] else [KeyOf(m)]
    ensures m.slot < MaxFinalized(raw) ==> Admitted(raw + [m]) == Admitted(raw)
    ensures m.slot >= MaxFinalized(raw) ==>
              var lru := GetOrInsert(Cache(Admitted(raw), capacity), capacity, m.slot);
              m.slot in lru.entries
              && Cache(Admitted(raw + [m]), capacity)
                 == lru.(entries := lru.entries[m.slot := lru.entries[m.slot].Mark(KindOf(m))])
              && (Forwards(raw, capacity, m) <==> !lru.entries[m.slot].Has(KindOf(m)))
    ensures Forwarded(raw + [m], capacity) == Forwarded(raw, capacity) + if Forwards(raw, capacity, m) then [m] else []
  {
    assert (raw + [m])[..|raw|] == raw;
    CacheStep(Admitted(raw), capacity, KeyOf(m));
  }

  /** What `Receive` decides after the raw stream `raw`. */
  ghost predicate Forwards(raw: seq<GeyserMessage>, capacity: nat, m: GeyserMessage) {
    m.slot >= MaxFinalized(raw) && !Remembered(Admitted(raw), capacity, m.slot, KindOf(m))
  }

  /** The messages that reach the backend. */
  ghost function Forwarded(raw: seq<GeyserMessage>, capacity: nat): seq<GeyserMessage> {
    if raw == [] then []
    else
      var earlier := raw[..|raw| - 1];
      var m := raw[|raw| - 1];
      Forwarded(earlier, capacity) + if Forwards(earlier, capacity, m) then [m] else []
  }

  // ----- The ideal filter -------------------------------------------------------------------

  /** The ideal decision: at or above every earlier Finalized slot, and never seen before. */
  ghost predicate IsFirst(raw: seq<GeyserMessage>, m: GeyserMessage) {
    m.slot >= MaxFinalized(raw) && !Mentions(raw, KeyOf(m))
  }

  ghost function FirstOccurrences(raw: seq<GeyserMessage>): seq<GeyserMessage> {
    if raw == [] then []
    else
      var earlier := raw[..|raw| - 1];
      var m := raw[|raw| - 1];
      FirstOccurrences(earlier) + if IsFirst(earlier, m) then [m] else []
  }

  lemma FilterStep(raw: seq<GeyserMessage>, capacity: nat, m: GeyserMessage)
    ensures Forwarded(raw + [m], capacity)
            == if Forwards(raw, capacity, m) then Forwarded(raw, capacity) + [m] else Forwarded(raw, capacity)
    ensures FirstOccurrences(raw + [m])
            == if IsFirst(raw, m) then FirstOccurrences(raw) + [m] else FirstOccurrences(raw)
    ensures MaxFinalized(raw + [m])
            == if KindOf(m) == Some(Finalized) && m.slot > MaxFinalized(raw) then m.slot else MaxFinalized(raw)
  {
    assert (raw + [m])[..|raw|] == raw;
  }

  /** Fewer than `capacity` other slots are admitted between two successive admissions of a slot. */
  ghost predicate WithinWindow(log: seq<Key>, capacity: nat) {
    forall i :: 0 <= i < |log| && Touched(log[..i], log[i].0) ==> |SlotsSince(log[..i], log[i].0)| < capacity
  }

  lemma MentionsStep(raw: seq<GeyserMessage>, m: GeyserMessage, key: Key)
    ensures Mentions(raw + [m], key) <==> key == KeyOf(m) || Mentions(raw, key)
  {
    var longer := raw + [m];
    if Mentions(raw, key) {
      var i :| 0 <= i < |raw| && KeyOf(raw[i]) == key;
      assert longer[i] == raw[i];
    }
    assert longer[|raw|] == m;
  }

  lemma {:induction false} MaxFinalizedIsMax(raw: seq<GeyserMessage>)
    ensures forall i :: 0 <= i < |raw| && KindOf(raw[i]) == Some(Finalized) ==> raw[i].slot <= MaxFinalized(raw)
    ensures MaxFinalized(raw) == 0 || Mentions(raw, (MaxFinalized(raw), Some(Finalized)))
  {
    if raw == [] {
    } else {
      var earlier, m := raw[..|raw| - 1], raw[|raw| - 1];
      assert raw == earlier + [m];
      MaxFinalizedIsMax(earlier);
      MentionsStep(earlier, m, (MaxFinalized(raw), Some(Finalized)));
    }
  }

  /** Above the tip nothing was ever refused, so admitted and received keys coincide. */
  lemma {:induction false} AdmittedAboveTip(raw: seq<GeyserMessage>, key: Key)
    requires key.0 >= MaxFinalized(raw)
    ensures key in Admitted(raw) <==> Mentions(raw, key)
  {
    if raw == [] {
    } else {
      var earlier, m := raw[..|raw| - 1], raw[|raw| - 1];
      assert raw == earlier + [m];
      AdmittedAboveTip(earlier, key);
      MentionsStep(earlier, m, key);
    }
  }

  lemma {:induction false} RememberedWasSeen(log: seq<Key>, capacity: nat, slot: Slot, kind: Kind, since: set<Slot>)
    requires RememberedAfter(log, capacity, slot, kind, since)
    ensures (slot, kind) in log
  {
    var earlier, last := log[..|log| - 1], log[|log| - 1];
    if last != (slot, kind) {
      RememberedWasSeen(earlier, capacity, slot, kind, if last.0 == slot then {} else since + {last.0});
    }
  }

  lemma {:induction false} SeenIsRemembered(log: seq<Key>, capacity: nat, slot: Slot, kind: Kind)
    requires WithinWindow(log, capacity)
    requires Touched(log, slot) ==> |SlotsSince(log, slot)| < capacity
    ensures (slot, kind) in log ==> Remembered(log, capacity, slot, kind)
  {
    if log == [] {
    } else {
      var earlier, last := log[..|log| - 1], log[|log| - 1];
      assert log == earlier + [last];
      assert forall i :: 0 <= i < |earlier| ==> earlier[..i] == log[..i];
      TouchedStep(earlier, last, slot);
      if last.0 == slot {
        SeenIsRemembered(earlier, capacity, slot, kind);
        assert last == (slot, kind) <==> last.1 == kind;
      } else {
        SubsetSize(SlotsSince(earlier, slot), SlotsSince(log, slot));
        SeenIsRemembered(earlier, capacity, slot, kind);
        assert {} + {last.0} == {last.0};
        RememberedUnlessEvicted(earlier, capacity, slot, kind, {last.0});
        if (slot, kind) in log { assert Touched(log, slot); }
      }
    }
  }

  /** Whatever the stream, the bounded cache never loses a first occurrence: evictions can only let
      duplicates through. */
  lemma NeverLosesFirst(raw: seq<GeyserMessage>, capacity: nat, m: GeyserMessage)
    ensures IsFirst(raw, m) ==> Forwards(raw, capacity, m)
  {
    if m.slot >= MaxFinalized(raw) && Remembered(Admitted(raw), capacity, m.slot, KindOf(m)) {
      RememberedWasSeen(Admitted(raw), capacity, m.slot, KindOf(m), {});
      AdmittedAboveTip(raw, KeyOf(m));
    }
  }

  /** Within the window, the bounded cache is the ideal filter. */
  lemma {:induction false} RefinesIdeal(raw: seq<GeyserMessage>, capacity: nat)
    requires WithinWindow(Admitted(raw), capacity)
    ensures Forwarded(raw, capacity) == FirstOccurrences(raw)
  {
    if raw == [] {
    } else {
      var earlier, m := raw[..|raw| - 1], raw[|raw| - 1];
      var log, now := Admitted(earlier), Admitted(raw);
      assert forall i :: 0 <= i < |log| ==> log[..i] == now[..i] && log[i] == now[i];
      RefinesIdeal(earlier, capacity);
      NeverLosesFirst(earlier, capacity, m);
      if m.slot >= MaxFinalized(earlier) {
        assert now[..|log|] == log && now[|log|] == KeyOf(m);
        SeenIsRemembered(log, capacity, m.slot, KindOf(m));
        AdmittedAboveTip(earlier, KeyOf(m));
      }
    }
  }

  // ----- Where the bounded cache is not ideal -----------------------------------------------

  /** The message was received before and is at or above the tip, but a gap wide enough to evict its slot
      lies between every earlier admission of it and now. */
  ghost predicate Forgotten(raw: seq<GeyserMessage>, capacity: nat, m: GeyserMessage) {
    && m.slot >= MaxFinalized(raw)
    && Mentions(raw, KeyOf(m))
    && !Remembered(Admitted(raw), capacity, m.slot, KindOf(m))
  }

  /** How many messages arrive forgotten. */
  ghost function ForgottenCount(raw: seq<GeyserMessage>, capacity: nat): nat {
    if raw == [] then 0
    else
      var earlier, m := raw[..|raw| - 1], raw[|raw| - 1];
      ForgottenCount(earlier, capacity) + if Forgotten(earlier, capacity, m) then 1 else 0
  }

  /** For every stream and capacity, the surplus over the ideal filter is one message for each forgotten
      one. */
  lemma {:induction false} SurplusIsForgotten(raw: seq<GeyserMessage>, capacity: nat)
    ensures |Forwarded(raw, capacity)| == |FirstOccurrences(raw)| + ForgottenCount(raw, capacity)
    ensures ForgottenCount(raw, capacity) == 0 ==> Forwarded(raw, capacity) == FirstOccurrences(raw)
  {
    if raw == [] {
    } else {
      var earlier, m := raw[..|raw| - 1], raw[|raw| - 1];
      assert raw == earlier + [m];
      SurplusIsForgotten(earlier, capacity);
      FilterStep(earlier, capacity, m);
      NeverLosesFirst(earlier, capacity, m);
    }
  }

  lemma {:induction false} NoneForgotten(raw: seq<GeyserMessage>, capacity: nat)
    ensures ForgottenCount(raw, capacity) == 0
            <==> forall i :: 0 <= i < |raw| ==> !Forgotten(raw[..i], capacity, raw[i])
  {
    if raw == [] {
    } else {
      var n := |raw| - 1;
      NoneForgotten(raw[..n], capacity);
      assert forall i :: 0 <= i < n ==> raw[..n][..i] == raw[..i];
    }
  }

  /** The bounded filter is ideal exactly when no message arrives forgotten. */
  lemma IdealIff(raw: seq<GeyserMessage>, capacity: nat)
    ensures Forwarded(raw, capacity) == FirstOccurrences(raw)
            <==> forall i :: 0 <= i < |raw| ==> !Forgotten(raw[..i], capacity, raw[i])
  {
    SurplusIsForgotten(raw, capacity);
    NoneForgotten(raw, capacity);
  }

  /** For every capacity: a repeated message at or above the tip passes again once `capacity` other slots
      were admitted since the last touch of its slot. */
  lemma EvictedPassesAgain(raw: seq<GeyserMessage>, capacity: nat, m: GeyserMessage)
    requires m.slot >= MaxFinalized(raw) && Mentions(raw, KeyOf(m))
    requires |SlotsSince(Admitted(raw), m.slot)| >= capacity
    ensures Forgotten(raw, capacity, m) && Forwards(raw, capacity, m) && !IsFirst(raw, m)
  {
    assert SlotsSince(Admitted(raw), m.slot) + {} == SlotsSince(Admitted(raw), m.slot);
    RememberedUnlessEvicted(Admitted(raw), capacity, m.slot, KindOf(m), {});
  }

  function PlainBlock(slot: Slot): GeyserMessage {
    Block(None, slot, "", 0, slot, slot, "", [])
  }

  /** A message, then the blocks of the next `n` slots. */
  function Flood(first: GeyserMessage, n: nat): seq<GeyserMessage> {
    if n == 0 then [first] else Flood(first, n - 1) + [PlainBlock(first.slot + n)]
  }

  function SlotRange(base: Slot, n: nat): set<Slot> {
    if n == 0 then {} else SlotRange(base, n - 1) + {base + n}
  }

  lemma {:induction false} SlotRangeSize(base: Slot, n: nat)
    ensures |SlotRange(base, n)| == n
    ensures forall s :: s in SlotRange(base, n) ==> s <= base + n
  {
    if n > 0 {
      SlotRangeSize(base, n - 1);
    }
  }

  /** `first` was received, is not below the tip, and the slots in `since` were admitted after it. */
  ghost predicate Flooded(raw: seq<GeyserMessage>, first: GeyserMessage, since: set<Slot>) {
    && MaxFinalized(raw) <= first.slot
    && Mentions(raw, KeyOf(first))
    && SlotsSince(Admitted(raw), first.slot) == since
  }

  lemma FloodStart(first: GeyserMessage)
    ensures Flooded([first], first, {})
  {
    var raw: seq<GeyserMessage> := [];
    FilterStep(raw, 1, first);
    MentionsStep(raw, first, KeyOf(first));
    assert raw + [first] == [first];
    assert Admitted([first]) == [KeyOf(first)];
  }

  lemma FloodStep(raw: seq<GeyserMessage>, first: GeyserMessage, since: set<Slot>, block: GeyserMessage)
    requires Flooded(raw, first, since) && block.Block? && block.slot > first.slot
    ensures Flooded(raw + [block], first, since + {block.slot})
  {
    var log := Admitted(raw);
    FilterStep(raw, 1, block);
    MentionsStep(raw, block, KeyOf(first));
    assert (raw + [block])[..|raw|] == raw;
    assert (log + [KeyOf(block)])[..|log|] == log;
  }

  lemma FloodUnfold(first: GeyserMessage, n: nat)
    requires n > 0
    ensures Flood(first, n) == Flood(first, n - 1) + [PlainBlock(first.slot + n)]
    ensures SlotRange(first.slot, n) == SlotRange(first.slot, n - 1) + {PlainBlock(first.slot + n).slot}
  {
  }

  lemma {:induction false} FloodIs(first: GeyserMessage, n: nat, raw: seq<GeyserMessage>, since: set<Slot>)
    requires raw == Flood(first, n) && since == SlotRange(first.slot, n)
    ensures Flooded(raw, first, since)
  {
    if n == 0 {
      FloodStart(first);
    } else {
      var earlier, before := Flood(first, n - 1), SlotRange(first.slot, n - 1);
      FloodUnfold(first, n);
      FloodIs(first, n - 1, earlier, before);
      FloodStep(earlier, first, before, PlainBlock(first.slot + n));
    }
  }

  /** The cache of the backend is not ideal: after any message and the blocks of the next 8192 slots, the
      same message passes a second time. */
  lemma DuplicatePasses(first: GeyserMessage)
    ensures var raw := Flood(first, 8192);
            Forgotten(raw, LRU_CAPACITY, first) && Forwards(raw, LRU_CAPACITY, first) && !IsFirst(raw, first)
  {
    FloodIs(first, LRU_CAPACITY, Flood(first, LRU_CAPACITY), SlotRange(first.slot, LRU_CAPACITY));
    SlotRangeSize(first.slot, LRU_CAPACITY);
    EvictedPassesAgain(Flood(first, LRU_CAPACITY), LRU_CAPACITY, first);
  }

  lemma {:induction false} ForwardedWasReceived(raw: seq<GeyserMessage>, capacity: nat, key: Key)
    requires Mentions(Forwarded(raw, capacity), key)
    ensures Mentions(raw, key)
  {
    if raw != [] {
      var earlier, m := raw[..|raw| - 1], raw[|raw| - 1];
      assert raw == earlier + [m];
      FilterStep(earlier, capacity, m);
      MentionsStep(earlier, m, key);
      MentionsStep(Forwarded(earlier, capacity), m, key);
      if Mentions(Forwarded(earlier, capacity), key) {
        ForwardedWasReceived(earlier, capacity, key);
      }
    }
  }

  /** For every capacity, everything received about a slot at or above the tip was forwarded at least once. */
  lemma {:induction false} ReceivedWasForwarded(raw: seq<GeyserMessage>, capacity: nat, key: Key)
    requires key.0 >= MaxFinalized(raw) && Mentions(raw, key)
    ensures Mentions(Forwarded(raw, capacity), key)
  {
    if raw != [] {
      var earlier, m := raw[..|raw| - 1], raw[|raw| - 1];
      assert raw == earlier + [m];
      FilterStep(earlier, capacity, m);
      MentionsStep(earlier, m, key);
      MentionsStep(Forwarded(earlier, capacity), m, key);
      if Mentions(earlier, key) {
        ReceivedWasForwarded(earlier, capacity, key);
      } else {
        NeverLosesFirst(earlier, capacity, m);
      }
    }
  }

  /** No message is repeated. */
  ghost predicate NoRepeats(log: seq<GeyserMessage>) {
    log == [] ||
    var earlier, m := log[..|log| - 1], log[|log| - 1];
    NoRepeats(earlier) && !Mentions(earlier, KeyOf(m))
  }

  lemma NoRepeatsStep(raw: seq<GeyserMessage>, capacity: nat, m: GeyserMessage)
    ensures NoRepeats(Forwarded(raw + [m], capacity))
            <==> NoRepeats(Forwarded(raw, capacity)) && !Forgotten(raw, capacity, m)
  {
    var log := Forwarded(raw, capacity);
    FilterStep(raw, capacity, m);
    if Forwards(raw, capacity, m) {
      assert (log + [m])[..|log|] == log;
      if Mentions(raw, KeyOf(m)) {
        ReceivedWasForwarded(raw, capacity, KeyOf(m));
      } else if Mentions(log, KeyOf(m)) {
        ForwardedWasReceived(raw, capacity, KeyOf(m));
      }
    }
  }

  /** For every stream and capacity: the backend never gets a message twice exactly when none arrives
      forgotten. */
  lemma {:induction false} NoRepeatsIff(raw: seq<GeyserMessage>, capacity: nat)
    ensures NoRepeats(Forwarded(raw, capacity))
            <==> forall i :: 0 <= i < |raw| ==> !Forgotten(raw[..i], capacity, raw[i])
  {
    if raw == [] {
    } else {
      var n := |raw| - 1;
      assert raw == raw[..n] + [raw[n]];
      NoRepeatsIff(raw[..n], capacity);
      NoRepeatsStep(raw[..n], capacity, raw[n]);
      assert forall i :: 0 <= i < n ==> raw[..n][..i] == raw[..i];
    }
  }

  // ----- The state machine ------------------------------------------------------------------

  class Deduplicator {
    const capacity: nat
    var finalizedSlotTip: Slot
    var lru: Lru
    ghost var received: seq<GeyserMessage>
    ghost var forwarded: seq<GeyserMessage>

    ghost predicate Valid()
      reads this
    {
      && capacity > 0
      && finalizedSlotTip == MaxFinalized(received)
      && lru == Cache(Admitted(received), capacity)
      && forwarded == Forwarded(received, capacity)
    }

    constructor (capacity: nat)
      requires capacity > 0
      ensures Valid() && received == forwarded == [] && this.capacity == capacity
    {
      this.capacity := capacity;
      finalizedSlotTip := 0;
      lru := Lru([], map[]);
      received, forwarded := [], [];
    }

    /** One decoded message of the stream; `forward` tells whether the backend gets it. */
    method Receive(m: GeyserMessage) returns (forward: bool)
      requires Valid()
      modifies this
      ensures Valid() && received == old(received) + [m]
      ensures forward <==> Forwards(old(received), capacity, m)
      ensures forwarded == old(forwarded) + if forward then [m] else []
    {
      ReceiveStep(received, capacity, m);
      var slot, commitment := m.slot, KindOf(m);
      if slot < finalizedSlotTip {
        forward := false;
      } else {
        if commitment == Some(Finalized) {
          finalizedSlotTip := slot;
        }
        lru := GetOrInsert(lru, capacity, slot);
        var entry := lru.entries[slot];
        forward := !entry.Has(commitment);
        lru := lru.(entries := lru.entries[slot := entry.Mark(commitment)]);
      }
      received := received + [m];
      forwarded := if forward then forwarded + [m] else forwarded;
    }
  }
}
