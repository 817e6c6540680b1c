/** The sliding window of recent slots, `slots_info` of the update loop in `rpc_solana.rs`. */
module Window {
  import opened Wrappers
  import opened Geyser
  import opened Collections
  import opened Storage
  import opened Fees

  const MAX_NUM_RECENT_SLOT_INFO: nat := 150

  datatype SlotInfo = SlotInfo(
    leader: Option<Pubkey>,
    slot: Slot,
    commitment: CommitmentLevel,
    hash: Hash,
    time: int,
    height: nat,
    transactions: seq<GeyserTransaction>,
    fees: FeeIndex)

  type SlotsInfo = map<Slot, SlotInfo>

  /** `StreamsSlotInfo::new` for a block. */
  function InfoOf(m: GeyserMessage): SlotInfo
    requires m.Block?
  {
    SlotInfo(m.leader, m.slot, Processed, m.hash, m.time, m.height, m.transactions, FeeIndexOf(m.transactions))
  }

  /** Drops the smallest slot of an overfull window. */
  function Trimmed(window: SlotsInfo): SlotsInfo {
    if |window| <= MAX_NUM_RECENT_SLOT_INFO then window else window - {MinOf(window.Keys)}
  }

  function Apply(window: SlotsInfo, m: GeyserMessage): SlotsInfo {
    match m
    case Status(slot, commitment) =>
      if slot in window then window[slot := window[slot].(commitment := commitment)] else window
    case Block(_, _, _, _, _, _, _, _) => Trimmed(window[m.slot := InfoOf(m)])
  }

  function RunWindow(log: seq<GeyserMessage>): SlotsInfo {
    if log == [] then map[] else Apply(RunWindow(log[..|log| - 1]), log[|log| - 1])
  }

  function BlockSlots(log: seq<GeyserMessage>): set<Slot> {
    set m | m in log && m.Block? :: m.slot
  }

  /** What the last block of a slot and the statuses after it say, with no window at all. */
  function LatestInfo(log: seq<GeyserMessage>, slot: Slot): Option<SlotInfo> {
    if log == [] then None
    else
      var earlier, m := LatestInfo(log[..|log| - 1], slot), log[|log| - 1];
      if m.slot != slot then earlier
      else if m.Block? then Some(InfoOf(m))
      else if earlier.Some? then Some(earlier.value.(commitment := m.commitment))
      else None
  }

  // ----- The n largest slots ----------------------------------------------------------------

  /** `top` are the `n` largest elements of `all`, or all of them if there are fewer. */
  ghost predicate IsTop(top: set<Slot>, all: set<Slot>, n: nat) {
    && top <= all
    && |top| <= n
    && (|top| < n ==> top == all)
    && (forall x, y :: x in top && y in all && y !in top ==> y < x)
  }

  lemma TopUnique(a: set<Slot>, b: set<Slot>, all: set<Slot>, n: nat)
    requires IsTop(a, all, n) && IsTop(b, all, n)
    ensures a == b
  {
    forall x ensures x in a <==> x in b {
      TopContains(a, b, all, n, x);
      TopContains(b, a, all, n, x);
    }
  }

  lemma TopContains(a: set<Slot>, b: set<Slot>, all: set<Slot>, n: nat, x: Slot)
    requires IsTop(a, all, n) && IsTop(b, all, n)
    ensures x in a ==> x in b
  {
    if x in a && x !in b {
      forall y | y in b ensures y in a {}
      SubsetSize(b + {x}, a);
    }
  }

  /** A slot below `n` others is not among the `n` largest. */
  lemma TopExcludes(top: set<Slot>, all: set<Slot>, n: nat, above: set<Slot>, x: Slot)
    requires IsTop(top, all, n) && above <= all && |above| >= n && forall y :: y in above ==> y > x
    ensures x !in top
  {
    if x in top {
      forall y | y in above ensures y in top {}
      SubsetSize(above + {x}, top);
    }
  }

  /** Inserting a slot and dropping the smallest if there are too many. */
  lemma TopInsert(top: set<Slot>, all: set<Slot>, n: nat, x: Slot)
    requires IsTop(top, all, n)
    ensures |top + {x}| <= n ==> IsTop(top + {x}, all + {x}, n)
    ensures |top + {x}| > n ==> IsTop(top + {x} - {MinOf(top + {x})}, all + {x}, n) && |top + {x}| == n + 1
  {
    if x in top {
      assert top + {x} == top && all + {x} == all;
    } else if |top| == n {
      TopInsertFull(top, all, n, x);
    }
  }

  lemma TopInsertFull(top: set<Slot>, all: set<Slot>, n: nat, x: Slot)
    requires IsTop(top, all, n) && x !in top && |top| == n
    ensures |top + {x}| == n + 1
    ensures IsTop(top + {x} - {MinOf(top + {x})}, all + {x}, n)
  {
    var more := top + {x};
    var least := MinOf(more);
    assert |more - {least}| == n;
    assert more - {least} <= all + {x};
  }

  // ----- The window over whole runs ---------------------------------------------------------

  lemma BlockSlotsStep(log: seq<GeyserMessage>, m: GeyserMessage)
    ensures BlockSlots(log + [m]) == BlockSlots(log) + if m.Block? then {m.slot} else {}
  {
    assert forall x :: x in log + [m] <==> x in log || x == m;
  }

  /** Inserting any entry and trimming keeps the largest slots. */
  lemma InsertKeepsTop(window: SlotsInfo, all: set<Slot>, slot: Slot, info: SlotInfo)
    requires IsTop(window.Keys, all, MAX_NUM_RECENT_SLOT_INFO)
    ensures IsTop(Trimmed(window[slot := info]).Keys, all + {slot}, MAX_NUM_RECENT_SLOT_INFO)
  {
    TopInsert(window.Keys, all, MAX_NUM_RECENT_SLOT_INFO, slot);
    TrimmedKeys(window[slot := info], window.Keys + {slot});
  }

  lemma TrimmedKeys(window: SlotsInfo, keys: set<Slot>)
    requires window.Keys == keys
    ensures |window| == |keys|
    ensures Trimmed(window).Keys == if |keys| <= MAX_NUM_RECENT_SLOT_INFO then keys else keys - {MinOf(keys)}
  {
  }

  lemma StepKeepsTop(window: SlotsInfo, all: set<Slot>, m: GeyserMessage)
    requires IsTop(window.Keys, all, MAX_NUM_RECENT_SLOT_INFO)
    ensures IsTop(Apply(window, m).Keys, all + if m.Block? then {m.slot} else {}, MAX_NUM_RECENT_SLOT_INFO)
  {
    if m.Block? {
      InsertKeepsTop(window, all, m.slot, InfoOf(m));
    } else {
      assert Apply(window, m).Keys == window.Keys && all + {} == all;
    }
  }

  lemma RunWindowStep(log: seq<GeyserMessage>, m: GeyserMessage)
    ensures RunWindow(log + [m]) == Apply(RunWindow(log), m)
  {
    assert (log + [m])[..|log|] == log;
  }

  /** After any messages, the window holds exactly the 150 largest slots ever received as blocks. */
  lemma {:induction false} WindowIsTop(log: seq<GeyserMessage>)
    ensures IsTop(RunWindow(log).Keys, BlockSlots(log), 150)
  {
    if log == [] {
      assert BlockSlots([]) == {};
    } else {
      var earlier, m := log[..|log| - 1], log[|log| - 1];
      assert log == earlier + [m];
      WindowIsTop(earlier);
      BlockSlotsStep(earlier, m);
      RunWindowStep(earlier, m);
      StepKeepsTop(RunWindow(earlier), BlockSlots(earlier), m);
    }
  }

  /** ... each with the data of its last block and the commitment of the last status after that. */
  lemma {:induction false} WindowContents(log: seq<GeyserMessage>, slot: Slot)
    requires slot in RunWindow(log)
    ensures LatestInfo(log, slot) == Some(RunWindow(log)[slot])
  {
    var earlier, m := log[..|log| - 1], log[|log| - 1];
    if slot in RunWindow(earlier) {
      WindowContents(earlier, slot);
    }
  }

  // ----- The data of a slot, read off the log -----------------------------------------------

  ghost predicate IsLastBlock(log: seq<GeyserMessage>, slot: Slot, i: nat) {
    && i < |log| && log[i].Block? && log[i].slot == slot
    && forall k :: i < k < |log| && log[k].slot == slot ==> log[k].Status?
  }

  /** After message `i` the commitment of the slot is that of its last status; Processed before the first one. */
  ghost predicate Stands(log: seq<GeyserMessage>, slot: Slot, i: nat, commitment: CommitmentLevel) {
    || (commitment == Processed && forall k :: i < k < |log| ==> log[k].slot != slot)
    || (exists j :: i < j < |log| && log[j] == Status(slot, commitment)
                    && forall k :: j < k < |log| ==> log[k].slot != slot)
  }

  /** The entry is what block `i`, the last one of the slot, and the statuses after it say. */
  ghost predicate Shows(log: seq<GeyserMessage>, slot: Slot, i: nat, info: SlotInfo) {
    && IsLastBlock(log, slot, i) && Stands(log, slot, i, info.commitment)
    && info.leader == log[i].leader && info.slot == slot && info.hash == log[i].hash && info.time == log[i].time
    && info.height == log[i].height && info.transactions == log[i].transactions
    && info.fees == FeeIndexOf(log[i].transactions)
  }

  lemma LastBlockStep(log: seq<GeyserMessage>, m: GeyserMessage, slot: Slot, i: nat)
    requires IsLastBlock(log, slot, i) && (m.slot == slot ==> m.Status?)
    ensures IsLastBlock(log + [m], slot, i)
  {
  }

  lemma StandsStep(log: seq<GeyserMessage>, m: GeyserMessage, slot: Slot, i: nat, commitment: CommitmentLevel)
    requires i < |log| && Stands(log, slot, i, commitment)
    ensures m.slot != slot ==> Stands(log + [m], slot, i, commitment)
    ensures m.slot == slot && m.Status? ==> Stands(log + [m], slot, i, m.commitment)
  {
    var longer := log + [m];
    if m.slot == slot && m.Status? {
      assert longer[|log|] == Status(slot, m.commitment);
    } else if m.slot != slot {
      if j :| i < j < |log| && log[j] == Status(slot, commitment) && forall k :: j < k < |log| ==> log[k].slot != slot {
        assert longer[j] == log[j];
      }
    }
  }

  lemma ShowsStep(log: seq<GeyserMessage>, m: GeyserMessage, slot: Slot, i: nat, info: SlotInfo)
    requires Shows(log, slot, i, info) && (m.slot == slot ==> m.Status?)
    ensures m.slot != slot ==> Shows(log + [m], slot, i, info)
    ensures m.slot == slot ==> Shows(log + [m], slot, i, info.(commitment := m.commitment))
  {
    LastBlockStep(log, m, slot, i);
    StandsStep(log, m, slot, i, info.commitment);
    assert (log + [m])[i] == log[i];
  }

  lemma {:induction false} LatestIsShown(log: seq<GeyserMessage>, slot: Slot)
    requires LatestInfo(log, slot).Some?
    ensures exists i: nat :: Shows(log, slot, i, LatestInfo(log, slot).value)
  {
    var earlier, m := log[..|log| - 1], log[|log| - 1];
    assert log == earlier + [m];
    if m.Block? && m.slot == slot {
      assert Shows(log, slot, |log| - 1, LatestInfo(log, slot).value);
    } else {
      LatestIsShown(earlier, slot);
      var i: nat :| Shows(earlier, slot, i, LatestInfo(earlier, slot).value);
      ShowsStep(earlier, m, slot, i, LatestInfo(earlier, slot).value);
    }
  }

  /** Every entry of the window shows the last block of its slot, field by field. */
  lemma WindowShowsLog(log: seq<GeyserMessage>, slot: Slot)
    requires slot in RunWindow(log)
    ensures exists i: nat :: Shows(log, slot, i, RunWindow(log)[slot])
  {
    WindowContents(log, slot);
    LatestIsShown(log, slot);
  }

  lemma {:induction false} StoredWasBlock(log: seq<GeyserMessage>, slot: Slot)
    requires slot in Run(log).slots
    ensures slot in BlockSlots(log)
  {
    var earlier, m := log[..|log| - 1], log[|log| - 1];
    assert log == earlier + [m];
    BlockSlotsStep(earlier, m);
    RunStep(earlier, m);
    if slot in Run(earlier).slots {
      StoredWasBlock(earlier, slot);
    }
  }

  lemma {:induction false} StorageContents(log: seq<GeyserMessage>, slot: Slot)
    requires slot in Run(log).slots
    ensures LatestInfo(log, slot).Some?
    ensures var info, stored := LatestInfo(log, slot).value, Run(log).slots[slot];
            info.hash == stored.hash && info.height == stored.height && info.commitment == stored.commitment
  {
    var earlier, m := log[..|log| - 1], log[|log| - 1];
    if slot in Run(earlier).slots {
      StorageContents(earlier, slot);
    }
  }

  /** So does every entry of the storage. */
  lemma StorageShowsLog(log: seq<GeyserMessage>, slot: Slot)
    requires slot in Run(log).slots
    ensures exists i: nat :: && IsLastBlock(log, slot, i)
                        && Run(log).slots[slot].hash == log[i].hash
                        && Run(log).slots[slot].height == log[i].height
                        && Stands(log, slot, i, Run(log).slots[slot].commitment)
  {
    StorageContents(log, slot);
    LatestIsShown(log, slot);
    var i: nat :| Shows(log, slot, i, LatestInfo(log, slot).value);
    assert IsLastBlock(log, slot, i);
  }

  /** Where both structures hold a slot, they agree on it. */
  lemma {:induction false} WindowAgreesWithStorage(log: seq<GeyserMessage>, slot: Slot)
    requires slot in RunWindow(log) && slot in Run(log).slots
    ensures var info, stored := RunWindow(log)[slot], Run(log).slots[slot];
            info.hash == stored.hash && info.height == stored.height && info.commitment == stored.commitment
  {
    WindowContents(log, slot);
    StorageContents(log, slot);
  }

  // ----- Window and storage -----------------------------------------------------------------

  /** Pruning drops no slot of the window while the counter is at most 160 too high. */
  lemma PruneSparesWindow(marked: State, all: set<Slot>, top: set<Slot>, slot: Slot)
    requires IsTop(top, all, MAX_NUM_RECENT_SLOT_INFO) && marked.slots.Keys <= all
    requires 0 <= Drift(marked) <= MAX_FINALIZED - MAX_NUM_RECENT_SLOT_INFO
    requires slot in top && slot in marked.slots
    ensures slot in Pruned(marked).slots
  {
    var finalized := FinalizedKeys(marked.slots);
    if marked.finalizedTotal > MAX_FINALIZED {
      var least := MinOf(finalized);
      if slot <= least {
        TopExcludes(top, all, MAX_NUM_RECENT_SLOT_INFO, finalized - {least}, slot);
      }
    }
  }

  /** One message keeps the window inside the storage. */
  lemma InclusionStep(st: State, window: SlotsInfo, all: set<Slot>, m: GeyserMessage, slot: Slot)
    requires Sound(st) && IsTop(window.Keys, all, MAX_NUM_RECENT_SLOT_INFO)
    requires window.Keys <= st.slots.Keys <= all
    requires Drift(Storage.Apply(st, m)) <= MAX_FINALIZED - MAX_NUM_RECENT_SLOT_INFO
    requires slot in Apply(window, m)
    ensures slot in Storage.Apply(st, m).slots
  {
    DriftStep(st, m);
    if m.Block? {
      assert Apply(window, m).Keys <= window.Keys + {m.slot};
    } else {
      CommitmentStep(st, m.slot, m.commitment);
      PruneSparesWindow(WithCommitment(st, m.slot, m.commitment), all, window.Keys, slot);
    }
  }

  /** Every slot of the window is stored, as long as the counter exceeds the number of stored Finalized
      slots by at most 160; in particular whenever it is exact. */
  lemma {:induction false} WindowIsStored(log: seq<GeyserMessage>)
    requires Drift(Run(log)) <= 160
    ensures RunWindow(log).Keys <= Run(log).slots.Keys
  {
    if log == [] {
    } else {
      var earlier, m := log[..|log| - 1], log[|log| - 1];
      assert log == earlier + [m];
      RunStep(earlier, m);
      RunWindowStep(earlier, m);
      DriftCountsHits(earlier);
      DriftStep(Run(earlier), m);
      WindowIsStored(earlier);
      WindowIsTop(earlier);
      forall s | s in Run(earlier).slots ensures s in BlockSlots(earlier) { StoredWasBlock(earlier, s); }
      forall s | s in RunWindow(log) ensures s in Run(log).slots {
        InclusionStep(Run(earlier), RunWindow(earlier), BlockSlots(earlier), m, s);
      }
    }
  }
}
