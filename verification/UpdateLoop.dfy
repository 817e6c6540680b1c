/** The update loop of the backend (`run_update_loop` in `rpc_solana.rs`): it applies the messages to the
    storage and the window, and answers requests from them. */
module UpdateLoop {
  import opened Wrappers
  import opened Geyser
  import opened Collections
  import opened Dedup
  import opened Storage
  import opened Rollback
  import opened Fees
  import opened Window
  import opened Pipeline
  import opened Capacity
  import opened Pointers

  datatype Id = Null | Number(n: nat) | Str(s: string)

  /** The only version that parses is "2.0"; a call need not name it. */
  datatype JsonrpcVersion = V2

  /** What an answer copies from its call: the `jsonrpc` and `id` members. */
  datatype Head = Head(version: Option<JsonrpcVersion>, id: Id)

  datatype Request =
    | LatestBlockhash(head: Head, commitment: CommitmentLevel, rollback: nat, minContextSlot: Option<Slot>)
    | RecentPrioritizationFees(head: Head, pubkeys: seq<Pubkey>, percentile: Option<nat>)
    | GetSlot(head: Head, commitment: CommitmentLevel, minContextSlot: Option<Slot>)
    | SolfeesSlots(head: Head, filter: SlotFilter, frontend: bool)

  datatype RpcError =
    | InvalidRequest
    | MethodNotFound
    | InvalidParams(message: string)
    | InternalError(data: string)
    | MinContextSlotNotReached(contextSlot: Slot)

  /** `SlotsSubscribeOutput::Slot`, the format of the frontend. */
  datatype FilteredSlot = FilteredSlot(
    leader: Option<Pubkey>,
    slot: Slot,
    commitment: CommitmentLevel,
    hash: Hash,
    time: int,
    height: nat,
    totalFiltered: nat,
    totalVote: nat,
    total: nat,
    feeAverage: real,
    feeLevels: seq<Option<nat>>)

  /** `SolfeesPrioritizationFee`, the format of the other endpoint. */
  datatype SolfeesFee = SolfeesFee(
    slot: Slot,
    commitment: CommitmentLevel,
    height: nat,
    totalFiltered: nat,
    totalVote: nat,
    total: nat,
    feeAverage: real,
    feeLevels: seq<Option<nat>>)

  function Reduced(slot: FilteredSlot): SolfeesFee {
    SolfeesFee(slot.slot, slot.commitment, slot.height, slot.totalFiltered, slot.totalVote, slot.total,
               slot.feeAverage, slot.feeLevels)
  }

  function ReducedAll(slots: seq<FilteredSlot>): seq<SolfeesFee> {
    seq(|slots|, i requires 0 <= i < |slots| => Reduced(slots[i]))
  }

  datatype Value =
    | Blockhash(contextSlot: Slot, hash: Hash, lastValidBlockHeight: nat)
    | SlotFees(fees: seq<(Slot, nat)>)
    | SlotNumber(slot: Slot)
    | FrontendSlots(slots: seq<FilteredSlot>)
    | SolfeesFees(slotFees: seq<SolfeesFee>)
    | Version

  datatype Output = Success(head: Head, value: Value) | Failure(head: Head, error: RpcError)

  // ----- Answers ----------------------------------------------------------------------------

  predicate Below(slot: Slot, minContextSlot: Option<Slot>) {
    minContextSlot.Some? && slot < minContextSlot.value
  }

  /** `None` where the rollback walk leaves the unsigned range. */
  function AnswerBlockhash(st: State, head: Head, commitment: CommitmentLevel, rollback: nat,
                           minContextSlot: Option<Slot>): Option<Output> {
    var slot := PointerOf(st, commitment);
    if rollback > MAX_RECENT_BLOCKHASHES then Some(Failure(head, InvalidParams("rollback exceeds 300")))
    else if Below(slot, minContextSlot) then Some(Failure(head, MinContextSlotNotReached(slot)))
    else if slot !in st.slots then Some(Failure(head, InternalError("no slot")))
    else
      WalkSoundAndComplete(st.slots, slot, rollback);
      match WalkOutcome(st.slots, slot, rollback)
      case Underflow => None
      case NotEnough => Some(Failure(head, InvalidParams("not enought slots in the storage")))
      case Found(found) =>
        var value := st.slots[found];
        Some(Success(head, Blockhash(found, value.hash, value.height + MAX_RECENT_BLOCKHASHES)))
  }

  function VoteCount(txs: seq<GeyserTransaction>): nat {
    if txs == [] then 0 else VoteCount(txs[..|txs| - 1]) + if txs[|txs| - 1].vote then 1 else 0
  }

  function FilteredSlotOf(info: SlotInfo, filter: SlotFilter): FilteredSlot {
    var fees := Filtered(info.transactions, filter);
    FilteredSlot(info.leader, info.slot, info.commitment, info.hash, info.time, info.height, |fees|,
                 VoteCount(info.transactions), |info.transactions|, Average(fees), Levels(fees, filter.levels))
  }

  function FeesBySlot(window: SlotsInfo, slots: seq<Slot>, pubkeys: seq<Pubkey>,
                      percentile: Option<nat>): seq<(Slot, nat)>
    requires forall s :: s in slots ==> s in window
  {
    seq(|slots|, i requires 0 <= i < |slots| => (slots[i], FeeOver(window[slots[i]].fees, pubkeys, percentile)))
  }

  function FilteredBySlot(window: SlotsInfo, slots: seq<Slot>, filter: SlotFilter): seq<FilteredSlot>
    requires forall s :: s in slots ==> s in window
  {
    seq(|slots|, i requires 0 <= i < |slots| => FilteredSlotOf(window[slots[i]], filter))
  }

  function Answer(st: State, window: SlotsInfo, request: Request): Option<Output> {
    match request
    case LatestBlockhash(head, commitment, rollback, minContextSlot) =>
      AnswerBlockhash(st, head, commitment, rollback, minContextSlot)
    case RecentPrioritizationFees(head, pubkeys, percentile) =>
      Some(Success(head, SlotFees(FeesBySlot(window, Ascending(window.Keys), pubkeys, percentile))))
    case GetSlot(head, commitment, minContextSlot) =>
      var slot := PointerOf(st, commitment);
      if Below(slot, minContextSlot) then Some(Failure(head, MinContextSlotNotReached(slot)))
      else Some(Success(head, SlotNumber(slot)))
    case SolfeesSlots(head, filter, frontend) =>
      var slots := FilteredBySlot(window, Ascending(window.Keys), filter);
      Some(Success(head, if frontend then FrontendSlots(slots) else SolfeesFees(ReducedAll(slots))))
  }

  // ----- Properties of the answers ----------------------------------------------------------

  /** A blockhash is answered exactly when its pointer is stored and recent enough and a chain of the
      requested length descends from it. It is the hash of a stored slot, `rollback` lower, at or above the
      end of every such chain, and valid for 300 blocks above its own height. */
  lemma BlockhashAnsweredIff(st: State, head: Head, commitment: CommitmentLevel, rollback: nat,
                             minContextSlot: Option<Slot>)
    ensures var slot := PointerOf(st, commitment);
            var answer := AnswerBlockhash(st, head, commitment, rollback, minContextSlot);
            answer.Some? && answer.value.Success?
            <==> && rollback <= MAX_RECENT_BLOCKHASHES && !Below(slot, minContextSlot)
                 && slot in st.slots && ChainExists(st.slots, slot, rollback)
    ensures var slot := PointerOf(st, commitment);
            var answer := AnswerBlockhash(st, head, commitment, rollback, minContextSlot);
            answer.Some? && answer.value.Success? ==>
              && answer.value.head == head && answer.value.value.Blockhash?
              && var Blockhash(found, hash, lastValid) := answer.value.value;
                 && found in st.slots && hash == st.slots[found].hash
                 && st.slots[found].height == st.slots[slot].height - rollback
                 && lastValid == st.slots[found].height + MAX_RECENT_BLOCKHASHES >= st.slots[slot].height
                 && forall chain :: IsChain(st.slots, chain) && |chain| == rollback + 1 && chain[0] == slot
                      ==> found >= chain[rollback]
  {
    var slot := PointerOf(st, commitment);
    if slot in st.slots {
      WalkSoundAndComplete(st.slots, slot, rollback);
    }
  }

  /** Which refusal a request gets otherwise, and when it gets no answer at all. */
  lemma BlockhashRefusedIff(st: State, head: Head, commitment: CommitmentLevel, rollback: nat,
                            minContextSlot: Option<Slot>)
    requires rollback <= MAX_RECENT_BLOCKHASHES
    ensures var slot := PointerOf(st, commitment);
            var answer := AnswerBlockhash(st, head, commitment, rollback, minContextSlot);
            var late, unknown := Below(slot, minContextSlot), slot !in st.slots;
            && (answer == Some(Failure(head, MinContextSlotNotReached(slot))) <==> late)
            && (answer == Some(Failure(head, InternalError("no slot"))) <==> !late && unknown)
            && (answer == Some(Failure(head, InvalidParams("not enought slots in the storage")))
                <==> !late && !unknown && !ChainExists(st.slots, slot, rollback) && 0 !in st.slots)
            && (answer == None <==> !late && !unknown && !ChainExists(st.slots, slot, rollback) && 0 in st.slots)
  {
    var slot := PointerOf(st, commitment);
    if slot in st.slots {
      WalkSoundAndComplete(st.slots, slot, rollback);
    }
  }

  /** When the Finalized slots never decrease and the heights of the marked blocks are gapless, every rollback up
      to 300 within the marked blocks is answered, as long as the counter is not too high. */
  lemma FinalizedAlwaysAnswered(log: seq<GeyserMessage>, head: Head, rollback: nat)
    requires NonFalling(log, Finalized) && SteadyHeights(log) && ConsecutiveHeights(MarkedBlocks(log))
    requires rollback < |MarkedBlocks(log)| && rollback <= 300
    requires rollback + FinalizedHits(log) < 310
    ensures var answer := AnswerBlockhash(Run(log), head, Finalized, rollback, None);
            && answer.Some? && answer.value.Success? && answer.value.value.Blockhash?
            && answer.value.value.lastValidBlockHeight
               == FromNewest(MarkedBlocks(log), 0).1 - rollback + 300
  {
    FinalizedRollback(log, rollback);
    FoundIsAnswered(Run(log), head, Finalized, rollback);
  }

  lemma FoundIsAnswered(st: State, head: Head, commitment: CommitmentLevel, rollback: nat)
    requires rollback <= MAX_RECENT_BLOCKHASHES && PointerOf(st, commitment) in st.slots
    requires WalkOutcome(st.slots, PointerOf(st, commitment), rollback).Found?
    ensures var answer := AnswerBlockhash(st, head, commitment, rollback, None);
            && answer.Some? && answer.value.Success? && answer.value.value.Blockhash?
            && answer.value.value.lastValidBlockHeight
               == st.slots[PointerOf(st, commitment)].height - rollback + MAX_RECENT_BLOCKHASHES
  {
    WalkSoundAndComplete(st.slots, PointerOf(st, commitment), rollback);
  }

  /** Without rollback, "no slot" is answered only before the first status of that commitment. */
  lemma NoSlotOnlyBeforeFirst(log: seq<GeyserMessage>, head: Head, commitment: CommitmentLevel)
    requires Orderly(log) && PointerSet(log, commitment)
    ensures var answer := AnswerBlockhash(Run(log), head, commitment, 0, None);
            answer.Some? && answer.value.Success? && answer.value.value.Blockhash?
            && answer.value.value.contextSlot == PointerOf(Run(log), commitment)
  {
    var st := Run(log);
    PointerSafety(log, commitment);
    assert Greedy(st.slots, PointerOf(st, commitment), 0) == [PointerOf(st, commitment)];
  }

  lemma AnswerKeepsHead(st: State, window: SlotsInfo, request: Request)
    ensures Answer(st, window, request).Some? ==> Answer(st, window, request).value.head == request.head
  {
  }

  // ----- The loop ---------------------------------------------------------------------------

  method CollectFees(window: SlotsInfo, pubkeys: seq<Pubkey>, percentile: Option<nat>)
    returns (result: seq<(Slot, nat)>)
    ensures result == FeesBySlot(window, Ascending(window.Keys), pubkeys, percentile)
  {
    var slots := Ascending(window.Keys);
    result := [];
    for i := 0 to |slots|
      invariant |result| == i
      invariant forall j :: 0 <= j < i ==> result[j] == (slots[j], FeeOver(window[slots[j]].fees, pubkeys, percentile))
    {
      var fee := GetFee(window[slots[i]].fees, pubkeys, percentile);
      result := result + [(slots[i], fee)];
    }
  }

  /** `StreamsSlotInfo::get_filtered`. */
  method FilterInfo(info: SlotInfo, filter: SlotFilter) returns (slot: FilteredSlot)
    ensures slot == FilteredSlotOf(info, filter)
  {
    var total, feeAverage, feeLevels := GetFiltered(info.transactions, filter);
    slot := FilteredSlot(info.leader, info.slot, info.commitment, info.hash, info.time, info.height, total,
                         VoteCount(info.transactions), |info.transactions|, feeAverage, feeLevels);
  }

  lemma FilteredStep(window: SlotsInfo, slots: seq<Slot>, i: nat, filter: SlotFilter)
    requires i < |slots| && forall s :: s in slots ==> s in window
    ensures FilteredBySlot(window, slots[..i + 1], filter)
            == FilteredBySlot(window, slots[..i], filter) + [FilteredSlotOf(window[slots[i]], filter)]
  {
  }

  method CollectFiltered(window: SlotsInfo, filter: SlotFilter) returns (result: seq<FilteredSlot>)
    ensures result == FilteredBySlot(window, Ascending(window.Keys), filter)
  {
    var slots := Ascending(window.Keys);
    result := [];
    for i := 0 to |slots|
      invariant result == FilteredBySlot(window, slots[..i], filter)
    {
      FilteredStep(window, slots, i, filter);
      var filtered := FilterInfo(window[slots[i]], filter);
      result := result + [filtered];
    }
    assert slots[..|slots|] == slots;
  }

  class Loop {
    const storage: LatestBlockhashStorage
    var slotsInfo: SlotsInfo
    ghost var log: seq<GeyserMessage>

    ghost predicate Valid()
      reads this, storage
    {
      storage.Valid() && storage.Abs() == Run(log) && slotsInfo == RunWindow(log)
    }

    constructor ()
      ensures Valid() && log == [] && fresh(storage)
    {
      storage := new LatestBlockhashStorage();
      slotsInfo := map[];
      log := [];
    }

    /** One message of the deduplicated stream. */
    method Receive(m: GeyserMessage)
      requires Valid()
      modifies this, storage
      ensures Valid() && log == old(log) + [m]
    {
      RunStep(log, m);
      RunWindowStep(log, m);
      WindowIsTop(log);
      match m {
        case Status(slot, commitment) =>
          storage.UpdateCommitment(slot, commitment);
          if slot in slotsInfo {
            slotsInfo := slotsInfo[slot := slotsInfo[slot].(commitment := commitment)];
          }
        case Block(_, slot, hash, _, height, _, _, _) =>
          storage.PushBlock(slot, height, hash);
          PushInfo(m);
      }
      log := log + [m];
    }

    /** Inserts the block into the window and pops the smallest slots while there are too many. */
    method PushInfo(m: GeyserMessage)
      requires m.Block? && |slotsInfo.Keys| <= MAX_NUM_RECENT_SLOT_INFO
      modifies this`slotsInfo
      ensures slotsInfo == Window.Apply(old(slotsInfo), m)
    {
      var fees := Create(m.transactions);
      var info := SlotInfo(m.leader, m.slot, Processed, m.hash, m.time, m.height, m.transactions, fees);
      ghost var grown := slotsInfo[m.slot := InfoOf(m)];
      GrownSize(slotsInfo, m.slot, info);
      slotsInfo := slotsInfo[m.slot := info];
      while |slotsInfo| > MAX_NUM_RECENT_SLOT_INFO
        invariant |slotsInfo| > MAX_NUM_RECENT_SLOT_INFO ==> slotsInfo == grown
        invariant |slotsInfo| <= MAX_NUM_RECENT_SLOT_INFO ==> slotsInfo == Trimmed(grown)
      {
        slotsInfo := slotsInfo - {MinOf(slotsInfo.Keys)};
      }
    }

    function Pointer(commitment: CommitmentLevel): (slot: Slot)
      reads this, storage
      ensures slot == PointerOf(storage.Abs(), commitment)
    {
      match commitment
      case Processed => storage.slotProcessed
      case Confirmed => storage.slotConfirmed
      case Finalized => storage.slotFinalized
    }

    /** Answers one request from the current state; `None` where the walk underflows. */
    method Respond(request: Request) returns (output: Option<Output>)
      requires Valid()
      ensures output == Answer(Run(log), RunWindow(log), request)
    {
      match request {
        case LatestBlockhash(head, commitment, rollback, minContextSlot) =>
          output := RespondBlockhash(head, commitment, rollback, minContextSlot);
        case RecentPrioritizationFees(head, pubkeys, percentile) =>
          var fees := CollectFees(slotsInfo, pubkeys, percentile);
          output := Some(Success(head, SlotFees(fees)));
        case GetSlot(head, commitment, minContextSlot) =>
          var slot := Pointer(commitment);
          output := Some(if Below(slot, minContextSlot) then Failure(head, MinContextSlotNotReached(slot))
                         else Success(head, SlotNumber(slot)));
        case SolfeesSlots(head, filter, frontend) =>
          var slots := CollectFiltered(slotsInfo, filter);
          output := Some(Success(head, if frontend then FrontendSlots(slots) else SolfeesFees(ReducedAll(slots))));
      }
    }

    method RespondBlockhash(head: Head, commitment: CommitmentLevel, rollback: nat, minContextSlot: Option<Slot>)
      returns (output: Option<Output>)
      ensures output == AnswerBlockhash(storage.Abs(), head, commitment, rollback, minContextSlot)
    {
      var slot := Pointer(commitment);
      if rollback > MAX_RECENT_BLOCKHASHES {
        output := Some(Failure(head, InvalidParams("rollback exceeds 300")));
      } else if Below(slot, minContextSlot) {
        output := Some(Failure(head, MinContextSlotNotReached(slot)));
      } else if slot !in storage.slots {
        output := Some(Failure(head, InternalError("no slot")));
      } else {
        WalkSoundAndComplete(storage.slots, slot, rollback);
        var outcome, _ := Walk(storage.slots, slot, rollback);
        match outcome {
          case Underflow => output := None;
          case NotEnough => output := Some(Failure(head, InvalidParams("not enought slots in the storage")));
          case Found(found) =>
            var value := storage.slots[found];
            output := Some(Success(head, Blockhash(found, value.hash, value.height + MAX_RECENT_BLOCKHASHES)));
        }
      }
    }
  }

  lemma GrownSize(window: SlotsInfo, slot: Slot, info: SlotInfo)
    requires |window.Keys| <= MAX_NUM_RECENT_SLOT_INFO
    ensures |window[slot := info]| <= MAX_NUM_RECENT_SLOT_INFO + 1
  {
    assert window[slot := info].Keys == window.Keys + {slot};
  }
}
