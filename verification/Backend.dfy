/** The backend end to end: the raw stream of several producers, deduplicated, applied by the update loop
    (`bin/solfees-be.rs`, `redis.rs`, `rpc_solana.rs`). */
module Backend {
  import opened Wrappers
  import opened Geyser
  import opened Dedup
  import opened Producers
  import opened Storage
  import opened Pipeline
  import opened Pointers
  import opened Capacity
  import opened Counter
  import opened Window
  import opened UpdateLoop
  import opened Batch

  class Server {
    const consumer: Deduplicator
    const updates: Loop
    var alive: bool

    ghost predicate Valid()
      reads this, consumer, updates, updates.storage
    {
      && consumer.Valid() && consumer.capacity == LRU_CAPACITY
      && updates.Valid()
      && updates.log == consumer.forwarded == Forwarded(consumer.received, LRU_CAPACITY)
    }

    constructor ()
      ensures Valid() && consumer.received == [] && alive
    {
      consumer := new Deduplicator(LRU_CAPACITY);
      updates := new Loop();
      alive := true;
    }

    /** One payload of the stream. A payload that does not decode is passed on as an error and ends the
        backend. Otherwise the storage and the window become those of the forwarded messages. */
    method Ingest(payload: Option<GeyserMessage>)
      requires Valid() && alive
      modifies this, consumer, updates, updates.storage
      ensures Valid() && alive == payload.Some?
      ensures consumer.received == old(consumer.received) + if payload.Some? then [payload.value] else []
      ensures updates.storage.Abs() == Run(Forwarded(consumer.received, 8192))
      ensures updates.slotsInfo == RunWindow(Forwarded(consumer.received, 8192))
    {
      match payload {
        case None =>
          alive := false;
        case Some(m) =>
          var forward := consumer.Receive(m);
          if forward {
            updates.Receive(m);
          }
      }
    }
  }

  /** Orderly producers: every slot of the window can also be found in the blockhash storage. */
  lemma WindowIsStoredForProducers(stream: seq<Tagged>, capacity: nat)
    requires InOrder(stream) && WithinWindow(Admitted(Messages(stream)), capacity)
    ensures var log := Forwarded(Messages(stream), capacity);
            RunWindow(log).Keys <= Run(log).slots.Keys
  {
    CounterExactForProducers(stream, capacity);
    WindowIsStored(Forwarded(Messages(stream), capacity));
  }

  /** Orderly producers whose finalized blocks have gapless heights, for every cache capacity: every rollback
      up to 300 within the finalized history of the raw stream is answered while the counter is at most 9 too
      high, with a height that is valid for 300 blocks. */
  lemma RollbackAnsweredWithDrift(stream: seq<Tagged>, capacity: nat, head: Head, rollback: nat)
    requires InOrder(stream) && SteadyHeights(Messages(stream))
    requires ConsecutiveHeights(FinalizedBlocks(Messages(stream)))
    requires rollback < |FinalizedBlocks(Messages(stream))| && rollback <= 300
    requires rollback + FinalizedHits(Forwarded(Messages(stream), capacity)) < 310
    ensures var st := Run(Forwarded(Messages(stream), capacity));
            var answer := AnswerBlockhash(st, head, Finalized, rollback, None);
            && answer.Some? && answer.value.Success? && answer.value.value.Blockhash?
            && answer.value.value.lastValidBlockHeight
               == FromNewest(FinalizedBlocks(Messages(stream)), 0).1 - rollback + 300
  {
    var raw := Messages(stream);
    ProducersKeepSequence(stream, capacity);
    FinalizedNonFalling(raw, capacity);
    SequenceIsSettled(Forwarded(raw, capacity));
    SettledMarks(Forwarded(raw, capacity));
    ForwardedIsSteady(raw, capacity);
    SameFinalizedBlocks(raw, capacity);
    FinalizedAlwaysAnswered(Forwarded(raw, capacity), head, rollback);
  }

  /** Within the LRU window the counter is exact and nothing has to be assumed about repeated blocks. */
  lemma RollbackAnsweredForProducers(stream: seq<Tagged>, capacity: nat, head: Head, rollback: nat)
    requires InOrder(stream) && WithinWindow(Admitted(Messages(stream)), capacity)
    requires ConsecutiveHeights(FinalizedBlocks(Messages(stream)))
    requires rollback < |FinalizedBlocks(Messages(stream))| && rollback <= 300
    ensures var st := Run(Forwarded(Messages(stream), capacity));
            var answer := AnswerBlockhash(st, head, Finalized, rollback, None);
            && answer.Some? && answer.value.Success? && answer.value.value.Blockhash?
            && answer.value.value.lastValidBlockHeight
               == FromNewest(FinalizedBlocks(Messages(stream)), 0).1 - rollback + 300
  {
    var raw := Messages(stream);
    var log := Forwarded(raw, capacity);
    ProducersWithinWindow(stream, capacity);
    InTurnIsClean(log);
    CleanNeverHits(log);
    RisingIsSettled(log);
    SettledMarks(log);
    FinalizedNonFalling(raw, capacity);
    WindowForgetsNothing(raw, capacity);
    NoRepeatsIsSteady(log);
    SameFinalizedBlocks(raw, capacity);
    FinalizedAlwaysAnswered(log, head, rollback);
  }

  /** The same for the call itself: getLatestBlockhash of the finalized state with a rollback, on an endpoint that
      knows rollbacks. */
  lemma RollbackCallAnswered(mode: Mode, stream: seq<Tagged>, capacity: nat, head: Head, params: Params)
    requires mode in {Triton, Solfees} && params.blockhash.Some?
    requires params.blockhash.value.context.commitment in {None, Some(Finalized)}
    requires params.blockhash.value.context.minContextSlot == None
    requires InOrder(stream) && WithinWindow(Admitted(Messages(stream)), capacity)
    requires ConsecutiveHeights(FinalizedBlocks(Messages(stream)))
    requires params.blockhash.value.rollback < |FinalizedBlocks(Messages(stream))|
    requires params.blockhash.value.rollback <= 300
    ensures var log := Forwarded(Messages(stream), capacity);
            var call := MethodCall(head, "getLatestBlockhash", params);
            var answer := AnswerCall(mode, call, Run(log), RunWindow(log));
            && answer.Some? && answer.value.Success? && answer.value.value.Blockhash?
            && answer.value.value.lastValidBlockHeight
               == FromNewest(FinalizedBlocks(Messages(stream)), 0).1 - params.blockhash.value.rollback + 300
  {
    RollbackAnsweredForProducers(stream, capacity, head, params.blockhash.value.rollback);
  }
}
