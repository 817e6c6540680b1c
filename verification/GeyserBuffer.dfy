/** The per-slot transaction buffer of the geyser subscription (`subscribe` in `grpc_geyser.rs`). */
module GeyserBuffer {
  import opened Wrappers
  import opened Geyser
  import opened Collections

  datatype BlockHeader = BlockHeader(hash: Hash, time: int, height: nat, parentSlot: Slot, parentHash: Hash)

  /** An update of the gRPC stream; `None` where the source fails to decode a part of it. `leader` is the
      answer of the leader schedule. */
  datatype Update =
    | SlotUpdate(slot: Slot, status: Option<CommitmentLevel>)
    | TransactionUpdate(slot: Slot, transaction: Option<GeyserTransaction>)
    | BlockMeta(slot: Slot, leader: Option<Pubkey>, header: Option<BlockHeader>)
    | OtherUpdate
    | StreamFailure

  type Buffers = map<Slot, seq<GeyserTransaction>>

  datatype State = State(buffers: Buffers, alive: bool)

  /** What one update sends downstream; an `Err` is the last thing sent. */
  datatype Sent = Nothing | Message(message: GeyserMessage) | Failure

  function BufferOf(buffers: Buffers, slot: Slot): seq<GeyserTransaction> {
    if slot in buffers then buffers[slot] else []
  }

  function BuildBlock(slot: Slot, leader: Option<Pubkey>, header: BlockHeader,
                      txs: seq<GeyserTransaction>): GeyserMessage
  {
    Block(leader, slot, header.hash, header.time, header.height, header.parentSlot, header.parentHash, txs)
  }

  function Discard(buffers: Buffers, below: Slot): Buffers {
    map s | s in buffers && s >= below :: buffers[s]
  }

  function Next(st: State, u: Update): State {
    if !st.alive then st
    else
      match u
      case SlotUpdate(slot, Some(Finalized)) => st.(buffers := Discard(st.buffers, slot))
      case SlotUpdate(_, Some(_)) => st
      case TransactionUpdate(slot, Some(tx)) => st.(buffers := st.buffers[slot := BufferOf(st.buffers, slot) + [tx]])
      case BlockMeta(slot, _, header) =>
        if slot in st.buffers then State(st.buffers - {slot}, header.Some?) else st
      case OtherUpdate => st
      case _ => st.(alive := false)
  }

  function SentBy(st: State, u: Update): Sent {
    if !st.alive then Nothing
    else
      match u
      case SlotUpdate(slot, Some(commitment)) => Message(Status(slot, commitment))
      case TransactionUpdate(_, Some(_)) => Nothing
      case BlockMeta(slot, leader, header) =>
        if slot !in st.buffers then Nothing
        else if header.Some? then Message(BuildBlock(slot, leader, header.value, st.buffers[slot]))
        else Failure
      case OtherUpdate => Nothing
      case _ => Failure
  }

  function Run(updates: seq<Update>): State {
    if updates == [] then State(map[], true) else Next(Run(updates[..|updates| - 1]), updates[|updates| - 1])
  }

  // ----- What becomes of a slot's transactions ----------------------------------------------

  /** A stretch of a slot's transactions that left the buffer together. */
  datatype Segment =
    | Emitted(transactions: seq<GeyserTransaction>)
    | Discarded(transactions: seq<GeyserTransaction>)
    | LostWithBlock(transactions: seq<GeyserTransaction>)

  /** What an update adds to a slot while the subscription lives. */
  function ArrivedBy(st: State, u: Update, slot: Slot): seq<GeyserTransaction> {
    if st.alive && u.TransactionUpdate? && u.slot == slot && u.transaction.Some? then [u.transaction.value] else []
  }

  function Arrived(updates: seq<Update>, slot: Slot): seq<GeyserTransaction> {
    if updates == [] then []
    else
      var earlier, u := updates[..|updates| - 1], updates[|updates| - 1];
      Arrived(earlier, slot) + ArrivedBy(Run(earlier), u, slot)
  }

  /** What an update takes from a slot's buffer: sent in a block, dropped by a higher Finalized, or taken
      out for a block that cannot be built. */
  function ReleasedBy(st: State, u: Update, slot: Slot): seq<Segment> {
    if !st.alive || slot !in st.buffers then []
    else
      match u
      case SlotUpdate(f, Some(Finalized)) => if slot < f then [Discarded(st.buffers[slot])] else []
      case BlockMeta(s, _, header) =>
        if s != slot then []
        else [if header.Some? then Emitted(st.buffers[slot]) else LostWithBlock(st.buffers[slot])]
      case _ => []
  }

  function Segments(updates: seq<Update>, slot: Slot): seq<Segment> {
    if updates == [] then []
    else
      var earlier, u := updates[..|updates| - 1], updates[|updates| - 1];
      Segments(earlier, slot) + ReleasedBy(Run(earlier), u, slot)
  }

  function Joined(segments: seq<Segment>): seq<GeyserTransaction> {
    if segments == [] then [] else Joined(segments[..|segments| - 1]) + segments[|segments| - 1].transactions
  }

  /** The messages sent downstream. */
  function Messages(updates: seq<Update>): seq<GeyserMessage> {
    if updates == [] then []
    else
      var earlier, u := updates[..|updates| - 1], updates[|updates| - 1];
      var sent := SentBy(Run(earlier), u);
      if sent.Message? then Messages(earlier) + [sent.message] else Messages(earlier)
  }

  /** The transaction lists of a slot's blocks among the messages. */
  function BlocksOf(messages: seq<GeyserMessage>, slot: Slot): seq<seq<GeyserTransaction>> {
    if messages == [] then []
    else
      var earlier, m := messages[..|messages| - 1], messages[|messages| - 1];
      if m.Block? && m.slot == slot then BlocksOf(earlier, slot) + [m.transactions] else BlocksOf(earlier, slot)
  }

  function EmittedLists(segments: seq<Segment>): seq<seq<GeyserTransaction>> {
    if segments == [] then []
    else
      var earlier, last := segments[..|segments| - 1], segments[|segments| - 1];
      if last.Emitted? then EmittedLists(earlier) + [last.transactions] else EmittedLists(earlier)
  }

  lemma JoinedStep(segments: seq<Segment>, more: seq<Segment>)
    requires |more| <= 1
    ensures Joined(segments + more) == Joined(segments) + Joined(more)
    ensures EmittedLists(segments + more) == EmittedLists(segments) + EmittedLists(more)
  {
    if more == [] {
      assert segments + more == segments;
    } else {
      assert (segments + more)[..|segments|] == segments;
      assert more[..0] == [];
    }
  }

  lemma BlocksOfStep(messages: seq<GeyserMessage>, m: GeyserMessage, slot: Slot)
    ensures BlocksOf(messages + [m], slot)
            == if m.Block? && m.slot == slot then BlocksOf(messages, slot) + [m.transactions]
               else BlocksOf(messages, slot)
  {
    assert (messages + [m])[..|messages|] == messages;
  }

  lemma StepConserves(st: State, u: Update, slot: Slot)
    ensures BufferOf(st.buffers, slot) + ArrivedBy(st, u, slot)
            == Joined(ReleasedBy(st, u, slot)) + BufferOf(Next(st, u).buffers, slot)
  {
    var released := ReleasedBy(st, u, slot);
    if released != [] {
      assert released[..0] == [];
    }
  }

  lemma StepEmits(st: State, u: Update, slot: Slot)
    ensures EmittedLists(ReleasedBy(st, u, slot))
            == if SentBy(st, u).Message? then BlocksOf([SentBy(st, u).message], slot) else []
  {
    var released := ReleasedBy(st, u, slot);
    if released != [] {
      assert released[..0] == [];
    }
    if SentBy(st, u).Message? {
      assert [SentBy(st, u).message][..0] == [];
    }
  }

  lemma Regroup<T>(left: seq<T>, buffer: seq<T>, arrived: seq<T>, released: seq<T>, next: seq<T>)
    requires buffer + arrived == released + next
    ensures (left + buffer) + arrived == (left + released) + next
  {
    assert (left + buffer) + arrived == left + (buffer + arrived);
    assert (left + released) + next == left + (released + next);
  }

  /** Conservation, for every stream of updates: what arrived for a slot is, in order, what left the
      buffer followed by what is still in it. */
  lemma {:induction false} Conservation(updates: seq<Update>, slot: Slot)
    ensures Arrived(updates, slot) == Joined(Segments(updates, slot)) + BufferOf(Run(updates).buffers, slot)
  {
    if updates == [] {
    } else {
      var earlier, u := updates[..|updates| - 1], updates[|updates| - 1];
      var st := Run(earlier);
      Conservation(earlier, slot);
      StepConserves(st, u, slot);
      JoinedStep(Segments(earlier, slot), ReleasedBy(st, u, slot));
      Regroup(Joined(Segments(earlier, slot)), BufferOf(st.buffers, slot), ArrivedBy(st, u, slot),
              Joined(ReleasedBy(st, u, slot)), BufferOf(Run(updates).buffers, slot));
    }
  }

  /** The blocks sent for a slot carry exactly its emitted stretches, in order. */
  lemma {:induction false} BlocksCarryEmitted(updates: seq<Update>, slot: Slot)
    ensures BlocksOf(Messages(updates), slot) == EmittedLists(Segments(updates, slot))
  {
    if updates == [] {
    } else {
      var earlier, u := updates[..|updates| - 1], updates[|updates| - 1];
      var st := Run(earlier);
      BlocksCarryEmitted(earlier, slot);
      StepEmits(st, u, slot);
      JoinedStep(Segments(earlier, slot), ReleasedBy(st, u, slot));
      if SentBy(st, u).Message? {
        BlocksOfStep(Messages(earlier), SentBy(st, u).message, slot);
        BlocksOfStep([], SentBy(st, u).message, slot);
        assert [] + [SentBy(st, u).message] == [SentBy(st, u).message];
      }
    }
  }

  /** Neither a block of this slot nor a higher Finalized. */
  predicate Spares(u: Update, slot: Slot) {
    !(u.BlockMeta? && u.slot == slot) && !(u.SlotUpdate? && u.status == Some(Finalized) && u.slot > slot)
  }

  lemma SparedStep(st: State, u: Update, slot: Slot, arrived: seq<GeyserTransaction>)
    requires Spares(u, slot)
    requires BufferOf(st.buffers, slot) == arrived && (slot in st.buffers <==> arrived != [])
    ensures var now := arrived + ArrivedBy(st, u, slot);
            BufferOf(Next(st, u).buffers, slot) == now && (slot in Next(st, u).buffers <==> now != [])
  {
  }

  lemma {:induction false} SparedStaysBuffered(updates: seq<Update>, slot: Slot)
    requires forall i :: 0 <= i < |updates| ==> Spares(updates[i], slot)
    ensures BufferOf(Run(updates).buffers, slot) == Arrived(updates, slot)
    ensures slot in Run(updates).buffers <==> Arrived(updates, slot) != []
  {
    if updates == [] {
    } else {
      var earlier, u := updates[..|updates| - 1], updates[|updates| - 1];
      SparedStaysBuffered(earlier, slot);
      SparedStep(Run(earlier), u, slot, Arrived(earlier, slot));
    }
  }

  lemma {:induction false} ArrivedUnchanged(before: seq<Update>, after: seq<Update>, slot: Slot)
    requires forall i :: 0 <= i < |after| ==> !(after[i].TransactionUpdate? && after[i].slot == slot)
    ensures Arrived(before + after, slot) == Arrived(before, slot)
  {
    if after == [] {
      assert before + after == before;
    } else {
      var n := |after| - 1;
      assert (before + after)[..|before + after| - 1] == before + after[..n];
      ArrivedUnchanged(before, after[..n], slot);
    }
  }

  /** A slot whose transactions all come before its first block meta, with no higher Finalized in
      between: the block sent holds all of them, in the order of arrival. Without any transaction
      nothing is sent. */
  lemma BlockIsComplete(before: seq<Update>, meta: Update, after: seq<Update>)
    requires meta.BlockMeta? && meta.header.Some? && Run(before).alive
    requires forall i :: 0 <= i < |before| ==> Spares(before[i], meta.slot)
    requires forall i :: 0 <= i < |after| ==> !(after[i].TransactionUpdate? && after[i].slot == meta.slot)
    ensures var txs := Arrived(before + [meta] + after, meta.slot);
            && (txs == [] ==> Messages(before + [meta]) == Messages(before))
            && (txs != [] ==>
                  && |Messages(before + [meta])| == |Messages(before)| + 1
                  && Describes(meta, Messages(before + [meta])[|Messages(before)|])
                  && Messages(before + [meta])[|Messages(before)|].transactions == txs)
  {
    SparedStaysBuffered(before, meta.slot);
    AllArrivedBefore(before, meta, after);
    assert (before + [meta])[..|before|] == before;
  }

  lemma AllArrivedBefore(before: seq<Update>, meta: Update, after: seq<Update>)
    requires meta.BlockMeta?
    requires forall i :: 0 <= i < |after| ==> !(after[i].TransactionUpdate? && after[i].slot == meta.slot)
    ensures Arrived(before + [meta] + after, meta.slot) == Arrived(before, meta.slot)
  {
    ArrivedUnchanged(before, [meta], meta.slot);
    ArrivedUnchanged(before + [meta], after, meta.slot);
  }

  // ----- What is sent, read off the updates -------------------------------------------------

  /** The message is what the update says: the commitment of its slot, or the block with the fields of its header. */
  ghost predicate Describes(u: Update, m: GeyserMessage) {
    match u
    case SlotUpdate(slot, Some(commitment)) => m == Status(slot, commitment)
    case BlockMeta(slot, leader, Some(header)) =>
      && m.Block? && m.slot == slot && m.leader == leader
      && m.hash == header.hash && m.time == header.time && m.height == header.height
      && m.parentSlot == header.parentSlot && m.parentHash == header.parentHash
    case _ => false
  }

  predicate Adds(u: Update, slot: Slot) {
    u.TransactionUpdate? && u.slot == slot && u.transaction.Some?
  }

  /** Some transaction of the slot has arrived and was neither sent nor dropped since. */
  ghost predicate Pending(updates: seq<Update>, slot: Slot) {
    exists i: nat :: i < |updates| && Adds(updates[i], slot)
                     && forall k :: i < k < |updates| ==> Spares(updates[k], slot)
  }

  /** Update `i` is needed and does not decode, or the stream fails. */
  ghost predicate Fails(updates: seq<Update>, i: nat)
    requires i < |updates|
  {
    match updates[i]
    case SlotUpdate(_, status) => status.None?
    case TransactionUpdate(_, transaction) => transaction.None?
    case BlockMeta(slot, _, header) => header.None? && Pending(updates[..i], slot)
    case OtherUpdate => false
    case StreamFailure => true
  }

  ghost predicate NoneFails(updates: seq<Update>, n: nat)
    requires n <= |updates|
  {
    forall i :: 0 <= i < n ==> !Fails(updates, i)
  }

  /** Before any failure, a decoded status, or a decoded header of a slot with pending transactions. */
  ghost predicate Sends(updates: seq<Update>, i: nat) {
    && i < |updates| && NoneFails(updates, i)
    && match updates[i]
       case SlotUpdate(_, status) => status.Some?
       case BlockMeta(slot, _, header) => header.Some? && Pending(updates[..i], slot)
       case _ => false
  }

  /** The positions of the updates that send a message. */
  ghost function Sources(updates: seq<Update>): seq<nat> {
    if updates == [] then []
    else
      var n := |updates| - 1;
      Sources(updates[..n]) + if Sends(updates, n) then [n] else []
  }

  lemma PendingStep(updates: seq<Update>, u: Update, slot: Slot)
    ensures Pending(updates + [u], slot) <==> Adds(u, slot) || (Pending(updates, slot) && Spares(u, slot))
  {
    var longer := updates + [u];
    if Adds(u, slot) {
      assert Adds(longer[|updates|], slot);
    } else if Pending(updates, slot) && Spares(u, slot) {
      var i: nat :| i < |updates| && Adds(updates[i], slot)
                    && forall k :: i < k < |updates| ==> Spares(updates[k], slot);
      assert Adds(longer[i], slot);
    }
    if Pending(longer, slot) && !Adds(u, slot) {
      var i: nat :| i < |longer| && Adds(longer[i], slot)
                    && forall k :: i < k < |longer| ==> Spares(longer[k], slot);
      assert Adds(updates[i], slot) && Spares(longer[|updates|], slot);
      assert forall k :: i < k < |updates| ==> updates[k] == longer[k];
    }
  }

  lemma BufferStep(st: State, u: Update, slot: Slot)
    requires Next(st, u).alive
    ensures st.alive
    ensures slot in Next(st, u).buffers <==> Adds(u, slot) || (slot in st.buffers && Spares(u, slot))
  {
  }

  /** While the subscription lives, the buffered slots are those with pending transactions. */
  lemma {:induction false} BufferedIff(updates: seq<Update>, slot: Slot)
    requires Run(updates).alive
    ensures slot in Run(updates).buffers <==> Pending(updates, slot)
  {
    if updates == [] {
    } else {
      var earlier, u := updates[..|updates| - 1], updates[|updates| - 1];
      assert updates == earlier + [u];
      RunNext(earlier, u);
      BufferStep(Run(earlier), u, slot);
      BufferedIff(earlier, slot);
      PendingStep(earlier, u, slot);
    }
  }

  lemma FailsPrefix(updates: seq<Update>, n: nat, i: nat)
    requires i < n <= |updates|
    ensures Fails(updates[..n], i) <==> Fails(updates, i)
    ensures Sends(updates[..n], i) <==> Sends(updates, i)
  {
    assert updates[..n][..i] == updates[..i];
    forall k | 0 <= k < i ensures Fails(updates[..n], k) <==> Fails(updates, k) {
      assert updates[..n][..k] == updates[..k];
    }
  }

  /** The subscription lives until the first failure. */
  lemma {:induction false} AliveIff(updates: seq<Update>)
    ensures Run(updates).alive <==> NoneFails(updates, |updates|)
  {
    if updates == [] {
    } else {
      var n := |updates| - 1;
      AliveIff(updates[..n]);
      NoneFailsPrefix(updates, n);
      AliveStep(updates);
      assert NoneFails(updates, n + 1) <==> NoneFails(updates, n) && !Fails(updates, n);
    }
  }

  lemma NoneFailsPrefix(updates: seq<Update>, n: nat)
    requires n <= |updates|
    ensures NoneFails(updates[..n], n) <==> NoneFails(updates, n)
  {
    forall i | 0 <= i < n ensures Fails(updates[..n], i) <==> Fails(updates, i) {
      FailsPrefix(updates, n, i);
    }
  }

  lemma AliveStep(updates: seq<Update>)
    requires updates != []
    ensures var n := |updates| - 1;
            Run(updates).alive <==> Run(updates[..n]).alive && !Fails(updates, n)
  {
    var n := |updates| - 1;
    if Run(updates[..n]).alive && updates[n].BlockMeta? {
      BufferedIff(updates[..n], updates[n].slot);
    }
  }

  /** An update is answered by a message that describes it exactly when it sends one. */
  lemma SentStep(updates: seq<Update>, u: Update)
    ensures Sends(updates + [u], |updates|) ==>
              && |Messages(updates + [u])| == |Messages(updates)| + 1
              && Messages(updates + [u])[..|Messages(updates)|] == Messages(updates)
              && Describes(u, Messages(updates + [u])[|Messages(updates)|])
    ensures !Sends(updates + [u], |updates|) ==> Messages(updates + [u]) == Messages(updates)
  {
    var longer := updates + [u];
    assert longer[..|updates|] == updates;
    AliveIff(updates);
    NoneFailsPrefix(longer, |updates|);
    if Run(updates).alive && u.BlockMeta? {
      BufferedIff(updates, u.slot);
    }
  }

  lemma {:induction false} SourcesExact(updates: seq<Update>)
    ensures StrictlyIncreasing(Sources(updates))
    ensures forall i: nat :: i in Sources(updates) <==> Sends(updates, i)
  {
    if updates == [] {
    } else {
      var n := |updates| - 1;
      SourcesExact(updates[..n]);
      forall i: nat ensures i in Sources(updates) <==> Sends(updates, i) {
        if i < n {
          FailsPrefix(updates, n, i);
        }
      }
      forall i | 0 <= i < |Sources(updates[..n])| ensures Sources(updates[..n])[i] < n {
        assert Sources(updates[..n])[i] in Sources(updates[..n]);
      }
    }
  }

  /** Every stream of updates: the messages sent are, in order, one for each update that sends one, and each says
      what its update says, field by field. */
  lemma {:induction false} MessagesDescribe(updates: seq<Update>)
    ensures |Messages(updates)| == |Sources(updates)|
    ensures forall k :: 0 <= k < |Messages(updates)| ==>
              Sources(updates)[k] < |updates| && Describes(updates[Sources(updates)[k]], Messages(updates)[k])
  {
    if updates == [] {
    } else {
      var n := |updates| - 1;
      assert updates == updates[..n] + [updates[n]];
      MessagesDescribe(updates[..n]);
      SentStep(updates[..n], updates[n]);
    }
  }

  lemma RunNext(updates: seq<Update>, u: Update)
    ensures Run(updates + [u]) == Next(Run(updates), u)
  {
    assert (updates + [u])[..|updates|] == updates;
  }

  class TransactionBuffer {
    var transactions: Buffers
    var alive: bool
    ghost var received: seq<Update>

    ghost predicate Valid()
      reads this
    {
      State(transactions, alive) == Run(received)
    }

    constructor ()
      ensures Valid() && received == [] && alive
    {
      transactions := map[];
      alive := true;
      received := [];
    }

    /** One round of the subscription loop. */
    method Process(u: Update) returns (sent: Sent)
      requires Valid() && alive
      modifies this
      ensures Valid() && received == old(received) + [u]
      ensures sent == SentBy(Run(old(received)), u)
      ensures alive <==> sent != Failure
      ensures u.SlotUpdate? && u.status == Some(Finalized) ==> forall s :: s in transactions ==> s >= u.slot
    {
      RunNext(received, u);
      received := received + [u];
      match u {
        case SlotUpdate(slot, status) =>
          if status.None? {
            sent := Failure;
          } else {
            if status == Some(Finalized) {
              DiscardBelow(slot);
            }
            sent := Message(Status(slot, status.value));
          }
        case TransactionUpdate(slot, transaction) =>
          if transaction.Some? {
            transactions := transactions[slot := BufferOf(transactions, slot) + [transaction.value]];
            sent := Nothing;
          } else {
            sent := Failure;
          }
        case BlockMeta(slot, leader, header) =>
          if slot in transactions {
            var txs := transactions[slot];
            transactions := transactions - {slot};
            sent := if header.Some? then Message(BuildBlock(slot, leader, header.value, txs)) else Failure;
          } else {
            sent := Nothing;
          }
        case OtherUpdate =>
          sent := Nothing;
        case StreamFailure =>
          sent := Failure;
      }
      alive := sent != Failure;
    }

    /** Pops the first buffer while its slot is below `slot`. */
    method DiscardBelow(slot: Slot)
      modifies this`transactions
      ensures transactions == Discard(old(transactions), slot)
    {
      ghost var before := transactions;
      while transactions != map[] && MinOf(transactions.Keys) < slot
        invariant Discard(transactions, slot) == Discard(before, slot)
        decreases |transactions|
      {
        transactions := transactions - {MinOf(transactions.Keys)};
      }
      assert transactions == Discard(transactions, slot);
    }
  }
}
