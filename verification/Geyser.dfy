/** Values that travel through the backend, and the option type used for them. */
module Wrappers {
  datatype Option<+T> = None | Some(value: T)
  datatype Result<+T, +E> = Ok(value: T) | Err(error: E)
}

/** The messages of the geyser stream (`grpc_geyser.rs`). */
module Geyser {
  import opened Wrappers

  type Slot = nat

  // The order of public keys is the order of their 32 bytes, read as one big-endian number.
  type Pubkey = nat

  type Hash = string

  datatype CommitmentLevel = Processed | Confirmed | Finalized

  datatype TransactionAccounts = TransactionAccounts(
    writable: seq<Pubkey>,
    readable: seq<Pubkey>,
    signers: seq<Pubkey>,
    feePayer: Pubkey)

  datatype GeyserTransaction = GeyserTransaction(vote: bool, accounts: TransactionAccounts, unitPrice: nat)

  /** `Block` is the source's `GeyserMessage::Slot`. */
  datatype GeyserMessage =
    | Status(slot: Slot, commitment: CommitmentLevel)
    | Block(leader: Option<Pubkey>, slot: Slot, hash: Hash, time: int, height: nat,
            parentSlot: Slot, parentHash: Hash, transactions: seq<GeyserTransaction>)

  /** What a message says about its slot: `None` for the block itself, else the new commitment. */
  type Kind = Option<CommitmentLevel>

  function KindOf(m: GeyserMessage): Kind {
    match m
    case Status(_, commitment) => Some(commitment)
    case Block(_, _, _, _, _, _, _, _) => None
  }

  /** The slot and the kind identify a message for deduplication. */
  type Key = (Slot, Kind)

  function KeyOf(m: GeyserMessage): Key {
    (m.slot, KindOf(m))
  }

  /** `log` holds a message with this key. */
  predicate Mentions(log: seq<GeyserMessage>, key: Key) {
    exists i :: 0 <= i < |log| && KeyOf(log[i]) == key
  }
}
