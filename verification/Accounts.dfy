/** The account lists of a transaction (`GeyserTransactionAccounts::from` in `grpc_geyser.rs`) and the
    filter that searches them. */
module Accounts {
  import opened Wrappers
  import opened Geyser
  import opened Collections
  import opened Fees

  /** The parts of a versioned message and its metadata that the lists are made of. */
  datatype Message = Message(
    requiredSignatures: nat,
    readonlySigned: nat,
    readonlyUnsigned: nat,
    staticKeys: seq<Pubkey>,
    loadedWritable: seq<Pubkey>,
    loadedReadonly: seq<Pubkey>)

  /** What a sanitized message guarantees: a writable fee payer, and disjoint signed and unsigned ranges. */
  ghost predicate ValidHeader(m: Message) {
    && m.readonlySigned < m.requiredSignatures
    && m.requiredSignatures + m.readonlyUnsigned <= |m.staticKeys|
  }

  /** `GeyserTransactionAccounts::from`: ranges of the static keys plus the loaded addresses, each
      collected into a set and sorted. */
  function AccountsOf(m: Message): TransactionAccounts
    requires ValidHeader(m)
  {
    TransactionAccounts(
      Ascending(Elements(m.loadedWritable + WritableSigned(m) + WritableUnsigned(m))),
      Ascending(Elements(m.loadedReadonly + ReadonlySigned(m) + ReadonlyUnsigned(m))),
      Ascending(Elements(m.staticKeys[0..m.requiredSignatures])),
      m.staticKeys[0])
  }

  function WritableSigned(m: Message): seq<Pubkey>
    requires ValidHeader(m)
  {
    m.staticKeys[0..m.requiredSignatures - m.readonlySigned]
  }

  function WritableUnsigned(m: Message): seq<Pubkey>
    requires ValidHeader(m)
  {
    m.staticKeys[m.requiredSignatures..|m.staticKeys| - m.readonlyUnsigned]
  }

  function ReadonlySigned(m: Message): seq<Pubkey>
    requires ValidHeader(m)
  {
    m.staticKeys[m.requiredSignatures - m.readonlySigned..m.requiredSignatures]
  }

  function ReadonlyUnsigned(m: Message): seq<Pubkey>
    requires ValidHeader(m)
  {
    m.staticKeys[|m.staticKeys| - m.readonlyUnsigned..|m.staticKeys|]
  }

  /** The Solana rule: a signer is writable unless it is among the last `readonlySigned` signers, another
      static key unless it is among the last `readonlyUnsigned` keys. */
  predicate IsWritable(m: Message, i: nat)
    requires i < |m.staticKeys|
  {
    if i < m.requiredSignatures then i + m.readonlySigned < m.requiredSignatures
    else i + m.readonlyUnsigned < |m.staticKeys|
  }

  ghost predicate WritableKey(m: Message, key: Pubkey) {
    key in m.loadedWritable || exists i :: 0 <= i < |m.staticKeys| && m.staticKeys[i] == key && IsWritable(m, i)
  }

  ghost predicate ReadableKey(m: Message, key: Pubkey) {
    key in m.loadedReadonly || exists i :: 0 <= i < |m.staticKeys| && m.staticKeys[i] == key && !IsWritable(m, i)
  }

  ghost predicate SignerKey(m: Message, key: Pubkey) {
    exists i :: 0 <= i < |m.staticKeys| && m.staticKeys[i] == key && i < m.requiredSignatures
  }

  lemma InSlice(keys: seq<Pubkey>, lo: nat, hi: nat, key: Pubkey)
    requires lo <= hi <= |keys|
    ensures key in keys[lo..hi] <==> exists i :: lo <= i < hi && keys[i] == key
  {
    if key in keys[lo..hi] {
      var j :| 0 <= j < hi - lo && keys[lo..hi][j] == key;
      assert keys[lo + j] == key;
    }
    if i :| lo <= i < hi && keys[i] == key {
      assert keys[lo..hi][i - lo] == key;
    }
  }

  /** The four ranges of the header partition the static keys: the first two hold the keys at writable
      indices, the other two the keys at readonly indices. */
  lemma InRanges(m: Message, key: Pubkey)
    requires ValidHeader(m)
    ensures key in WritableSigned(m) || key in WritableUnsigned(m)
            <==> exists i :: 0 <= i < |m.staticKeys| && m.staticKeys[i] == key && IsWritable(m, i)
    ensures key in ReadonlySigned(m) || key in ReadonlyUnsigned(m)
            <==> exists i :: 0 <= i < |m.staticKeys| && m.staticKeys[i] == key && !IsWritable(m, i)
  {
    var n, r, w := |m.staticKeys|, m.requiredSignatures, m.requiredSignatures - m.readonlySigned;
    InSlice(m.staticKeys, 0, w, key);
    InSlice(m.staticKeys, r, n - m.readonlyUnsigned, key);
    InSlice(m.staticKeys, w, r, key);
    InSlice(m.staticKeys, n - m.readonlyUnsigned, n, key);
  }

  lemma InSortedSet(a: seq<Pubkey>, b: seq<Pubkey>, c: seq<Pubkey>, key: Pubkey)
    ensures key in Ascending(Elements(a + b + c)) <==> key in a || key in b || key in c
  {
    assert key in Ascending(Elements(a + b + c)) <==> key in Elements(a + b + c);
  }

  lemma WritableExact(m: Message, key: Pubkey)
    requires ValidHeader(m)
    ensures key in AccountsOf(m).writable <==> WritableKey(m, key)
  {
    InRanges(m, key);
    InSortedSet(m.loadedWritable, WritableSigned(m), WritableUnsigned(m), key);
  }

  lemma ReadableExact(m: Message, key: Pubkey)
    requires ValidHeader(m)
    ensures key in AccountsOf(m).readable <==> ReadableKey(m, key)
  {
    InRanges(m, key);
    InSortedSet(m.loadedReadonly, ReadonlySigned(m), ReadonlyUnsigned(m), key);
  }

  lemma SignersExact(m: Message, key: Pubkey)
    requires ValidHeader(m)
    ensures key in AccountsOf(m).signers <==> SignerKey(m, key)
  {
    InSlice(m.staticKeys, 0, m.requiredSignatures, key);
  }

  /** The lists hold exactly the writable, readable and signer keys of the message, sorted and without
      repetition. */
  lemma AccountsExact(m: Message, key: Pubkey)
    requires ValidHeader(m)
    ensures key in AccountsOf(m).writable <==> WritableKey(m, key)
    ensures key in AccountsOf(m).readable <==> ReadableKey(m, key)
    ensures key in AccountsOf(m).signers <==> SignerKey(m, key)
    ensures StrictlyIncreasing(AccountsOf(m).writable) && StrictlyIncreasing(AccountsOf(m).readable)
    ensures StrictlyIncreasing(AccountsOf(m).signers)
  {
    WritableExact(m, key);
    ReadableExact(m, key);
    SignersExact(m, key);
  }

  /** The fee payer is the first static key, and it is among the writable keys and the signers. */
  lemma FeePayerListed(m: Message)
    requires ValidHeader(m)
    ensures AccountsOf(m).feePayer == m.staticKeys[0]
    ensures AccountsOf(m).feePayer in AccountsOf(m).writable && AccountsOf(m).feePayer in AccountsOf(m).signers
  {
    AccountsExact(m, m.staticKeys[0]);
    assert IsWritable(m, 0);
  }

  /** A message whose static keys are distinct and not loaded again: no key is both writable and readable. */
  lemma ListsDisjoint(m: Message, key: Pubkey)
    requires ValidHeader(m) && Distinct(m.staticKeys)
    requires forall k :: k in m.staticKeys ==> k !in m.loadedWritable && k !in m.loadedReadonly
    requires forall k :: k in m.loadedWritable ==> k !in m.loadedReadonly
    ensures !(key in AccountsOf(m).writable && key in AccountsOf(m).readable)
  {
    AccountsExact(m, key);
  }

  /** Filtering by binary search is exact: a non-vote transaction passes exactly when it writes all
      `readWrite` accounts and reads all `readOnly` accounts of the filter. */
  lemma FilterExact(m: Message, vote: bool, price: nat, filter: SlotFilter)
    requires ValidHeader(m)
    ensures Accepts(filter, GeyserTransaction(vote, AccountsOf(m), price))
            <==> && !vote
                 && (forall k :: k in filter.readWrite ==> WritableKey(m, k))
                 && (forall k :: k in filter.readOnly ==> ReadableKey(m, k))
  {
    var accounts := AccountsOf(m);
    forall k
      ensures Search(accounts.writable, k) <==> WritableKey(m, k)
      ensures Search(accounts.readable, k) <==> ReadableKey(m, k)
    {
      AccountsExact(m, k);
      SearchExact(accounts.writable, k);
      SearchExact(accounts.readable, k);
    }
  }
}
