/** Prioritization fees of a slot: the precomputed index (`RecentPrioritizationFeesSlot`) and the direct
    scan (`StreamsSlotInfo::get_filtered`) of `rpc_solana.rs`. */
module Fees {
  import opened Wrappers
  import opened Geyser
  import opened Collections

  function Max(a: nat, b: nat): nat {
    if a >= b then a else b
  }

  // ----- Percentiles ------------------------------------------------------------------------

  /** Levels are in basis points; 10000 and more count as 9999. */
  function Bps(percentile: nat): nat {
    if percentile < 9_999 then percentile else 9_999
  }

  /** The index that `get_percentile` looks up in a list of `count` fees. */
  function LevelIndex(percentile: nat, count: nat): nat {
    Bps(percentile) * count / 10_000
  }

  function GetPercentile(fees: seq<nat>, percentile: nat): Option<nat> {
    var index := LevelIndex(percentile, |fees|);
    if index < |fees| then Some(fees[index]) else None
  }

  /** Without a percentile the smallest fee. */
  function GetWithPercentile(fees: seq<nat>, percentile: Option<nat>): Option<nat> {
    match percentile
    case Some(p) => GetPercentile(fees, p)
    case None => if fees == [] then None else Some(fees[0])
  }

  /** How many fees are below `v`. */
  function CountBelow(fees: seq<nat>, v: nat): nat {
    if fees == [] then 0 else CountBelow(fees[..|fees| - 1], v) + if fees[|fees| - 1] < v then 1 else 0
  }

  lemma {:induction false} CountBelowBounds(fees: seq<nat>, v: nat, w: nat)
    ensures v <= w ==> CountBelow(fees, v) <= CountBelow(fees, w)
    ensures CountBelow(fees, v) <= |fees|
  {
    if fees != [] {
      CountBelowBounds(fees[..|fees| - 1], v, w);
    }
  }

  /** In a sorted list the elements below `v` are its first ones. */
  lemma {:induction false} CountBelowSorted(fees: seq<nat>, v: nat, i: nat)
    requires NonDecreasing(fees) && i < |fees|
    ensures fees[i] < v <==> i < CountBelow(fees, v)
  {
    var n := |fees| - 1;
    CountBelowBounds(fees[..n], v, v);
    if i < n {
      CountBelowSorted(fees[..n], v, i);
      if fees[n] < v {
        CountBelowSorted(fees[..n], v, n - 1);
      }
    } else if n > 0 {
      CountBelowSorted(fees[..n], v, n - 1);
    }
  }

  lemma {:induction false} ProductMonotone(a: nat, b: nat, n: nat)
    requires a <= b
    ensures a * n <= b * n
  {
    if n > 0 {
      ProductMonotone(a, b, n - 1);
    }
  }

  lemma DivisionBounds(share: nat)
    ensures 10_000 * (share / 10_000) <= share < 10_000 * (share / 10_000) + 10_000
  {
  }

  lemma LevelInRange(percentile: nat, count: nat)
    requires count > 0
    ensures LevelIndex(percentile, count) < count
    ensures var index := LevelIndex(percentile, count);
            10_000 * index <= Bps(percentile) * count < 10_000 * index + 10_000
  {
    ProductMonotone(Bps(percentile), 9_999, count);
    DivisionBounds(Bps(percentile) * count);
  }

  /** The share that a percentile is: of a sorted non-empty list, `v` is answered exactly when at most the share
      of `p` in 10000 of the fees is below `v` and more than it is not above `v`. */
  lemma PercentileIsShare(fees: seq<nat>, p: nat, v: nat)
    requires NonDecreasing(fees) && fees != [] && p <= 9_999
    ensures GetPercentile(fees, p).Some?
    ensures GetPercentile(fees, p) == Some(v)
            <==> 10_000 * CountBelow(fees, v) <= p * |fees| < 10_000 * CountBelow(fees, v + 1)
  {
    LevelInRange(p, |fees|);
    var index := LevelIndex(p, |fees|);
    var u := fees[index];
    CountBelowSorted(fees, u, index);
    CountBelowSorted(fees, u + 1, index);
    CountBelowBounds(fees, u + 1, v);
    CountBelowBounds(fees, v + 1, u);
  }

  /** Levels from 9999 up are that of 9999; no level is found in an empty list. */
  lemma PercentileEnds(fees: seq<nat>, p: nat)
    ensures p >= 9_999 ==> GetPercentile(fees, p) == GetPercentile(fees, 9_999)
    ensures GetPercentile([], p) == None
  {
  }

  lemma PercentileMonotone(fees: seq<nat>, p: nat, q: nat)
    requires NonDecreasing(fees) && fees != [] && p <= q
    ensures GetPercentile(fees, p).Some? && GetPercentile(fees, q).Some?
    ensures GetPercentile(fees, p).value <= GetPercentile(fees, q).value
  {
    LevelInRange(p, |fees|);
    LevelInRange(q, |fees|);
    ProductMonotone(Bps(p), Bps(q), |fees|);
  }

  /** The top level looks at the last fee exactly when there are at most 10000 of them. */
  lemma TopLevel(fees: seq<nat>)
    requires NonDecreasing(fees) && fees != []
    ensures var index := 9_999 * |fees| / 10_000;
            && index < |fees| && GetPercentile(fees, 10_000) == Some(fees[index])
            && (index == |fees| - 1 <==> |fees| <= 10_000)
  {
    assert Bps(10_000) == 9_999;
    LevelInRange(10_000, |fees|);
  }

  // ----- The index --------------------------------------------------------------------------

  datatype FeeIndex = FeeIndex(transactionFees: seq<nat>, accountFees: map<Pubkey, seq<nat>>)

  /** What a transaction adds to the list of all fees (`None`) or to the fees of an account. */
  function Contribution(tx: GeyserTransaction, who: Option<Pubkey>): seq<nat> {
    if tx.vote then []
    else
      match who
      case None => [tx.unitPrice]
      case Some(key) => Repeat(tx.unitPrice, multiset(tx.accounts.writable)[key])
  }

  function Repeat(x: nat, n: nat): seq<nat> {
    if n == 0 then [] else Repeat(x, n - 1) + [x]
  }

  function Collected(txs: seq<GeyserTransaction>, who: Option<Pubkey>): seq<nat> {
    if txs == [] then []
    else Collected(txs[..|txs| - 1], who) + Contribution(txs[|txs| - 1], who)
  }

  /** The accounts that some non-vote transaction writes. */
  function Written(txs: seq<GeyserTransaction>): set<Pubkey> {
    if txs == [] then {}
    else Written(txs[..|txs| - 1]) + if txs[|txs| - 1].vote then {} else Elements(txs[|txs| - 1].accounts.writable)
  }

  function FeeIndexOf(txs: seq<GeyserTransaction>): FeeIndex {
    FeeIndex(Sort(Collected(txs, None)), map k | k in Written(txs) :: Sort(Collected(txs, Some(k))))
  }

  function Lookup(fees: map<Pubkey, seq<nat>>, key: Pubkey): seq<nat> {
    if key in fees then fees[key] else []
  }

  lemma CollectedStep(txs: seq<GeyserTransaction>, i: nat, who: Option<Pubkey>)
    requires i < |txs|
    ensures Collected(txs[..i + 1], who) == Collected(txs[..i], who) + Contribution(txs[i], who)
    ensures txs[i].vote ==> Collected(txs[..i + 1], who) == Collected(txs[..i], who)
    ensures Written(txs[..i + 1])
            == Written(txs[..i]) + if txs[i].vote then {} else Elements(txs[i].accounts.writable)
  {
    assert txs[..i + 1][..i] == txs[..i];
  }

  /** `fees` holds what the first transactions contribute to each account. */
  ghost predicate Gathers(fees: map<Pubkey, seq<nat>>, txs: seq<GeyserTransaction>) {
    fees.Keys == Written(txs) && forall key :: Lookup(fees, key) == Collected(txs, Some(key))
  }

  lemma GathersOne(fees: map<Pubkey, seq<nat>>, txs: seq<GeyserTransaction>, i: nat, next: map<Pubkey, seq<nat>>)
    requires i < |txs| && Gathers(fees, txs[..i])
    requires txs[i].vote ==> next == fees
    requires !txs[i].vote ==> next.Keys == fees.Keys + Elements(txs[i].accounts.writable)
    requires !txs[i].vote ==> forall key :: Lookup(next, key) == Lookup(fees, key) + Contribution(txs[i], Some(key))
    ensures Gathers(next, txs[..i + 1])
  {
    CollectedStep(txs, i, None);
    forall key ensures Lookup(next, key) == Collected(txs[..i + 1], Some(key)) {
      CollectedStep(txs, i, Some(key));
    }
  }

  lemma SortedIsIndex(fees: map<Pubkey, seq<nat>>, txs: seq<GeyserTransaction>, sorted: map<Pubkey, seq<nat>>)
    requires Gathers(fees, txs)
    requires sorted.Keys == fees.Keys && forall k :: k in fees ==> sorted[k] == Sort(fees[k])
    ensures sorted == FeeIndexOf(txs).accountFees
  {
    forall k | k in fees ensures fees[k] == Collected(txs, Some(k)) {
      assert Lookup(fees, k) == fees[k];
    }
  }

  /** `RecentPrioritizationFeesSlot::create`. */
  method Create(txs: seq<GeyserTransaction>) returns (index: FeeIndex)
    ensures index == FeeIndexOf(txs)
  {
    var transactionFees := [];
    var accountFees: map<Pubkey, seq<nat>> := map[];
    for i := 0 to |txs|
      invariant transactionFees == Collected(txs[..i], None)
      invariant Gathers(accountFees, txs[..i])
    {
      var tx := txs[i];
      ghost var before := accountFees;
      if !tx.vote {
        transactionFees := transactionFees + [tx.unitPrice];
        accountFees := AddAccounts(accountFees, tx);
      }
      CollectedStep(txs, i, None);
      GathersOne(before, txs, i, accountFees);
    }
    assert txs[..|txs|] == txs;
    ghost var gathered := accountFees;
    accountFees := SortAll(accountFees);
    SortedIsIndex(gathered, txs, accountFees);
    index := FeeIndex(Sort(transactionFees), accountFees);
  }

  /** `next` extends `fees` by one price for each occurrence of a key in `keys`. */
  ghost predicate Extends(fees: map<Pubkey, seq<nat>>, next: map<Pubkey, seq<nat>>, keys: seq<Pubkey>, price: nat) {
    && next.Keys == fees.Keys + Elements(keys)
    && forall key :: Lookup(next, key) == Lookup(fees, key) + Repeat(price, multiset(keys)[key])
  }

  lemma RepeatStep(x: nat, n: nat)
    ensures Repeat(x, n + 1) == Repeat(x, n) + [x]
  {
  }

  lemma ExtendsAt(fees: map<Pubkey, seq<nat>>, next: map<Pubkey, seq<nat>>, keys: seq<Pubkey>, price: nat,
                  key: Pubkey, k: Pubkey)
    requires Lookup(next, k) == Lookup(fees, k) + Repeat(price, multiset(keys)[k])
    ensures Lookup(next[key := Lookup(next, key) + [price]], k)
            == Lookup(fees, k) + Repeat(price, multiset(keys + [key])[k])
  {
    if k == key {
      var n := multiset(keys)[k];
      assert multiset(keys + [key])[k] == n + 1;
      RepeatStep(price, n);
      assert Lookup(fees, k) + Repeat(price, n) + [price] == Lookup(fees, k) + (Repeat(price, n) + [price]);
    } else {
      assert multiset(keys + [key])[k] == multiset(keys)[k];
    }
  }

  lemma ExtendsOne(fees: map<Pubkey, seq<nat>>, next: map<Pubkey, seq<nat>>, keys: seq<Pubkey>, price: nat, key: Pubkey)
    requires Extends(fees, next, keys, price)
    ensures Extends(fees, next[key := Lookup(next, key) + [price]], keys + [key], price)
  {
    ElementsOfConcat(keys, [key]);
    forall k
      ensures Lookup(next[key := Lookup(next, key) + [price]], k)
              == Lookup(fees, k) + Repeat(price, multiset(keys + [key])[k])
    {
      ExtendsAt(fees, next, keys, price, key, k);
    }
  }

  /** The inner loop of `create`. */
  method AddAccounts(fees: map<Pubkey, seq<nat>>, tx: GeyserTransaction) returns (r: map<Pubkey, seq<nat>>)
    ensures Extends(fees, r, tx.accounts.writable, tx.unitPrice)
  {
    r := fees;
    var writable := tx.accounts.writable;
    for j := 0 to |writable|
      invariant Extends(fees, r, writable[..j], tx.unitPrice)
    {
      assert writable[..j + 1] == writable[..j] + [writable[j]];
      ExtendsOne(fees, r, writable[..j], tx.unitPrice, writable[j]);
      r := r[writable[j] := Lookup(r, writable[j]) + [tx.unitPrice]];
    }
    assert writable[..|writable|] == writable;
  }

  method SortAll(fees: map<Pubkey, seq<nat>>) returns (r: map<Pubkey, seq<nat>>)
    ensures r.Keys == fees.Keys && forall k :: k in fees ==> r[k] == Sort(fees[k])
  {
    r := fees;
    var remaining := fees.Keys;
    while remaining != {}
      invariant remaining <= fees.Keys == r.Keys
      invariant forall k :: k in fees ==> r[k] == if k in remaining then fees[k] else Sort(fees[k])
      decreases remaining
    {
      var account :| account in remaining;
      r := r[account := Sort(r[account])];
      remaining := remaining - {account};
    }
  }

  function OrZero(level: Option<nat>): nat {
    if level.Some? then level.value else 0
  }

  function FeeOver(index: FeeIndex, keys: seq<Pubkey>, percentile: Option<nat>): nat {
    if keys == [] then OrZero(GetWithPercentile(index.transactionFees, percentile))
    else
      var key := keys[|keys| - 1];
      Max(FeeOver(index, keys[..|keys| - 1], percentile),
          OrZero(GetWithPercentile(Lookup(index.accountFees, key), percentile)))
  }

  /** `RecentPrioritizationFeesSlot::get_fee`. */
  method GetFee(index: FeeIndex, keys: seq<Pubkey>, percentile: Option<nat>) returns (fee: nat)
    ensures fee == FeeOver(index, keys, percentile)
  {
    fee := OrZero(GetWithPercentile(index.transactionFees, percentile));
    for i := 0 to |keys|
      invariant fee == FeeOver(index, keys[..i], percentile)
    {
      assert keys[..i + 1][..i] == keys[..i];
      if keys[i] in index.accountFees {
        var accountFee := GetWithPercentile(index.accountFees[keys[i]], percentile);
        if accountFee.Some? {
          fee := Max(fee, accountFee.value);
        }
      }
    }
    assert keys[..|keys|] == keys;
  }

  // ----- The scan ---------------------------------------------------------------------------

  datatype SlotFilter = SlotFilter(readWrite: seq<Pubkey>, readOnly: seq<Pubkey>, levels: seq<nat>)

  /** `slice::binary_search(..).is_ok()`. */
  predicate Search(keys: seq<Pubkey>, key: Pubkey) {
    if keys == [] then false
    else
      var mid := |keys| / 2;
      if keys[mid] == key then true
      else if keys[mid] < key then Search(keys[mid + 1..], key)
      else Search(keys[..mid], key)
  }

  /** `SlotSubscribeFilter::filter_pubkeys`. */
  predicate FilterPubkeys(required: seq<Pubkey>, pubkeys: seq<Pubkey>) {
    required == [] || forall i :: 0 <= i < |required| ==> Search(pubkeys, required[i])
  }

  predicate Accepts(filter: SlotFilter, tx: GeyserTransaction) {
    && !tx.vote
    && FilterPubkeys(filter.readWrite, tx.accounts.writable)
    && FilterPubkeys(filter.readOnly, tx.accounts.readable)
  }

  function Filtered(txs: seq<GeyserTransaction>, filter: SlotFilter): seq<nat> {
    if txs == [] then []
    else
      Filtered(txs[..|txs| - 1], filter) + if Accepts(filter, txs[|txs| - 1]) then [txs[|txs| - 1].unitPrice] else []
  }

  function Levels(fees: seq<nat>, levels: seq<nat>): seq<Option<nat>> {
    seq(|levels|, i requires 0 <= i < |levels| => GetPercentile(Sort(fees), levels[i]))
  }

  function Sum(fees: seq<nat>): nat {
    if fees == [] then 0 else Sum(fees[..|fees| - 1]) + fees[|fees| - 1]
  }

  /** The average fee as a real number, 0 of none. */
  function Average(fees: seq<nat>): real {
    if fees == [] then 0.0 else Sum(fees) as real / |fees| as real
  }

  /** The fee part of `StreamsSlotInfo::get_filtered`. */
  method GetFiltered(txs: seq<GeyserTransaction>, filter: SlotFilter)
    returns (total: nat, feeAverage: real, feeLevels: seq<Option<nat>>)
    ensures total == |Filtered(txs, filter)|
    ensures feeAverage == Average(Filtered(txs, filter))
    ensures feeLevels == Levels(Filtered(txs, filter), filter.levels)
  {
    var fees := [];
    for i := 0 to |txs|
      invariant fees == Filtered(txs[..i], filter)
    {
      assert txs[..i + 1][..i] == txs[..i];
      if Accepts(filter, txs[i]) {
        fees := fees + [txs[i].unitPrice];
      }
    }
    assert txs[..|txs|] == txs;
    total := |fees|;
    feeAverage := Average(fees);
    feeLevels := [];
    if filter.levels != [] {
      var sorted := Sort(fees);
      for i := 0 to |filter.levels|
        invariant feeLevels == Levels(fees, filter.levels[..i])
      {
        feeLevels := feeLevels + [GetPercentile(sorted, filter.levels[i])];
      }
      assert filter.levels[..|filter.levels|] == filter.levels;
    }
  }

  lemma RepeatOnce(x: nat)
    ensures Repeat(x, 0) == [] && Repeat(x, 1) == [x]
  {
    assert Repeat(x, 1) == Repeat(x, 0) + [x];
  }

  lemma {:induction false} RepeatMembers(x: nat, n: nat, y: nat)
    requires y in Repeat(x, n)
    ensures y == x
  {
    if n > 0 && y in Repeat(x, n - 1) {
      RepeatMembers(x, n - 1, y);
    }
  }

  // ----- Index and scan agree ---------------------------------------------------------------

  lemma {:induction false} SearchExact(keys: seq<Pubkey>, key: Pubkey)
    requires NonDecreasing(keys)
    ensures Search(keys, key) <==> key in keys
  {
    if keys != [] {
      var mid := |keys| / 2;
      assert keys == keys[..mid] + [keys[mid]] + keys[mid + 1..];
      if keys[mid] < key {
        SearchExact(keys[mid + 1..], key);
      } else if keys[mid] > key {
        SearchExact(keys[..mid], key);
      }
    }
  }

  /** The account lists that the geyser side produces: sorted, without repetition. */
  ghost predicate SortedAccounts(tx: GeyserTransaction) {
    StrictlyIncreasing(tx.accounts.writable) && StrictlyIncreasing(tx.accounts.readable)
  }

  ghost predicate AllSorted(txs: seq<GeyserTransaction>) {
    forall i :: 0 <= i < |txs| ==> SortedAccounts(txs[i])
  }

  lemma {:induction false} OccursOnce(keys: seq<Pubkey>, key: Pubkey)
    requires StrictlyIncreasing(keys)
    ensures multiset(keys)[key] == if key in keys then 1 else 0
  {
    if keys != [] {
      var n := |keys| - 1;
      assert keys == keys[..n] + [keys[n]];
      OccursOnce(keys[..n], key);
    }
  }

  function EveryTransaction(): SlotFilter {
    SlotFilter([], [], [])
  }

  function WritersOf(key: Pubkey): SlotFilter {
    SlotFilter([key], [], [])
  }

  /** Scanning for the writers of an account collects what the index stores for it. */
  lemma {:induction false} ScanCollects(txs: seq<GeyserTransaction>, key: Pubkey)
    requires AllSorted(txs)
    ensures Filtered(txs, EveryTransaction()) == Collected(txs, None)
    ensures Filtered(txs, WritersOf(key)) == Collected(txs, Some(key))
  {
    if txs != [] {
      var tx := txs[|txs| - 1];
      ScanCollects(txs[..|txs| - 1], key);
      SearchExact(tx.accounts.writable, key);
      OccursOnce(tx.accounts.writable, key);
      RepeatOnce(tx.unitPrice);
      assert WritersOf(key).readWrite[0] == key;
      assert Accepts(WritersOf(key), tx) <==> !tx.vote && key in tx.accounts.writable;
    }
  }

  lemma {:induction false} LookupCollects(txs: seq<GeyserTransaction>, key: Pubkey)
    ensures key in Written(txs) <==> Collected(txs, Some(key)) != []
    ensures Lookup(FeeIndexOf(txs).accountFees, key) == Sort(Collected(txs, Some(key)))
  {
    if txs != [] {
      LookupCollects(txs[..|txs| - 1], key);
    }
  }

  /** The largest level over the scans for all transactions and for each key's writers, 0 without any. */
  function ScanFee(txs: seq<GeyserTransaction>, keys: seq<Pubkey>, percentile: nat): nat {
    if keys == [] then OrZero(Levels(Filtered(txs, EveryTransaction()), [percentile])[0])
    else
      Max(ScanFee(txs, keys[..|keys| - 1], percentile),
          OrZero(Levels(Filtered(txs, WritersOf(keys[|keys| - 1])), [percentile])[0]))
  }

  /** The index answers what the direct scans answer, for every list of keys and every percentile. */
  lemma {:induction false} IndexAgreesWithScan(txs: seq<GeyserTransaction>, keys: seq<Pubkey>, percentile: nat)
    requires AllSorted(txs)
    ensures FeeOver(FeeIndexOf(txs), keys, Some(percentile)) == ScanFee(txs, keys, percentile)
  {
    if keys == [] {
      ScanCollects(txs, 0);
    } else {
      var key := keys[|keys| - 1];
      IndexAgreesWithScan(txs, keys[..|keys| - 1], percentile);
      ScanCollects(txs, key);
      LookupCollects(txs, key);
    }
  }

  // ----- Minimum fees -----------------------------------------------------------------------

  lemma {:induction false} AccountFeesAreFees(txs: seq<GeyserTransaction>, key: Pubkey, fee: nat)
    requires fee in Collected(txs, Some(key))
    ensures fee in Collected(txs, None)
  {
    var earlier := txs[..|txs| - 1];
    if fee in Collected(earlier, Some(key)) {
      AccountFeesAreFees(earlier, key, fee);
    } else {
      var tx := txs[|txs| - 1];
      RepeatMembers(tx.unitPrice, multiset(tx.accounts.writable)[key], fee);
    }
  }

  lemma AccountMinimum(txs: seq<GeyserTransaction>, key: Pubkey)
    requires key in Written(txs)
    ensures var index := FeeIndexOf(txs);
            index.accountFees[key] != [] && index.transactionFees != []
            && index.transactionFees[0] <= index.accountFees[key][0]
  {
    LookupCollects(txs, key);
    var fees, all := Sort(Collected(txs, Some(key))), Sort(Collected(txs, None));
    assert |fees| == |multiset(fees)| == |multiset(Collected(txs, Some(key)))|;
    assert fees[0] in multiset(fees);
    AccountFeesAreFees(txs, key, fees[0]);
    assert fees[0] in multiset(all);
    var i :| 0 <= i < |all| && all[i] == fees[0];
  }

  /** The fee is the largest of the slot's level and the keys' levels. */
  lemma {:induction false} FeeOverIsMax(index: FeeIndex, keys: seq<Pubkey>, percentile: Option<nat>)
    ensures var fee := FeeOver(index, keys, percentile);
            var base := OrZero(GetWithPercentile(index.transactionFees, percentile));
            && base <= fee
            && (forall k :: k in keys ==> OrZero(GetWithPercentile(Lookup(index.accountFees, k), percentile)) <= fee)
            && (fee == base
                || exists k :: k in keys && fee == OrZero(GetWithPercentile(Lookup(index.accountFees, k), percentile)))
  {
    if keys != [] {
      var n := |keys| - 1;
      assert keys == keys[..n] + [keys[n]];
      FeeOverIsMax(index, keys[..n], percentile);
    }
  }

  /** Each written key's minimum is at least the slot's minimum and at most the fee. */
  lemma WrittenMinimum(txs: seq<GeyserTransaction>, keys: seq<Pubkey>, k: Pubkey)
    requires k in keys && k in Written(txs)
    ensures var index := FeeIndexOf(txs);
            && index.accountFees[k] != []
            && OrZero(GetWithPercentile(index.transactionFees, None)) <= index.accountFees[k][0]
            && index.accountFees[k][0] <= FeeOver(index, keys, None)
  {
    var index := FeeIndexOf(txs);
    AccountMinimum(txs, k);
    FeeOverIsMax(index, keys, None);
    assert OrZero(GetWithPercentile(Lookup(index.accountFees, k), None)) == index.accountFees[k][0];
  }

  /** Without a percentile: the largest of the minimum fees of the written keys, and the slot's minimum
      fee only when none of the keys is written. */
  lemma MinimumFee(txs: seq<GeyserTransaction>, keys: seq<Pubkey>)
    ensures var index, fee := FeeIndexOf(txs), FeeOver(FeeIndexOf(txs), keys, None);
            && (forall k :: k in keys && k in Written(txs) ==>
                  index.accountFees[k] != [] && index.accountFees[k][0] <= fee)
            && ((exists k :: k in keys && k in Written(txs)
                             && index.accountFees[k] != [] && index.accountFees[k][0] == fee)
                || (fee == OrZero(GetWithPercentile(index.transactionFees, None))
                    && forall k :: k in keys ==> k !in Written(txs)))
  {
    var index, fee := FeeIndexOf(txs), FeeOver(FeeIndexOf(txs), keys, None);
    forall k | k in keys && k in Written(txs) ensures index.accountFees[k] != [] && index.accountFees[k][0] <= fee {
      WrittenMinimum(txs, keys, k);
    }
    if k :| k in keys && k in Written(txs) {
      WrittenMinimum(txs, keys, k);
      FeeOverIsMax(index, keys, None);
      if fee != index.accountFees[k][0] {
        var best :| best in keys && fee == OrZero(GetWithPercentile(Lookup(index.accountFees, best), None));
      }
    } else {
      FeeOverIsMax(index, keys, None);
    }
  }

  // ----- Independence of order --------------------------------------------------------------

  lemma CollectedSnoc(txs: seq<GeyserTransaction>, tx: GeyserTransaction, who: Option<Pubkey>)
    ensures Collected(txs + [tx], who) == Collected(txs, who) + Contribution(tx, who)
  {
    assert (txs + [tx])[..|txs|] == txs;
  }

  lemma {:induction false} CollectedConcat(a: seq<GeyserTransaction>, b: seq<GeyserTransaction>, who: Option<Pubkey>)
    ensures Collected(a + b, who) == Collected(a, who) + Collected(b, who)
  {
    if b == [] {
      assert a + b == a;
    } else {
      var rest, tx := b[..|b| - 1], b[|b| - 1];
      assert b == rest + [tx] && a + b == (a + rest) + [tx];
      CollectedConcat(a, rest, who);
      CollectedSnoc(a + rest, tx, who);
      CollectedSnoc(rest, tx, who);
      Associative(Collected(a, who), Collected(rest, who), Contribution(tx, who));
    }
  }

  lemma Associative<T>(x: seq<T>, y: seq<T>, z: seq<T>)
    ensures (x + y) + z == x + (y + z)
  {
  }

  lemma CollectedSingle(tx: GeyserTransaction, who: Option<Pubkey>)
    ensures Collected([tx], who) == Contribution(tx, who)
  {
    assert [tx][..0] == [] && Collected([], who) == [];
  }

  lemma CollectedAround(before: seq<GeyserTransaction>, tx: GeyserTransaction, after: seq<GeyserTransaction>,
                        who: Option<Pubkey>)
    ensures multiset(Collected(before + [tx] + after, who))
            == multiset(Collected(before + after, who)) + multiset(Contribution(tx, who))
  {
    CollectedConcat(before, after, who);
    CollectedConcat(before + [tx], after, who);
    CollectedConcat(before, [tx], who);
    CollectedSingle(tx, who);
  }

  lemma PermutedStep(rest: seq<GeyserTransaction>, tx: GeyserTransaction, before: seq<GeyserTransaction>,
                     after: seq<GeyserTransaction>, who: Option<Pubkey>)
    requires multiset(Collected(rest, who)) == multiset(Collected(before + after, who))
    ensures multiset(Collected(rest + [tx], who)) == multiset(Collected(before + [tx] + after, who))
  {
    CollectedAround(before, tx, after, who);
    CollectedConcat(rest, [tx], who);
    CollectedSingle(tx, who);
  }

  lemma {:induction false} CollectedPermuted(a: seq<GeyserTransaction>, b: seq<GeyserTransaction>, who: Option<Pubkey>)
    requires multiset(a) == multiset(b)
    ensures multiset(Collected(a, who)) == multiset(Collected(b, who))
  {
    if a == [] {
      assert |b| == |multiset(b)| == |multiset(a)| == 0;
    } else {
      var rest, tx := a[..|a| - 1], a[|a| - 1];
      assert a == rest + [tx];
      assert tx in multiset(b);
      var i := IndexOf(b, tx);
      var before, after := b[..i], b[i + 1..];
      assert b == before + [tx] + after;
      MultisetWithout(before, tx, after);
      MultisetWithout(rest, tx, []);
      assert rest + [] == rest && rest + [tx] + [] == a;
      CollectedPermuted(rest, before + after, who);
      PermutedStep(rest, tx, before, after, who);
    }
  }

  lemma MultisetWithout<T>(before: seq<T>, x: T, after: seq<T>)
    ensures multiset(before + after) == multiset(before + [x] + after) - multiset{x}
  {
  }

  /** The answer depends neither on the order of the transactions nor on the order or repetition of keys. */
  lemma FeeForgetsOrder(a: seq<GeyserTransaction>, b: seq<GeyserTransaction>,
                        keys: seq<Pubkey>, others: seq<Pubkey>, percentile: Option<nat>)
    requires multiset(a) == multiset(b)
    requires forall k :: k in keys <==> k in others
    ensures FeeOver(FeeIndexOf(a), keys, percentile) == FeeOver(FeeIndexOf(b), others, percentile)
  {
    CollectedPermuted(a, b, None);
    SortForgetsOrder(Collected(a, None), Collected(b, None));
    forall k ensures Lookup(FeeIndexOf(a).accountFees, k) == Lookup(FeeIndexOf(b).accountFees, k) {
      CollectedPermuted(a, b, Some(k));
      SortForgetsOrder(Collected(a, Some(k)), Collected(b, Some(k)));
      LookupCollects(a, k);
      LookupCollects(b, k);
    }
    FeeOverIsMax(FeeIndexOf(a), keys, percentile);
    FeeOverIsMax(FeeIndexOf(b), others, percentile);
  }
}
