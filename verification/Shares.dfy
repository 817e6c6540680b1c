/** The fees that are answered for a slot, in terms of its transactions alone. */
module Shares {
  import opened Wrappers
  import opened Geyser
  import opened Collections
  import opened Fees

  // ----- Counting transactions --------------------------------------------------------------

  /** The non-vote transactions of a slot or of an account it writes, those that pass a filter, or the votes. */
  datatype Selection = Paying(who: Option<Pubkey>) | Passing(filter: SlotFilter) | Votes

  ghost predicate Selects(selection: Selection, tx: GeyserTransaction) {
    match selection
    case Paying(who) => !tx.vote && (who.Some? ==> who.value in tx.accounts.writable)
    case Passing(filter) =>
      && !tx.vote
      && (forall k :: k in filter.readWrite ==> k in tx.accounts.writable)
      && (forall k :: k in filter.readOnly ==> k in tx.accounts.readable)
    case Votes => tx.vote
  }

  ghost function Chosen(txs: seq<GeyserTransaction>, selection: Selection): set<nat> {
    set i: nat | i < |txs| && Selects(selection, txs[i])
  }

  ghost function Cheaper(txs: seq<GeyserTransaction>, selection: Selection, v: nat): set<nat> {
    set i: nat | i < |txs| && Selects(selection, txs[i]) && txs[i].unitPrice < v
  }

  lemma GrowsBy(a: set<nat>, b: set<nat>, n: nat, more: bool)
    requires n !in a && forall i: nat :: i in b <==> i in a || (more && i == n)
    ensures |b| == |a| + if more then 1 else 0
  {
    if more {
      assert b == a + {n};
    } else {
      assert b == a;
    }
  }

  lemma ChosenStep(txs: seq<GeyserTransaction>, selection: Selection)
    requires txs != []
    ensures |Chosen(txs, selection)|
            == |Chosen(txs[..|txs| - 1], selection)| + if Selects(selection, txs[|txs| - 1]) then 1 else 0
  {
    var n := |txs| - 1;
    GrowsBy(Chosen(txs[..n], selection), Chosen(txs, selection), n, Selects(selection, txs[n]));
  }

  lemma CheaperStep(txs: seq<GeyserTransaction>, selection: Selection, v: nat)
    requires txs != []
    ensures var tx := txs[|txs| - 1];
            |Cheaper(txs, selection, v)|
            == |Cheaper(txs[..|txs| - 1], selection, v)| + if Selects(selection, tx) && tx.unitPrice < v then 1 else 0
  {
    var n := |txs| - 1;
    GrowsBy(Cheaper(txs[..n], selection, v), Cheaper(txs, selection, v), n,
            Selects(selection, txs[n]) && txs[n].unitPrice < v);
  }

  // ----- What the lists of fees hold --------------------------------------------------------

  /** A list holds the unit prices of the selected transactions, counted below every value. */
  ghost predicate Prices(fees: seq<nat>, txs: seq<GeyserTransaction>, selection: Selection) {
    && |fees| == |Chosen(txs, selection)|
    && forall v: nat :: CountBelow(fees, v) == |Cheaper(txs, selection, v)|
  }

  lemma CountBelowSnoc(fees: seq<nat>, x: nat, v: nat)
    ensures CountBelow(fees + [x], v) == CountBelow(fees, v) + if x < v then 1 else 0
  {
    assert (fees + [x])[..|fees|] == fees;
  }

  lemma PricesStep(fees: seq<nat>, txs: seq<GeyserTransaction>, selection: Selection, next: seq<nat>)
    requires txs != [] && Prices(fees, txs[..|txs| - 1], selection)
    requires next == if Selects(selection, txs[|txs| - 1]) then fees + [txs[|txs| - 1].unitPrice] else fees
    ensures Prices(next, txs, selection)
  {
    ChosenStep(txs, selection);
    forall v: nat ensures CountBelow(next, v) == |Cheaper(txs, selection, v)| {
      CheaperStep(txs, selection, v);
      CountBelowSnoc(fees, txs[|txs| - 1].unitPrice, v);
    }
  }

  lemma PricesOfNone(selection: Selection)
    ensures Prices([], [], selection)
  {
    assert Chosen([], selection) == {};
    forall v: nat ensures Cheaper([], selection, v) == {} {}
  }

  /** The fees that the index collects: of a sorted account list each key counts once. */
  lemma {:induction false} CollectedPrices(txs: seq<GeyserTransaction>, who: Option<Pubkey>)
    requires AllSorted(txs)
    ensures Prices(Collected(txs, who), txs, Paying(who))
  {
    if txs == [] {
      PricesOfNone(Paying(who));
    } else {
      var n := |txs| - 1;
      CollectedPrices(txs[..n], who);
      if who.Some? {
        OccursOnce(txs[n].accounts.writable, who.value);
        RepeatOnce(txs[n].unitPrice);
      }
      PricesStep(Collected(txs[..n], who), txs, Paying(who), Collected(txs, who));
    }
  }

  lemma AcceptsIff(filter: SlotFilter, tx: GeyserTransaction)
    requires SortedAccounts(tx)
    ensures Accepts(filter, tx) <==> Selects(Passing(filter), tx)
  {
    forall k
      ensures Search(tx.accounts.writable, k) <==> k in tx.accounts.writable
      ensures Search(tx.accounts.readable, k) <==> k in tx.accounts.readable
    {
      SearchExact(tx.accounts.writable, k);
      SearchExact(tx.accounts.readable, k);
    }
  }

  /** The fees that the scan collects. */
  lemma {:induction false} FilteredPrices(txs: seq<GeyserTransaction>, filter: SlotFilter)
    requires AllSorted(txs)
    ensures Prices(Filtered(txs, filter), txs, Passing(filter))
  {
    if txs == [] {
      PricesOfNone(Passing(filter));
    } else {
      var n := |txs| - 1;
      FilteredPrices(txs[..n], filter);
      AcceptsIff(filter, txs[n]);
      PricesStep(Filtered(txs[..n], filter), txs, Passing(filter), Filtered(txs, filter));
    }
  }

  // ----- Sorting keeps the counts -----------------------------------------------------------

  lemma {:induction false} CountBelowCons(x: nat, fees: seq<nat>, v: nat)
    ensures CountBelow([x] + fees, v) == CountBelow(fees, v) + if x < v then 1 else 0
  {
    if fees == [] {
      assert [x] + fees == [x] && [x][..0] == [];
    } else {
      var n := |fees| - 1;
      assert ([x] + fees)[..|fees|] == [x] + fees[..n];
      CountBelowCons(x, fees[..n], v);
    }
  }

  lemma {:induction false} CountBelowInsert(x: nat, fees: seq<nat>, v: nat)
    requires NonDecreasing(fees)
    ensures CountBelow(Insert(x, fees), v) == CountBelow(fees, v) + if x < v then 1 else 0
  {
    if fees == [] || x <= fees[0] {
      CountBelowCons(x, fees, v);
    } else {
      CountBelowInsert(x, fees[1..], v);
      CountBelowCons(fees[0], Insert(x, fees[1..]), v);
      CountBelowCons(fees[0], fees[1..], v);
      assert fees == [fees[0]] + fees[1..];
    }
  }

  lemma {:induction false} CountBelowSort(fees: seq<nat>, v: nat)
    ensures CountBelow(Sort(fees), v) == CountBelow(fees, v) && |Sort(fees)| == |fees|
  {
    assert |Sort(fees)| == |multiset(Sort(fees))| == |multiset(fees)| == |fees|;
    if fees != [] {
      CountBelowSort(fees[1..], v);
      CountBelowInsert(fees[0], Sort(fees[1..]), v);
      CountBelowCons(fees[0], fees[1..], v);
      assert fees == [fees[0]] + fees[1..];
    }
  }

  // ----- Levels -----------------------------------------------------------------------------

  /** `v` is the level of the selected transactions. With a percentile `p`, at most its share in 10000 of them is
      cheaper than `v` and more than it is not dearer; 9999 is the largest share. Without one, `v` is the smallest
      price. */
  ghost predicate IsLevel(txs: seq<GeyserTransaction>, selection: Selection, percentile: Option<nat>, v: nat) {
    match percentile
    case Some(p) =>
      var share := if p <= 9_999 then p else 9_999;
      10_000 * |Cheaper(txs, selection, v)| <= share * |Chosen(txs, selection)|
                                             < 10_000 * |Cheaper(txs, selection, v + 1)|
    case None => |Cheaper(txs, selection, v)| == 0 < |Cheaper(txs, selection, v + 1)|
  }

  lemma SmallestFee(fees: seq<nat>, v: nat)
    requires NonDecreasing(fees)
    ensures fees != [] && fees[0] == v <==> CountBelow(fees, v) == 0 < CountBelow(fees, v + 1)
  {
    if fees != [] {
      CountBelowSorted(fees, v, 0);
      CountBelowSorted(fees, v + 1, 0);
    }
  }

  /** What is looked up in the sorted prices of a selection is its level. */
  lemma LevelIff(fees: seq<nat>, txs: seq<GeyserTransaction>, selection: Selection, percentile: Option<nat>, v: nat)
    requires Prices(fees, txs, selection)
    ensures GetWithPercentile(Sort(fees), percentile) == Some(v) <==> IsLevel(txs, selection, percentile, v)
  {
    CountBelowSort(fees, v);
    CountBelowSort(fees, v + 1);
    match percentile
    case None => SmallestFee(Sort(fees), v);
    case Some(p) =>
      PercentileEnds(Sort(fees), p);
      if fees != [] {
        PercentileIsShare(Sort(fees), if p <= 9_999 then p else 9_999, v);
      }
  }

  // ----- getRecentPrioritizationFees --------------------------------------------------------

  /** The slot as a whole, or one of the requested accounts. */
  ghost predicate Asked(keys: seq<Pubkey>, who: Option<Pubkey>) {
    who.Some? ==> who.value in keys
  }

  /** The fee of a slot is the largest of the levels of the slot and of the requested accounts that it writes; 0 if
      there is none. */
  ghost predicate IsFee(txs: seq<GeyserTransaction>, keys: seq<Pubkey>, percentile: Option<nat>, fee: nat) {
    && (forall who, v: nat :: Asked(keys, who) && IsLevel(txs, Paying(who), percentile, v) ==> v <= fee)
    && ((exists who :: Asked(keys, who) && IsLevel(txs, Paying(who), percentile, fee))
        || (fee == 0 && forall who, v: nat :: Asked(keys, who) ==> !IsLevel(txs, Paying(who), percentile, v)))
  }

  function LevelOf(txs: seq<GeyserTransaction>, who: Option<Pubkey>, percentile: Option<nat>): Option<nat> {
    GetWithPercentile(Sort(Collected(txs, who)), percentile)
  }

  lemma PayingLevel(txs: seq<GeyserTransaction>, who: Option<Pubkey>, percentile: Option<nat>, v: nat)
    requires AllSorted(txs)
    ensures LevelOf(txs, who, percentile) == Some(v) <==> IsLevel(txs, Paying(who), percentile, v)
  {
    CollectedPrices(txs, who);
    LevelIff(Collected(txs, who), txs, Paying(who), percentile, v);
  }

  lemma FeeBounds(txs: seq<GeyserTransaction>, keys: seq<Pubkey>, percentile: Option<nat>)
    ensures var fee := FeeOver(FeeIndexOf(txs), keys, percentile);
            && (forall who :: Asked(keys, who) ==> OrZero(LevelOf(txs, who, percentile)) <= fee)
            && exists who :: Asked(keys, who) && OrZero(LevelOf(txs, who, percentile)) == fee
  {
    var index := FeeIndexOf(txs);
    var fee := FeeOver(index, keys, percentile);
    forall k ensures Lookup(index.accountFees, k) == Sort(Collected(txs, Some(k))) {
      LookupCollects(txs, k);
    }
    FeeOverIsMax(index, keys, percentile);
    forall who | Asked(keys, who) ensures OrZero(LevelOf(txs, who, percentile)) <= fee {
      if who.Some? {
        assert OrZero(GetWithPercentile(Lookup(index.accountFees, who.value), percentile)) <= fee;
      }
    }
    if fee == OrZero(GetWithPercentile(index.transactionFees, percentile)) {
      assert OrZero(LevelOf(txs, None, percentile)) == fee;
    } else {
      var k :| k in keys && fee == OrZero(GetWithPercentile(Lookup(index.accountFees, k), percentile));
      assert Asked(keys, Some(k)) && OrZero(LevelOf(txs, Some(k), percentile)) == fee;
    }
  }

  lemma AskedLevelBounded(txs: seq<GeyserTransaction>, keys: seq<Pubkey>, percentile: Option<nat>,
                          who: Option<Pubkey>, v: nat)
    requires AllSorted(txs) && Asked(keys, who) && IsLevel(txs, Paying(who), percentile, v)
    ensures v <= FeeOver(FeeIndexOf(txs), keys, percentile)
  {
    PayingLevel(txs, who, percentile, v);
    FeeBounds(txs, keys, percentile);
    assert OrZero(LevelOf(txs, who, percentile)) == v;
  }

  /** The index of a slot's transactions answers that fee. */
  lemma FeeOverExact(txs: seq<GeyserTransaction>, keys: seq<Pubkey>, percentile: Option<nat>)
    requires AllSorted(txs)
    ensures IsFee(txs, keys, percentile, FeeOver(FeeIndexOf(txs), keys, percentile))
  {
    var fee := FeeOver(FeeIndexOf(txs), keys, percentile);
    forall who, v: nat | Asked(keys, who) && IsLevel(txs, Paying(who), percentile, v) ensures v <= fee {
      AskedLevelBounded(txs, keys, percentile, who, v);
    }
    FeeBounds(txs, keys, percentile);
    var best :| Asked(keys, best) && OrZero(LevelOf(txs, best, percentile)) == fee;
    PayingLevel(txs, best, percentile, fee);
    if LevelOf(txs, best, percentile).None? {
      assert fee == 0;
      if who, v: nat :| Asked(keys, who) && IsLevel(txs, Paying(who), percentile, v) {
        assert v == 0;
      }
    }
  }

  // ----- The scan ---------------------------------------------------------------------------

  /** The levels of the scan, one for each asked percentile. */
  lemma ScanLevels(txs: seq<GeyserTransaction>, filter: SlotFilter, j: nat, v: nat)
    requires AllSorted(txs) && j < |filter.levels|
    ensures var levels := Levels(Filtered(txs, filter), filter.levels);
            && |levels| == |filter.levels|
            && (levels[j] == Some(v) <==> IsLevel(txs, Passing(filter), Some(filter.levels[j]), v))
  {
    FilteredPrices(txs, filter);
    LevelIff(Filtered(txs, filter), txs, Passing(filter), Some(filter.levels[j]), v);
  }

  /** Over the selected transactions, the sum of the unit prices. */
  ghost function TotalPrice(txs: seq<GeyserTransaction>, filter: SlotFilter): nat {
    if txs == [] then 0
    else
      var n := |txs| - 1;
      TotalPrice(txs[..n], filter) + if Selects(Passing(filter), txs[n]) then txs[n].unitPrice else 0
  }

  lemma {:induction false} SumIsTotal(txs: seq<GeyserTransaction>, filter: SlotFilter)
    requires AllSorted(txs)
    ensures Sum(Filtered(txs, filter)) == TotalPrice(txs, filter)
  {
    if txs != [] {
      var n := |txs| - 1;
      SumIsTotal(txs[..n], filter);
      AcceptsIff(filter, txs[n]);
      var fees := Filtered(txs[..n], filter);
      assert (fees + [txs[n].unitPrice])[..|fees|] == fees && fees + [] == fees;
    }
  }

  lemma Quotient(sum: real, n: real)
    requires n != 0.0
    ensures sum / n * n == sum
  {
  }

  /** The average of so many fees of this total, 0 of none. */
  ghost predicate IsAverage(average: real, count: nat, total: nat) {
    if count == 0 then average == 0.0 else average * count as real == total as real
  }

  lemma AverageTimes(fees: seq<nat>)
    ensures IsAverage(Average(fees), |fees|, Sum(fees))
  {
    if fees != [] {
      Quotient(Sum(fees) as real, |fees| as real);
    }
  }

  /** The scan counts the accepted transactions and averages their prices. */
  lemma ScanAverage(txs: seq<GeyserTransaction>, filter: SlotFilter)
    requires AllSorted(txs)
    ensures |Filtered(txs, filter)| == |Chosen(txs, Passing(filter))|
    ensures IsAverage(Average(Filtered(txs, filter)), |Chosen(txs, Passing(filter))|, TotalPrice(txs, filter))
  {
    FilteredPrices(txs, filter);
    SumIsTotal(txs, filter);
    AverageTimes(Filtered(txs, filter));
  }
}
