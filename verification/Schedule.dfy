/** Leader schedules by epoch (`schedule.rs`): inverting a schedule, and fetching each epoch once. */
module Schedule {
  import opened Wrappers
  import opened Geyser
  import opened Collections

  const SLOTS_PER_EPOCH: nat := 432_000

  // Leader numbers are stored in 16 bits.
  const MAX_LEADERS: nat := 65_536

  type Epoch = nat

  /** `EpochSchedule::custom(432_000, 432_000, false)`: epochs without warm-up. */
  function EpochOf(slot: Slot): (epoch: Epoch)
    ensures epoch * 432_000 <= slot < (epoch + 1) * 432_000
  {
    slot / SLOTS_PER_EPOCH
  }

  function SlotIndex(slot: Slot): (i: nat)
    ensures i < SLOTS_PER_EPOCH && slot == EpochOf(slot) * 432_000 + i
  {
    slot % SLOTS_PER_EPOCH
  }

  /** One entry of the RPC response in the iteration order of its `HashMap`; `None` is a key that does not
      parse. Distinct strings may parse to one key. */
  datatype Entry = Entry(leader: Option<Pubkey>, slots: seq<nat>)

  /** `IndexPanic`: a slot index outside the epoch, on which indexing panics. */
  datatype ScheduleError = BadKey | TooManyLeaders | IndexPanic

  datatype LeadersSchedule = LeadersSchedule(leaders: seq<Pubkey>, indices: seq<nat>)

  /** `LeadersSchedule::get_leader`; `None` for its errors. */
  function LeaderAt(schedule: LeadersSchedule, index: nat): Option<Pubkey> {
    if index < |schedule.indices| && schedule.indices[index] < |schedule.leaders|
    then Some(schedule.leaders[schedule.indices[index]])
    else None
  }

  /** The leader of the last entry that lists the index; slots that nobody lists go to the first entry. */
  function Lister(entries: seq<Entry>, index: nat): Option<Pubkey> {
    if entries == [] then None
    else
      var last := entries[|entries| - 1];
      if index in last.slots || |entries| == 1 then last.leader
      else Lister(entries[..|entries| - 1], index)
  }

  function LeaderSet(entries: seq<Entry>): set<Option<Pubkey>> {
    set i | 0 <= i < |entries| :: entries[i].leader
  }

  ghost predicate InEpoch(slots: seq<nat>) {
    forall s :: s in slots ==> s < SLOTS_PER_EPOCH
  }

  ghost predicate WellFormed(entries: seq<Entry>) {
    forall i :: 0 <= i < |entries| ==> entries[i].leader.Some? && InEpoch(entries[i].slots)
  }

  function Wrapped(leaders: seq<Pubkey>): set<Option<Pubkey>> {
    set key | key in leaders :: Some(key)
  }

  /** The loop state of `new` after some entries: numbers and leaders are inverse to each other. */
  ghost predicate Numbered(leaders: seq<Pubkey>, numbers: map<Pubkey, nat>) {
    && (forall n :: 0 <= n < |leaders| ==> leaders[n] in numbers && numbers[leaders[n]] == n)
    && (forall key :: key in numbers ==> numbers[key] < |leaders| && leaders[numbers[key]] == key)
  }

  ghost predicate Assigned(leaders: seq<Pubkey>, indices: seq<nat>, entries: seq<Entry>) {
    && |indices| == SLOTS_PER_EPOCH
    && |leaders| <= MAX_LEADERS
    && Wrapped(leaders) == LeaderSet(entries)
    && (entries == [] ==> leaders == [] && forall i :: 0 <= i < |indices| ==> indices[i] == 0)
    && (entries != [] ==> forall i :: 0 <= i < |indices| ==>
          indices[i] < |leaders| && Lister(entries, i) == Some(leaders[indices[i]]))
  }

  lemma LeaderSetStep(entries: seq<Entry>, entry: Entry)
    ensures LeaderSet(entries + [entry]) == LeaderSet(entries) + {entry.leader}
  {
    var longer := entries + [entry];
    assert forall i :: 0 <= i < |entries| ==> longer[i] == entries[i];
    assert longer[|entries|] == entry;
  }

  lemma ListerStep(entries: seq<Entry>, entry: Entry, index: nat)
    ensures Lister(entries + [entry], index)
            == if index in entry.slots || entries == [] then entry.leader else Lister(entries, index)
  {
    assert (entries + [entry])[..|entries|] == entries;
  }

  lemma WrappedStep(leaders: seq<Pubkey>, leader: Pubkey)
    ensures Wrapped(leaders + [leader]) == Wrapped(leaders) + {Some(leader)}
    ensures leader !in leaders ==> Some(leader) !in Wrapped(leaders)
  {
    assert forall key :: key in leaders + [leader] <==> key in leaders || key == leader;
  }

  lemma {:induction false} WrappedSize(leaders: seq<Pubkey>)
    requires Distinct(leaders)
    ensures |Wrapped(leaders)| == |leaders|
  {
    if leaders == [] {
      assert Wrapped(leaders) == {};
    } else {
      var n := |leaders| - 1;
      assert leaders == leaders[..n] + [leaders[n]];
      WrappedSize(leaders[..n]);
      WrappedStep(leaders[..n], leaders[n]);
    }
  }

  lemma AssignedStep(leaders: seq<Pubkey>, indices: seq<nat>, entries: seq<Entry>,
                     entry: Entry, leaders': seq<Pubkey>, number: nat, indices': seq<nat>)
    requires Assigned(leaders, indices, entries)
    requires number < |leaders'| <= MAX_LEADERS && entry.leader == Some(leaders'[number])
    requires leaders' == leaders || (leaders' == leaders + [leaders'[number]] && number == |leaders|)
    requires |indices'| == |indices|
    requires forall i :: 0 <= i < |indices| ==> indices'[i] == if i in entry.slots then number else indices[i]
    ensures Assigned(leaders', indices', entries + [entry])
  {
    LeaderSetStep(entries, entry);
    WrappedStep(leaders, leaders'[number]);
    assert Wrapped(leaders') == Wrapped(leaders) + {entry.leader};
    forall i | 0 <= i < |indices'|
      ensures indices'[i] < |leaders'| && Lister(entries + [entry], i) == Some(leaders'[indices'[i]])
    {
      ListerStep(entries, entry, i);
    }
  }

  /** Why an entry cannot be added to a schedule with these leaders: its key is read before it is numbered,
      and its indices come last. */
  ghost function EntryFailure(leaders: set<Option<Pubkey>>, entry: Entry): Option<ScheduleError> {
    if entry.leader.None? then Some(BadKey)
    else if entry.leader !in leaders && |leaders| >= MAX_LEADERS then Some(TooManyLeaders)
    else if !InEpoch(entry.slots) then Some(IndexPanic)
    else None
  }

  /** The failure of the first entry that fails. */
  ghost function BuildFailure(entries: seq<Entry>): Option<ScheduleError> {
    if entries == [] then None
    else
      var earlier := entries[..|entries| - 1];
      if BuildFailure(earlier).Some? then BuildFailure(earlier)
      else EntryFailure(LeaderSet(earlier), entries[|entries| - 1])
  }

  lemma BuildFailureStep(entries: seq<Entry>, j: nat)
    requires j < |entries|
    ensures BuildFailure(entries[..j + 1])
            == if BuildFailure(entries[..j]).Some? then BuildFailure(entries[..j])
               else EntryFailure(LeaderSet(entries[..j]), entries[j])
  {
    assert entries[..j + 1][..j] == entries[..j];
  }

  lemma {:induction false} FailurePersists(entries: seq<Entry>, j: nat)
    requires j <= |entries| && BuildFailure(entries[..j]).Some?
    ensures BuildFailure(entries) == BuildFailure(entries[..j])
    decreases |entries| - j
  {
    if j == |entries| {
      assert entries[..j] == entries;
    } else {
      BuildFailureStep(entries, j);
      FailurePersists(entries, j + 1);
    }
  }

  /** Nothing fails exactly when all keys parse, all indices are in range and there are not too many leaders. */
  lemma {:induction false} BuildableIff(entries: seq<Entry>)
    ensures BuildFailure(entries).None? <==> WellFormed(entries) && |LeaderSet(entries)| <= MAX_LEADERS
  {
    if entries == [] {
      assert LeaderSet(entries) == {};
    } else {
      var n := |entries| - 1;
      assert entries == entries[..n] + [entries[n]];
      BuildableIff(entries[..n]);
      LeaderSetStep(entries[..n], entries[n]);
      SubsetSize(LeaderSet(entries[..n]), LeaderSet(entries));
      assert WellFormed(entries)
        <==> WellFormed(entries[..n]) && entries[n].leader.Some? && InEpoch(entries[n].slots);
    }
  }

  /** Entry `j` is the first that cannot be added, for this reason. A bad key counts before too many leaders, and
      both before an index outside the epoch. */
  ghost predicate FailsFirst(entries: seq<Entry>, j: nat, error: ScheduleError) {
    && j < |entries|
    && WellFormed(entries[..j]) && |LeaderSet(entries[..j])| <= 65_536
    && var known := entries[j].leader in LeaderSet(entries[..j]) || |LeaderSet(entries[..j])| < 65_536;
       match error
       case BadKey => entries[j].leader == None
       case TooManyLeaders => entries[j].leader != None && !known
       case IndexPanic => entries[j].leader != None && known && exists s :: s in entries[j].slots && s >= 432_000
  }

  lemma {:induction false} FailureIff(entries: seq<Entry>, error: ScheduleError)
    ensures BuildFailure(entries) == Some(error) <==> exists j :: FailsFirst(entries, j, error)
  {
    if entries == [] {
    } else {
      var n := |entries| - 1;
      assert forall j :: 0 <= j <= n ==> entries[..n][..j] == entries[..j];
      FailureIff(entries[..n], error);
      BuildableIff(entries[..n]);
      assert forall j: nat :: j < n ==> (FailsFirst(entries, j, error) <==> FailsFirst(entries[..n], j, error));
      if j: nat :| FailsFirst(entries[..n], j, error) {
        assert FailsFirst(entries, j, error);
      }
      LastFailure(entries, error);
    }
  }

  lemma LastFailure(entries: seq<Entry>, error: ScheduleError)
    requires entries != []
    ensures var n := |entries| - 1;
            FailsFirst(entries, n, error)
            <==> BuildFailure(entries[..n]).None? && EntryFailure(LeaderSet(entries[..n]), entries[n]) == Some(error)
  {
    BuildableIff(entries[..|entries| - 1]);
  }

  lemma NumberedFailure(leaders: seq<Pubkey>, numbers: map<Pubkey, nat>, entry: Entry)
    requires Numbered(leaders, numbers)
    ensures EntryFailure(Wrapped(leaders), entry)
            == if entry.leader.None? then Some(BadKey)
               else if entry.leader.value !in numbers && |leaders| >= MAX_LEADERS then Some(TooManyLeaders)
               else if !InEpoch(entry.slots) then Some(IndexPanic)
               else None
  {
    NumberedCount(leaders, numbers);
    if entry.leader.Some? {
      assert entry.leader == Some(entry.leader.value);
    }
  }

  /** What the loop of `new` sees at an entry decides its failure, and the first failure is that of all. */
  lemma EntryStep(entries: seq<Entry>, j: nat, leaders: seq<Pubkey>, numbers: map<Pubkey, nat>)
    requires j < |entries| && Numbered(leaders, numbers) && Wrapped(leaders) == LeaderSet(entries[..j])
    requires BuildFailure(entries[..j]).None?
    ensures BuildFailure(entries[..j + 1])
            == if entries[j].leader.None? then Some(BadKey)
               else if entries[j].leader.value !in numbers && |leaders| >= MAX_LEADERS then Some(TooManyLeaders)
               else if !InEpoch(entries[j].slots) then Some(IndexPanic)
               else None
    ensures BuildFailure(entries[..j + 1]).Some? ==> BuildFailure(entries) == BuildFailure(entries[..j + 1])
  {
    NumberedFailure(leaders, numbers, entries[j]);
    BuildFailureStep(entries, j);
    if BuildFailure(entries[..j + 1]).Some? {
      FailurePersists(entries, j + 1);
    }
  }

  /** `LeadersSchedule::new`. */
  method New(entries: seq<Entry>) returns (r: Result<LeadersSchedule, ScheduleError>)
    ensures BuildFailure(entries) == if r.Ok? then None else Some(r.error)
    ensures r.Ok? <==> WellFormed(entries) && |LeaderSet(entries)| <= 65_536
    ensures r.Ok? ==> forall i :: 0 <= i < 432_000 ==> LeaderAt(r.value, i) == Lister(entries, i)
  {
    BuildableIff(entries);
    var numbers: map<Pubkey, nat> := map[];
    var leaders: seq<Pubkey> := [];
    var indices := new nat[SLOTS_PER_EPOCH](_ => 0);
    for j := 0 to |entries|
      invariant fresh(indices)
      invariant Numbered(leaders, numbers)
      invariant Assigned(leaders, indices[..], entries[..j])
      invariant BuildFailure(entries[..j]).None?
    {
      var entry := entries[j];
      assert entries[..j + 1] == entries[..j] + [entry];
      EntryStep(entries, j, leaders, numbers);
      if entry.leader.None? {
        return Err(BadKey);
      }
      var leader := entry.leader.value;
      ghost var before, leadersBefore := indices[..], leaders;
      var number: nat;
      if leader in numbers {
        number := numbers[leader];
      } else {
        number := |leaders|;
        if number >= MAX_LEADERS {
          return Err(TooManyLeaders);
        }
        leaders := leaders + [leader];
        numbers := numbers[leader := number];
      }
      var inRange := Assign(indices, entry.slots, number);
      if !inRange {
        return Err(IndexPanic);
      }
      AssignedStep(leadersBefore, before, entries[..j], entry, leaders, number, indices[..]);
    }
    assert entries[..|entries|] == entries;
    r := Ok(LeadersSchedule(leaders, indices[..]));
  }

  lemma NumberedCount(leaders: seq<Pubkey>, numbers: map<Pubkey, nat>)
    requires Numbered(leaders, numbers)
    ensures |Wrapped(leaders)| == |leaders|
    ensures forall key :: key in numbers <==> Some(key) in Wrapped(leaders)
  {
    WrappedSize(leaders);
  }

  /** The inner loop of `new`. */
  method Assign(indices: array<nat>, slots: seq<nat>, number: nat) returns (inRange: bool)
    modifies indices
    ensures inRange <==> forall s :: s in slots ==> s < indices.Length
    ensures inRange ==> forall i :: 0 <= i < indices.Length ==>
              indices[i] == if i in slots then number else old(indices[i])
  {
    for t := 0 to |slots|
      invariant forall s :: s in slots[..t] ==> s < indices.Length
      invariant forall i :: 0 <= i < indices.Length ==>
                  indices[i] == if i in slots[..t] then number else old(indices[i])
    {
      assert slots[..t + 1] == slots[..t] + [slots[t]];
      if slots[t] >= indices.Length {
        assert slots[t] in slots;
        return false;
      }
      indices[slots[t]] := number;
    }
    assert slots[..|slots|] == slots;
    inRange := true;
  }

  // ----- Inversion --------------------------------------------------------------------------

  ghost predicate Listed(entries: seq<Entry>, index: nat) {
    exists i :: 0 <= i < |entries| && index in entries[i].slots
  }

  /** Every index of the epoch is listed, by one leader only (perhaps in several entries). */
  ghost predicate Partitioned(entries: seq<Entry>) {
    && (forall s :: 0 <= s < SLOTS_PER_EPOCH ==> Listed(entries, s))
    && (forall i, j, s :: 0 <= i < |entries| && 0 <= j < |entries| && s in entries[i].slots && s in entries[j].slots
          ==> entries[i].leader == entries[j].leader)
  }

  lemma {:induction false} ListerLists(entries: seq<Entry>, index: nat)
    requires Listed(entries, index)
    ensures exists i :: 0 <= i < |entries| && index in entries[i].slots && entries[i].leader == Lister(entries, index)
  {
    var n := |entries| - 1;
    if index !in entries[n].slots {
      var i :| 0 <= i < |entries| && index in entries[i].slots;
      assert entries[..n][i] == entries[i];
      ListerLists(entries[..n], index);
      var j :| 0 <= j < n && index in entries[..n][j].slots && entries[..n][j].leader == Lister(entries[..n], index);
      assert entries[j] == entries[..n][j];
    }
  }

  lemma ListerUnique(entries: seq<Entry>, index: nat, i: nat)
    requires Partitioned(entries) && i < |entries| && index in entries[i].slots
    ensures Lister(entries, index) == entries[i].leader
  {
    ListerLists(entries, index);
  }

  /** Inversion: in a schedule built from a partition of the epoch, the lookup of any slot never fails and
      gives the leader that lists the slot's index. */
  lemma LookupInverts(entries: seq<Entry>, schedule: LeadersSchedule, slot: Slot, i: nat)
    requires WellFormed(entries) && Partitioned(entries)
    requires forall s :: 0 <= s < SLOTS_PER_EPOCH ==> LeaderAt(schedule, s) == Lister(entries, s)
    requires i < |entries| && SlotIndex(slot) in entries[i].slots
    ensures LeaderAt(schedule, SlotIndex(slot)).Some? && LeaderAt(schedule, SlotIndex(slot)) == entries[i].leader
  {
    ListerUnique(entries, SlotIndex(slot), i);
  }

  /** The iteration order of the response does not matter. */
  lemma OrderIrrelevant(entries: seq<Entry>, others: seq<Entry>, index: nat)
    requires Partitioned(entries) && index < SLOTS_PER_EPOCH
    requires forall e :: e in entries <==> e in others
    ensures Lister(entries, index) == Lister(others, index)
  {
    assert Listed(entries, index);
    var i :| 0 <= i < |entries| && index in entries[i].slots;
    ListerUnique(entries, index, i);
    assert entries[i] in others;
    var j :| 0 <= j < |others| && others[j] == entries[i];
    ListerLists(others, index);
    var k :| 0 <= k < |others| && index in others[k].slots && others[k].leader == Lister(others, index);
    assert others[k] in entries;
    var l :| 0 <= l < |entries| && entries[l] == others[k];
  }

  // ----- One fetch per epoch ----------------------------------------------------------------

  /** The cache of `SolanaSchedule` (`None` while a fetch is in progress), the running fetch tasks, and the
      epochs whose fetch task panicked. */
  datatype CacheState = CacheState(
    cache: map<Epoch, Option<LeadersSchedule>>,
    fetches: multiset<Epoch>,
    panicked: set<Epoch>)

  const EMPTY := CacheState(map[], multiset{}, {})

  /** What happens: a lookup, or the end of one of the spawned fetches. */
  datatype Event =
    | Lookup(slot: Slot)
    | FetchOk(epoch: Epoch, schedule: LeadersSchedule)
    | FetchFailed(epoch: Epoch)
    | FetchPanicked(epoch: Epoch)

  /** A fetch can only end if it is running. */
  predicate Enabled(st: CacheState, e: Event) {
    e.Lookup? || e.epoch in st.fetches
  }

  /** A panic unwinds the task before it can store a schedule or remove the entry. */
  function Next(st: CacheState, e: Event): CacheState {
    if !Enabled(st, e) then st
    else
      match e
      case Lookup(slot) =>
        var epoch := EpochOf(slot);
        if epoch in st.cache then st
        else st.(cache := st.cache[epoch := None], fetches := st.fetches + multiset{epoch})
      case FetchOk(epoch, schedule) =>
        st.(cache := st.cache[epoch := Some(schedule)], fetches := st.fetches - multiset{epoch})
      case FetchFailed(epoch) =>
        st.(cache := st.cache - {epoch}, fetches := st.fetches - multiset{epoch})
      case FetchPanicked(epoch) =>
        st.(fetches := st.fetches - multiset{epoch}, panicked := st.panicked + {epoch})
  }

  function Run(events: seq<Event>): CacheState {
    if events == [] then EMPTY else Next(Run(events[..|events| - 1]), events[|events| - 1])
  }

  ghost predicate Stored(st: CacheState, epoch: Epoch) {
    epoch in st.cache && st.cache[epoch].Some?
  }

  ghost predicate InProgress(st: CacheState, epoch: Epoch) {
    epoch in st.cache && st.cache[epoch].None?
  }

  /** An epoch in progress has exactly one running fetch, unless its fetch panicked: then it has none. */
  ghost predicate SingleFlight(st: CacheState) {
    forall epoch ::
      && st.fetches[epoch] == (if InProgress(st, epoch) && epoch !in st.panicked then 1 else 0)
      && (epoch in st.panicked ==> InProgress(st, epoch))
  }

  lemma SingleFlightStep(st: CacheState, e: Event)
    requires SingleFlight(st)
    ensures SingleFlight(Next(st, e))
    ensures forall epoch :: Stored(st, epoch) ==>
              Stored(Next(st, e), epoch) && Next(st, e).cache[epoch] == st.cache[epoch]
  {
  }

  /** Over every interleaving of lookups and fetch ends. */
  lemma {:induction false} SingleFlightAlways(events: seq<Event>)
    ensures SingleFlight(Run(events))
  {
    if events != [] {
      SingleFlightAlways(events[..|events| - 1]);
      SingleFlightStep(Run(events[..|events| - 1]), events[|events| - 1]);
    }
  }

  /** Event `i` is the panic of a running fetch of the epoch. */
  ghost predicate PanicsAt(events: seq<Event>, i: nat, epoch: Epoch) {
    i < |events| && events[i] == FetchPanicked(epoch) && epoch in Run(events[..i]).fetches
  }

  ghost predicate HasPanicked(events: seq<Event>, epoch: Epoch) {
    exists i :: PanicsAt(events, i, epoch)
  }

  lemma PanicsStep(events: seq<Event>, e: Event, i: nat, epoch: Epoch)
    ensures PanicsAt(events + [e], i, epoch)
            <==> if i == |events| then e == FetchPanicked(epoch) && epoch in Run(events).fetches
                 else PanicsAt(events, i, epoch)
  {
    if i <= |events| {
      assert (events + [e])[..i] == events[..i];
      assert events[..|events|] == events;
    }
  }

  lemma {:induction false} PanickedIff(events: seq<Event>, epoch: Epoch)
    ensures epoch in Run(events).panicked <==> HasPanicked(events, epoch)
  {
    if events == [] {
    } else {
      var earlier, e := events[..|events| - 1], events[|events| - 1];
      assert events == earlier + [e];
      PanickedIff(earlier, epoch);
      forall i: nat
        ensures PanicsAt(events, i, epoch)
                <==> if i == |earlier| then e == FetchPanicked(epoch) && epoch in Run(earlier).fetches
                     else PanicsAt(earlier, i, epoch)
      {
        PanicsStep(earlier, e, i, epoch);
      }
      assert !PanicsAt(earlier, |earlier|, epoch);
    }
  }

  /** Over every interleaving, an epoch is in progress without a running fetch exactly when its fetch
      panicked, and then no lookup ever fetches it again. */
  lemma StuckIff(events: seq<Event>, epoch: Epoch)
    ensures InProgress(Run(events), epoch) && Run(events).fetches[epoch] == 0 <==> HasPanicked(events, epoch)
  {
    SingleFlightAlways(events);
    PanickedIff(events, epoch);
  }

  lemma StuckForever(events: seq<Event>, later: seq<Event>, epoch: Epoch)
    requires HasPanicked(events, epoch)
    ensures InProgress(Run(events + later), epoch) && Run(events + later).fetches[epoch] == 0
  {
    var i: nat :| PanicsAt(events, i, epoch);
    assert (events + later)[..i] == events[..i];
    assert PanicsAt(events + later, i, epoch);
    StuckIff(events + later, epoch);
  }

  /** It can happen: a response with an index one past the epoch makes building panic, and a lookup whose fetch
      gets it leaves its epoch stuck. */
  lemma StuckExample(key: Pubkey, slot: Slot)
    ensures BuildFailure([Entry(Some(key), [SLOTS_PER_EPOCH])]) == Some(IndexPanic)
    ensures HasPanicked([Lookup(slot), FetchPanicked(EpochOf(slot))], EpochOf(slot))
  {
    var entry := Entry(Some(key), [SLOTS_PER_EPOCH]);
    assert SLOTS_PER_EPOCH in entry.slots;
    assert [entry][..0] == [] && LeaderSet([]) == {};
    var events := [Lookup(slot), FetchPanicked(EpochOf(slot))];
    assert events[..1] == [Lookup(slot)] && [Lookup(slot)][..0] == [];
    assert PanicsAt(events, 1, EpochOf(slot));
  }

  /** Once stored, a schedule is never removed, replaced or fetched again. */
  lemma {:induction false} StoredForever(events: seq<Event>, i: nat, epoch: Epoch)
    requires i <= |events| && Stored(Run(events[..i]), epoch)
    ensures Stored(Run(events), epoch) && Run(events).cache[epoch] == Run(events[..i]).cache[epoch]
    ensures Run(events).fetches[epoch] == 0
  {
    SingleFlightAlways(events);
    if i == |events| {
      assert events[..i] == events;
    } else {
      var earlier := events[..|events| - 1];
      assert earlier[..i] == events[..i];
      StoredForever(earlier, i, epoch);
      SingleFlightAlways(earlier);
      SingleFlightStep(Run(earlier), events[|events| - 1]);
    }
  }

  /** Event `i` is the successful end of a running fetch of the epoch, with this schedule. */
  ghost predicate FetchedAt(events: seq<Event>, i: nat, epoch: Epoch, schedule: LeadersSchedule) {
    i < |events| && events[i] == FetchOk(epoch, schedule) && epoch in Run(events[..i]).fetches
  }

  lemma FetchedStep(events: seq<Event>, e: Event, i: nat, epoch: Epoch, schedule: LeadersSchedule)
    ensures FetchedAt(events + [e], i, epoch, schedule)
            <==> if i == |events| then e == FetchOk(epoch, schedule) && epoch in Run(events).fetches
                 else FetchedAt(events, i, epoch, schedule)
  {
    if i <= |events| {
      assert (events + [e])[..i] == events[..i];
      assert events[..|events|] == events;
    }
  }

  /** What one event does to an epoch. */
  lemma EpochStep(st: CacheState, e: Event, epoch: Epoch)
    requires SingleFlight(st)
    ensures var next := Next(st, e);
            match e
            case Lookup(slot) =>
              if EpochOf(slot) == epoch && epoch !in st.cache then InProgress(next, epoch)
              else epoch in next.cache <==> epoch in st.cache
            case FetchFailed(other) =>
              epoch in next.cache <==> epoch in st.cache && !(other == epoch && epoch in st.fetches)
            case _ => epoch in next.cache <==> epoch in st.cache
    ensures forall schedule ::
              (epoch in Next(st, e).cache && Next(st, e).cache[epoch] == Some(schedule))
              <==> || (epoch in st.cache && st.cache[epoch] == Some(schedule))
                   || (e == FetchOk(epoch, schedule) && epoch in st.fetches)
  {
  }

  /** Over every interleaving: an epoch holds a schedule exactly when a running fetch of it ended with that
      schedule. */
  lemma {:induction false} StoredIff(events: seq<Event>, epoch: Epoch, schedule: LeadersSchedule)
    ensures epoch in Run(events).cache && Run(events).cache[epoch] == Some(schedule)
            <==> exists i: nat :: FetchedAt(events, i, epoch, schedule)
  {
    if events == [] {
    } else {
      var earlier, e := events[..|events| - 1], events[|events| - 1];
      assert events == earlier + [e];
      StoredIff(earlier, epoch, schedule);
      SingleFlightAlways(earlier);
      EpochStep(Run(earlier), e, epoch);
      forall i: nat
        ensures FetchedAt(events, i, epoch, schedule)
                <==> if i == |earlier| then e == FetchOk(epoch, schedule) && epoch in Run(earlier).fetches
                     else FetchedAt(earlier, i, epoch, schedule)
      {
        FetchedStep(earlier, e, i, epoch, schedule);
      }
      assert !FetchedAt(earlier, |earlier|, epoch, schedule);
    }
  }

  /** After a failed fetch the epoch is unknown again, and its next lookup runs one fetch. */
  lemma FailureForgets(events: seq<Event>, slot: Slot)
    requires EpochOf(slot) in Run(events).fetches
    ensures var failed := events + [FetchFailed(EpochOf(slot))];
            && EpochOf(slot) !in Run(failed).cache && EpochOf(slot) !in Run(failed).fetches
            && InProgress(Run(failed + [Lookup(slot)]), EpochOf(slot))
            && Run(failed + [Lookup(slot)]).fetches[EpochOf(slot)] == 1
  {
    var epoch := EpochOf(slot);
    var failed := events + [FetchFailed(epoch)];
    assert failed[..|events|] == events;
    assert (failed + [Lookup(slot)])[..|failed|] == failed;
    SingleFlightAlways(events);
    SingleFlightAlways(failed);
    SingleFlightAlways(failed + [Lookup(slot)]);
    EpochStep(Run(events), FetchFailed(epoch), epoch);
    EpochStep(Run(failed), Lookup(slot), epoch);
  }

  class SolanaSchedule {
    var scheduleByEpoch: map<Epoch, Option<LeadersSchedule>>
    ghost var fetches: multiset<Epoch>
    ghost var panicked: set<Epoch>

    ghost function Abs(): CacheState
      reads this
    {
      CacheState(scheduleByEpoch, fetches, panicked)
    }

    constructor ()
      ensures Abs() == Run([])
    {
      scheduleByEpoch := map[];
      fetches, panicked := multiset{}, {};
    }

    /** `get_leader`; `fetch` tells whether a fetch task is spawned. */
    method GetLeader(slot: Slot) returns (leader: Option<Pubkey>, fetch: bool)
      requires SingleFlight(Abs())
      modifies this
      ensures SingleFlight(Abs()) && Abs() == Next(old(Abs()), Lookup(slot))
      ensures fetch <==> EpochOf(slot) !in old(scheduleByEpoch)
      ensures fetch ==> old(fetches)[EpochOf(slot)] == 0 && fetches[EpochOf(slot)] == 1
      ensures leader == if Stored(old(Abs()), EpochOf(slot))
                        then LeaderAt(old(scheduleByEpoch)[EpochOf(slot)].value, SlotIndex(slot)) else None
    {
      SingleFlightStep(Abs(), Lookup(slot));
      var epoch, index := EpochOf(slot), SlotIndex(slot);
      fetch := epoch !in scheduleByEpoch;
      if fetch {
        scheduleByEpoch := scheduleByEpoch[epoch := None];
        fetches := fetches + multiset{epoch};
        leader := None;
      } else if scheduleByEpoch[epoch].Some? {
        leader := LeaderAt(scheduleByEpoch[epoch].value, index);
      } else {
        leader := None;
      }
    }

    /** The end of a spawned task: `update_leader_schedule` stores the fetched schedule, an error in the fetch
        or in building the schedule removes the in-progress entry, and a panic leaves it as it is. */
    method FinishFetch(epoch: Epoch, response: Option<seq<Entry>>) returns (ghost end: Event)
      requires SingleFlight(Abs()) && epoch in fetches
      modifies this
      ensures SingleFlight(Abs()) && !end.Lookup? && end.epoch == epoch && Abs() == Next(old(Abs()), end)
      ensures end.FetchOk? <==>
                response.Some? && WellFormed(response.value) && |LeaderSet(response.value)| <= MAX_LEADERS
      ensures end.FetchFailed? ==> epoch !in scheduleByEpoch
      ensures end.FetchPanicked? ==> InProgress(Abs(), epoch)
      ensures forall e :: e != epoch ==>
                && (e in scheduleByEpoch <==> e in old(scheduleByEpoch))
                && (e in scheduleByEpoch ==> scheduleByEpoch[e] == old(scheduleByEpoch)[e])
      ensures end.FetchPanicked? <==> response.Some? && BuildFailure(response.value) == Some(IndexPanic)
      ensures end.FetchOk? ==>
                && Stored(Abs(), epoch)
                && forall s :: 0 <= s < SLOTS_PER_EPOCH ==>
                     LeaderAt(scheduleByEpoch[epoch].value, s) == Lister(response.value, s)
    {
      var built: Result<LeadersSchedule, ScheduleError> := Err(BadKey);
      if response.Some? {
        built := New(response.value);
      }
      if built.Ok? {
        end := FetchOk(epoch, built.value);
        scheduleByEpoch := scheduleByEpoch[epoch := Some(built.value)];
      } else if built.error == IndexPanic {
        end := FetchPanicked(epoch);
        panicked := panicked + {epoch};
      } else {
        end := FetchFailed(epoch);
        scheduleByEpoch := scheduleByEpoch - {epoch};
      }
      SingleFlightStep(old(Abs()), end);
      fetches := fetches - multiset{epoch};
    }
  }
}
