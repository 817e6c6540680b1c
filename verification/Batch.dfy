/** Batched JSON-RPC calls (`SolanaRpc::on_request` in `rpc_solana.rs`): calls are answered at once or
    queued for the update loop, and the queued answers are put back into the open places. */
module Batch {
  import opened Wrappers
  import opened Geyser
  import opened Storage
  import opened Fees
  import opened Window
  import opened UpdateLoop
  import opened Answers

  datatype Mode = Solana | Triton | Solfees | SolfeesFrontend

  /** The outcomes of reading a call's parameters in each of the shapes that a method may ask for, endpoint by
      endpoint; `None` where they do not have that shape or are out of bounds. */
  datatype Params = Params(
    context: Option<ContextParams>,
    blockhash: Option<BlockhashParams>,
    pubkeys: Option<seq<Pubkey>>,
    fees: Option<FeesParams>,
    filter: Option<SlotFilter>,
    empty: bool)

  datatype ContextParams = ContextParams(commitment: Option<CommitmentLevel>, minContextSlot: Option<Slot>)
  datatype BlockhashParams = BlockhashParams(context: ContextParams, rollback: nat)
  datatype FeesParams = FeesParams(pubkeys: seq<Pubkey>, percentile: Option<nat>)

  datatype Call =
    | MethodCall(head: Head, name: string, params: Params)
    | Notification(version: Option<JsonrpcVersion>)
    | InvalidCall(id: Id)

  /** A call is either answered on the spot or becomes a request to the update loop. */
  datatype Dispatched = Immediate(output: Output) | Queued(request: Request)

  const BAD_PARAMS := InvalidParams("invalid params")

  function CommitmentOr(commitment: Option<CommitmentLevel>): CommitmentLevel {
    if commitment.Some? then commitment.value else Finalized
  }

  /** `getLatestBlockhash`: Solana reads no rollback. */
  function BlockhashParamsOf(mode: Mode, params: Params): Option<BlockhashParams> {
    if mode != Solana then params.blockhash
    else if params.context.Some? then Some(BlockhashParams(params.context.value, 0))
    else None
  }

  /** `getRecentPrioritizationFees` of Solana and Triton: Solana reads no percentile. */
  function FeesParamsOf(mode: Mode, params: Params): Option<FeesParams> {
    if mode != Solana then params.fees
    else if params.pubkeys.Some? then Some(FeesParams(params.pubkeys.value, None))
    else None
  }

  function Dispatch(mode: Mode, call: Call): Dispatched {
    match call
    case Notification(version) => Immediate(Failure(Head(version, Null), InvalidRequest))
    case InvalidCall(id) => Immediate(Failure(Head(None, id), InvalidRequest))
    case MethodCall(head, name, params) =>
      if name == "getLatestBlockhash" && mode != SolfeesFrontend then
        match BlockhashParamsOf(mode, params)
        case Some(p) =>
          Queued(LatestBlockhash(head, CommitmentOr(p.context.commitment), p.rollback, p.context.minContextSlot))
        case None => Immediate(Failure(head, BAD_PARAMS))
      else if name == "getRecentPrioritizationFees" then
        if mode in {Solana, Triton} then
          match FeesParamsOf(mode, params)
          case Some(p) => Queued(RecentPrioritizationFees(head, p.pubkeys, p.percentile))
          case None => Immediate(Failure(head, BAD_PARAMS))
        else
          match params.filter
          case Some(filter) => Queued(SolfeesSlots(head, filter, mode == SolfeesFrontend))
          case None => Immediate(Failure(head, BAD_PARAMS))
      else if name == "getSlot" && mode != SolfeesFrontend then
        match params.context
        case Some(p) => Queued(GetSlot(head, CommitmentOr(p.commitment), p.minContextSlot))
        case None => Immediate(Failure(head, BAD_PARAMS))
      else if name == "getVersion" && mode != SolfeesFrontend then
        Immediate(if params.empty then Success(head, Version) else Failure(head, BAD_PARAMS))
      else Immediate(Failure(head, MethodNotFound))
  }

  /** The `jsonrpc` and `id` members that the answer to a call carries: an invalid call has no version left. */
  function CallHead(call: Call): Head {
    match call
    case MethodCall(head, _, _) => head
    case Notification(version) => Head(version, Null)
    case InvalidCall(id) => Head(None, id)
  }

  /** The answer to a call sent alone; `None` where the update loop fails on it. */
  function AnswerCall(mode: Mode, call: Call, st: State, window: SlotsInfo): Option<Output> {
    match Dispatch(mode, call)
    case Immediate(output) => Some(output)
    case Queued(request) => Answer(st, window, request)
  }

  // ----- What a call gets -------------------------------------------------------------------

  ghost predicate Refused(head: Head, answer: Option<Output>) {
    answer == Some(Failure(head, InvalidParams("invalid params")))
  }

  /** Without a commitment the finalized state is meant. */
  ghost predicate Meant(asked: Option<CommitmentLevel>, commitment: CommitmentLevel) {
    asked == Some(commitment) || (asked == None && commitment == Finalized)
  }

  /** The commitment and the slot asked for in the context, and the rollback asked for, decide the blockhash. */
  ghost predicate BlockhashGiven(log: seq<GeyserMessage>, head: Head, context: ContextParams, rollback: nat,
                                 answer: Option<Output>)
  {
    exists c: CommitmentLevel :: Meant(context.commitment, c)
                                 && BlockhashServed(Run(log), head, c, rollback, context.minContextSlot, answer)
  }

  ghost predicate SlotGiven(log: seq<GeyserMessage>, head: Head, context: ContextParams, answer: Option<Output>) {
    exists c: CommitmentLevel :: Meant(context.commitment, c)
                                 && SlotServed(Run(log), head, c, context.minContextSlot, answer)
  }

  /** Solana knows no rollback. */
  ghost predicate ServesBlockhash(mode: Mode, head: Head, params: Params, log: seq<GeyserMessage>,
                                  answer: Option<Output>)
  {
    if mode == Solana then
      if params.context.Some? then BlockhashGiven(log, head, params.context.value, 0, answer) else Refused(head, answer)
    else
      if params.blockhash.Some? then
        BlockhashGiven(log, head, params.blockhash.value.context, params.blockhash.value.rollback, answer)
      else Refused(head, answer)
  }

  ghost predicate ServesSlot(head: Head, params: Params, log: seq<GeyserMessage>, answer: Option<Output>) {
    if params.context.Some? then SlotGiven(log, head, params.context.value, answer) else Refused(head, answer)
  }

  /** Solana knows no percentile; the other endpoint filters. */
  ghost predicate ServesFees(mode: Mode, head: Head, params: Params, log: seq<GeyserMessage>, answer: Option<Output>) {
    match mode
    case Solana =>
      if params.pubkeys.Some? then FeesServed(log, head, params.pubkeys.value, None, answer) else Refused(head, answer)
    case Triton =>
      if params.fees.Some? then FeesServed(log, head, params.fees.value.pubkeys, params.fees.value.percentile, answer)
      else Refused(head, answer)
    case Solfees =>
      if params.filter.Some? then FilteredServed(log, head, params.filter.value, false, answer)
      else Refused(head, answer)
    case SolfeesFrontend =>
      if params.filter.Some? then FilteredServed(log, head, params.filter.value, true, answer)
      else Refused(head, answer)
  }

  /** What a call gets, by its method, from its parameters and the messages received so far. */
  ghost predicate Serves(mode: Mode, call: Call, log: seq<GeyserMessage>, answer: Option<Output>) {
    match call
    case Notification(version) => answer == Some(Failure(Head(version, Null), InvalidRequest))
    case InvalidCall(id) => answer == Some(Failure(Head(None, id), InvalidRequest))
    case MethodCall(head, name, params) =>
      if name == "getRecentPrioritizationFees" then ServesFees(mode, head, params, log, answer)
      else if mode == SolfeesFrontend then answer == Some(Failure(head, MethodNotFound))
      else if name == "getLatestBlockhash" then ServesBlockhash(mode, head, params, log, answer)
      else if name == "getSlot" then ServesSlot(head, params, log, answer)
      else if name == "getVersion" then
        if params.empty then answer == Some(Success(head, Version)) else Refused(head, answer)
      else answer == Some(Failure(head, MethodNotFound))
  }

  lemma MeantCommitment(asked: Option<CommitmentLevel>)
    ensures Meant(asked, CommitmentOr(asked))
  {
  }

  lemma BlockhashIsGiven(log: seq<GeyserMessage>, head: Head, context: ContextParams, rollback: nat)
    ensures BlockhashGiven(log, head, context, rollback,
                           AnswerBlockhash(Run(log), head, CommitmentOr(context.commitment), rollback,
                                           context.minContextSlot))
  {
    MeantCommitment(context.commitment);
    BlockhashExact(Run(log), head, CommitmentOr(context.commitment), rollback, context.minContextSlot);
  }

  lemma SlotIsGiven(log: seq<GeyserMessage>, head: Head, context: ContextParams)
    ensures SlotGiven(log, head, context,
                      Answer(Run(log), RunWindow(log),
                             GetSlot(head, CommitmentOr(context.commitment), context.minContextSlot)))
  {
    MeantCommitment(context.commitment);
    SlotAnsweredIff(Run(log), RunWindow(log), head, CommitmentOr(context.commitment), context.minContextSlot);
  }

  lemma BlockhashCallServed(mode: Mode, call: Call, log: seq<GeyserMessage>)
    requires call.MethodCall? && call.name == "getLatestBlockhash" && mode != SolfeesFrontend
    ensures ServesBlockhash(mode, call.head, call.params, log, AnswerCall(mode, call, Run(log), RunWindow(log)))
  {
    var params := call.params;
    if mode == Solana {
      if params.context.Some? { BlockhashIsGiven(log, call.head, params.context.value, 0); }
    } else if params.blockhash.Some? {
      BlockhashIsGiven(log, call.head, params.blockhash.value.context, params.blockhash.value.rollback);
    }
  }

  lemma FeesCallServed(mode: Mode, call: Call, log: seq<GeyserMessage>)
    requires call.MethodCall? && call.name == "getRecentPrioritizationFees"
    ensures ServesFees(mode, call.head, call.params, log, AnswerCall(mode, call, Run(log), RunWindow(log)))
  {
    var params := call.params;
    match mode
    case Solana => if params.pubkeys.Some? { FeesExact(log, call.head, params.pubkeys.value, None); }
    case Triton =>
      if params.fees.Some? { FeesExact(log, call.head, params.fees.value.pubkeys, params.fees.value.percentile); }
    case Solfees => if params.filter.Some? { FilteredExact(log, call.head, params.filter.value, false); }
    case SolfeesFrontend => if params.filter.Some? { FilteredExact(log, call.head, params.filter.value, true); }
  }

  /** Every call, on every endpoint, after any messages. */
  lemma CallServed(mode: Mode, call: Call, log: seq<GeyserMessage>)
    ensures Serves(mode, call, log, AnswerCall(mode, call, Run(log), RunWindow(log)))
  {
    if call.MethodCall? {
      if call.name == "getRecentPrioritizationFees" {
        FeesCallServed(mode, call, log);
      } else if call.name == "getLatestBlockhash" && mode != SolfeesFrontend {
        BlockhashCallServed(mode, call, log);
      } else if call.name == "getSlot" && call.params.context.Some? {
        SlotIsGiven(log, call.head, call.params.context.value);
      }
    }
  }

  datatype Body = Single(output: Output) | Outputs(outputs: seq<Output>)

  function OutputsOf(body: Body): seq<Output> {
    match body
    case Single(output) => [output]
    case Outputs(outputs) => outputs
  }

  /** The body answers every call, in its place, as if it were sent alone. */
  predicate IsAnswer(mode: Mode, batched: bool, calls: seq<Call>, st: State, window: SlotsInfo, body: Body) {
    && body.Outputs? == batched
    && |OutputsOf(body)| == |calls|
    && forall i :: 0 <= i < |calls| ==> Some(OutputsOf(body)[i]) == AnswerCall(mode, calls[i], st, window)
  }

  lemma AllServed(mode: Mode, batched: bool, calls: seq<Call>, log: seq<GeyserMessage>, body: Body)
    requires IsAnswer(mode, batched, calls, Run(log), RunWindow(log), body)
    ensures forall i :: 0 <= i < |calls| ==> Serves(mode, calls[i], log, Some(OutputsOf(body)[i]))
  {
    forall i | 0 <= i < |calls| ensures Serves(mode, calls[i], log, Some(OutputsOf(body)[i])) {
      CallServed(mode, calls[i], log);
    }
  }

  /** Why a request gets no JSON-RPC response. */
  datatype RequestError =
    | TooManyCalls
    | QueueFull
    | LoopClosed
    | ConnectionClosed
    | TimedOut
    | Dropped
    | OutputIndexOutOfBounds
    | InvalidNumberOfOutputs
    | NotAllOutputs
    | OutputNotDefined

  /** The requests queued for the first calls, in order. */
  function Requests(mode: Mode, calls: seq<Call>): seq<Request> {
    if calls == [] then []
    else
      match Dispatch(mode, calls[|calls| - 1])
      case Immediate(_) => Requests(mode, calls[..|calls| - 1])
      case Queued(request) => Requests(mode, calls[..|calls| - 1]) + [request]
  }

  function Initial(mode: Mode, call: Call): Option<Output> {
    match Dispatch(mode, call)
    case Immediate(output) => Some(output)
    case Queued(_) => None
  }

  lemma RequestsStep(mode: Mode, calls: seq<Call>, i: nat)
    requires i < |calls|
    ensures Requests(mode, calls[..i + 1])
            == match Dispatch(mode, calls[i])
               case Immediate(_) => Requests(mode, calls[..i])
               case Queued(request) => Requests(mode, calls[..i]) + [request]
  {
    assert calls[..i + 1][..i] == calls[..i];
  }

  /** The requests of the first calls are the first requests. */
  lemma {:induction false} RequestsPrefix(mode: Mode, calls: seq<Call>, i: nat)
    requires i <= |calls|
    ensures Requests(mode, calls[..i]) <= Requests(mode, calls)
    decreases |calls| - i
  {
    if i == |calls| {
      assert calls[..i] == calls;
    } else {
      RequestsStep(mode, calls, i);
      RequestsPrefix(mode, calls, i + 1);
    }
  }

  /** The first `done` places hold their final outputs, the others what the calls left there. */
  ghost predicate FilledTo(mode: Mode, calls: seq<Call>, answers: seq<Output>, outputs: seq<Option<Output>>,
                           done: nat)
  {
    && done <= |calls| == |outputs|
    && |answers| == |Requests(mode, calls)|
    && (forall i :: 0 <= i < done ==> outputs[i] == Some(FinalOutput(mode, calls, answers, i)))
    && (forall i :: done <= i < |calls| ==> outputs[i] == Initial(mode, calls[i]))
  }

  /** A queued call gets the answer with the number of requests queued before it. */
  ghost function FinalOutput(mode: Mode, calls: seq<Call>, answers: seq<Output>, i: nat): Output
    requires i < |calls| && |answers| == |Requests(mode, calls)|
  {
    match Dispatch(mode, calls[i])
    case Immediate(output) => output
    case Queued(_) =>
      RequestsStep(mode, calls, i);
      RequestsPrefix(mode, calls, i + 1);
      answers[|Requests(mode, calls[..i])|]
  }

  /** Places that are not open were final from the start. */
  lemma SkipAnswered(mode: Mode, calls: seq<Call>, answers: seq<Output>, outputs: seq<Option<Output>>,
                     done: nat, next: nat)
    requires FilledTo(mode, calls, answers, outputs, done)
    requires done <= next <= |outputs| && forall i :: done <= i < next ==> outputs[i].Some?
    ensures FilledTo(mode, calls, answers, outputs, next)
    ensures Requests(mode, calls[..next]) == Requests(mode, calls[..done])
    decreases next - done
  {
    if done < next {
      RequestsStep(mode, calls, done);
      SkipAnswered(mode, calls, answers, outputs, done + 1, next);
    }
  }

  lemma PlaceAnswer(mode: Mode, calls: seq<Call>, answers: seq<Output>, outputs: seq<Option<Output>>, index: nat)
    requires FilledTo(mode, calls, answers, outputs, index) && index < |outputs| && outputs[index].None?
    requires |Requests(mode, calls[..index])| < |answers|
    ensures var answer := answers[|Requests(mode, calls[..index])|];
            FilledTo(mode, calls, answers, outputs[index := Some(answer)], index + 1)
    ensures |Requests(mode, calls[..index + 1])| == |Requests(mode, calls[..index])| + 1
  {
    RequestsStep(mode, calls, index);
  }

  /** While an answer is left there is an open place behind the answered ones, and it belongs to that answer. */
  lemma PlaceNext(mode: Mode, calls: seq<Call>, answers: seq<Output>, outputs: seq<Option<Output>>,
                  done: nat, next: nat, a: nat)
    requires FilledTo(mode, calls, answers, outputs, done) && a < |answers|
    requires |Requests(mode, calls[..done])| == a
    requires done <= next <= |outputs| && forall i :: done <= i < next ==> outputs[i].Some?
    requires next < |outputs| ==> outputs[next].None?
    ensures next < |outputs|
    ensures FilledTo(mode, calls, answers, outputs[next := Some(answers[a])], next + 1)
    ensures |Requests(mode, calls[..next + 1])| == a + 1
  {
    SkipAnswered(mode, calls, answers, outputs, done, next);
    assert calls[..|calls|] == calls;
    PlaceAnswer(mode, calls, answers, outputs, next);
  }

  /** The loop that puts the answers into the open places. It never runs out of places and leaves none open. */
  method Place(mode: Mode, calls: seq<Call>, open: seq<Option<Output>>, answers: seq<Output>)
    returns (outputs: seq<Option<Output>>, outOfBounds: bool)
    requires FilledTo(mode, calls, answers, open, 0)
    ensures !outOfBounds
    ensures FilledTo(mode, calls, answers, outputs, |calls|)
  {
    outputs := open;
    outOfBounds := false;
    var index := 0;
    ghost var done: nat := 0;
    for a := 0 to |answers|
      invariant FilledTo(mode, calls, answers, outputs, done)
      invariant done == index || (done == index + 1 && outputs[index].Some?)
      invariant |Requests(mode, calls[..done])| == a
    {
      while index < |outputs| && outputs[index].Some?
        invariant index <= |outputs|
        invariant done <= index + 1 && (done == index + 1 ==> outputs[index].Some?)
        invariant forall i :: done <= i < index ==> outputs[i].Some?
      {
        index := index + 1;
      }
      PlaceNext(mode, calls, answers, outputs, done, index, a);
      if index >= |outputs| {
        outOfBounds := true;
        return;
      }
      outputs := outputs[index := Some(answers[a])];
      done := index + 1;
    }
    NoneLeftOpen(mode, calls, answers, outputs, done);
  }

  lemma NoneLeftOpen(mode: Mode, calls: seq<Call>, answers: seq<Output>, outputs: seq<Option<Output>>, done: nat)
    requires FilledTo(mode, calls, answers, outputs, done)
    requires |Requests(mode, calls[..done])| == |Requests(mode, calls)|
    ensures FilledTo(mode, calls, answers, outputs, |calls|)
    decreases |calls| - done
  {
    if done < |calls| {
      RequestsStep(mode, calls, done);
      RequestsPrefix(mode, calls, done + 1);
      NoneLeftOpen(mode, calls, answers, outputs, done + 1);
    }
  }

  /** What can happen to the queued requests besides being answered. */
  datatype Transport = Delivered | Full | Closed | Disconnected | Late

  /** `SolanaRpc::on_request`. */
  method OnRequest(mode: Mode, batched: bool, calls: seq<Call>, requestCallsMax: nat, transport: Transport,
                   updates: Loop)
    returns (response: Result<Body, RequestError>)
    requires updates.Valid()
    requires !batched ==> |calls| == 1
    ensures |calls| > requestCallsMax <==> response == Err(TooManyCalls)
    ensures response.Ok? <==>
              && |calls| <= requestCallsMax
              && (Requests(mode, calls) == [] || transport == Delivered)
              && forall i :: 0 <= i < |calls| ==>
                   AnswerCall(mode, calls[i], Run(updates.log), RunWindow(updates.log)).Some?
    ensures response.Ok? ==>
              && IsAnswer(mode, batched, calls, Run(updates.log), RunWindow(updates.log), response.value)
              && (Conforms(batched, calls, response.value)
                  <==> calls != [] && forall i :: 0 <= i < |calls| ==> Versioned(calls[i]))
    ensures response.Ok? ==>
              forall i :: 0 <= i < |calls| ==> Serves(mode, calls[i], updates.log, Some(OutputsOf(response.value)[i]))
    ensures response.Err? && |calls| <= requestCallsMax ==>
              && Requests(mode, calls) != []
              && response.error == match transport
                                   case Full => QueueFull
                                   case Closed => LoopClosed
                                   case Disconnected => ConnectionClosed
                                   case Late => TimedOut
                                   case Delivered => Dropped
  {
    if |calls| > requestCallsMax {
      return Err(TooManyCalls);
    }
    var outputs, requests := DispatchAll(mode, calls);
    ghost var st, window := Run(updates.log), RunWindow(updates.log);
    ghost var collected: seq<Output> := [];
    if requests != [] {
      match transport {
        case Full => return Err(QueueFull);
        case Closed => return Err(LoopClosed);
        case Disconnected => return Err(ConnectionClosed);
        case Late => return Err(TimedOut);
        case Delivered =>
      }
      var answers := AnswerAll(updates, requests);
      if answers.None? {
        UnansweredCall(mode, calls, st, window);
        return Err(Dropped);
      }
      var outOfBounds;
      outputs, outOfBounds := Place(mode, calls, outputs, answers.value);
      if outOfBounds {
        return Err(OutputIndexOutOfBounds);
      }
      collected := answers.value;
    } else {
      NoneLeftOpen(mode, calls, [], outputs, 0);
    }
    AllAnswered(mode, calls, st, window, collected);
    assert forall i :: 0 <= i < |calls| ==> outputs[i] == AnswerCall(mode, calls[i], st, window);
    response := Assemble(batched, |calls|, outputs);
    if response.Ok? {
      AssembledConforms(mode, batched, calls, st, window, outputs, response.value);
      AllServed(mode, batched, calls, updates.log, response.value);
    }
  }

  /** The first loop of `on_request`. */
  method DispatchAll(mode: Mode, calls: seq<Call>) returns (outputs: seq<Option<Output>>, requests: seq<Request>)
    ensures requests == Requests(mode, calls)
    ensures |outputs| == |calls| && forall i :: 0 <= i < |calls| ==> outputs[i] == Initial(mode, calls[i])
  {
    outputs, requests := [], [];
    for i := 0 to |calls|
      invariant |outputs| == i && forall j :: 0 <= j < i ==> outputs[j] == Initial(mode, calls[j])
      invariant requests == Requests(mode, calls[..i])
    {
      RequestsStep(mode, calls, i);
      match Dispatch(mode, calls[i]) {
        case Immediate(output) => outputs := outputs + [Some(output)];
        case Queued(request) =>
          requests := requests + [request];
          outputs := outputs + [None];
      }
    }
    assert calls[..|calls|] == calls;
  }

  /** A list of all outputs, or the last one. */
  predicate Assembled(batched: bool, outputs: seq<Option<Output>>, body: Body) {
    if batched then
      && body.Outputs? && |body.outputs| == |outputs|
      && forall i :: 0 <= i < |outputs| ==> Some(body.outputs[i]) == outputs[i]
    else body.Single? && outputs != [] && Some(body.output) == outputs[|outputs| - 1]
  }

  /** The end of `on_request`: all outputs have to be there. */
  method Assemble(batched: bool, callsTotal: nat, outputs: seq<Option<Output>>)
    returns (response: Result<Body, RequestError>)
    ensures response.Ok? <==>
              && callsTotal == |outputs|
              && (forall i :: 0 <= i < |outputs| ==> outputs[i].Some?)
              && (batched || outputs != [])
    ensures response.Ok? ==> Assembled(batched, outputs, response.value)
  {
    if callsTotal != |outputs| {
      return Err(InvalidNumberOfOutputs);
    }
    if exists i :: 0 <= i < |outputs| && outputs[i].None? {
      return Err(NotAllOutputs);
    }
    var complete := seq(|outputs|, i requires 0 <= i < |outputs| => outputs[i].value);
    if batched {
      response := Ok(Outputs(complete));
    } else if complete == [] {
      response := Err(OutputNotDefined);
    } else {
      response := Ok(Single(complete[|complete| - 1]));
    }
  }

  /** The update loop answers all queued requests, or fails on one of them and drops the response. */
  method AnswerAll(updates: Loop, requests: seq<Request>) returns (answers: Option<seq<Output>>)
    requires updates.Valid()
    ensures answers.Some? <==>
              forall i :: 0 <= i < |requests| ==> Answer(Run(updates.log), RunWindow(updates.log), requests[i]).Some?
    ensures answers.Some? ==>
              && |answers.value| == |requests|
              && forall i :: 0 <= i < |requests| ==>
                   Some(answers.value[i]) == Answer(Run(updates.log), RunWindow(updates.log), requests[i])
  {
    var collected: seq<Output> := [];
    for i := 0 to |requests|
      invariant |collected| == i
      invariant forall j :: 0 <= j < i ==>
                  Some(collected[j]) == Answer(Run(updates.log), RunWindow(updates.log), requests[j])
    {
      var answer := updates.Respond(requests[i]);
      if answer.None? {
        return None;
      }
      collected := collected + [answer.value];
    }
    answers := Some(collected);
  }

  lemma {:induction false} UnansweredCall(mode: Mode, calls: seq<Call>, st: State, window: SlotsInfo)
    requires exists j :: 0 <= j < |Requests(mode, calls)| && Answer(st, window, Requests(mode, calls)[j]).None?
    ensures exists i :: 0 <= i < |calls| && AnswerCall(mode, calls[i], st, window).None?
  {
    var n := |calls| - 1;
    var earlier := calls[..n];
    var j :| 0 <= j < |Requests(mode, calls)| && Answer(st, window, Requests(mode, calls)[j]).None?;
    if j < |Requests(mode, earlier)| {
      assert Requests(mode, earlier)[j] == Requests(mode, calls)[j];
      UnansweredCall(mode, earlier, st, window);
      var i :| 0 <= i < n && AnswerCall(mode, earlier[i], st, window).None?;
      assert calls[i] == earlier[i];
    } else {
      assert AnswerCall(mode, calls[n], st, window).None?;
    }
  }

  lemma AllAnswered(mode: Mode, calls: seq<Call>, st: State, window: SlotsInfo, answers: seq<Output>)
    requires |answers| == |Requests(mode, calls)|
    requires forall j :: 0 <= j < |answers| ==> Some(answers[j]) == Answer(st, window, Requests(mode, calls)[j])
    ensures forall i :: 0 <= i < |calls| ==>
              Some(FinalOutput(mode, calls, answers, i)) == AnswerCall(mode, calls[i], st, window)
  {
    forall i | 0 <= i < |calls|
      ensures Some(FinalOutput(mode, calls, answers, i)) == AnswerCall(mode, calls[i], st, window)
    {
      RequestsStep(mode, calls, i);
      RequestsPrefix(mode, calls, i + 1);
    }
  }

  /** Every answer carries the version and the id of its call; the answer to a notification has the id Null, and
      that to an invalid call no version. */
  lemma AnswerCarriesHead(mode: Mode, call: Call, st: State, window: SlotsInfo)
    ensures AnswerCall(mode, call, st, window).Some? ==>
              AnswerCall(mode, call, st, window).value.head == CallHead(call)
  {
    match Dispatch(mode, call)
    case Immediate(_) =>
    case Queued(request) => AnswerKeepsHead(st, window, request);
  }

  // ----- Conformance to JSON-RPC 2.0 --------------------------------------------------------

  const VERSION := Some(V2)

  /** The heads that the outputs have to carry: version 2.0 and the ids of all calls but the notifications. */
  function ExpectedHeads(calls: seq<Call>): seq<Head> {
    if calls == [] then []
    else
      var last := calls[|calls| - 1];
      ExpectedHeads(calls[..|calls| - 1]) + if last.Notification? then [] else [Head(VERSION, CallHead(last).id)]
  }

  function HeadsOf(outputs: seq<Output>): (r: seq<Head>)
    ensures |r| == |outputs| && forall i :: 0 <= i < |r| ==> r[i] == outputs[i].head
  {
    seq(|outputs|, i requires 0 <= i < |outputs| => outputs[i].head)
  }

  /** What sections 4.1, 5 and 6 of JSON-RPC 2.0 ask of the number, the versions and the ids of the outputs of a
      response that is sent: an empty batch gets a single Invalid Request; otherwise a batch gets a list, never
      an empty one, with one output for each call that is no notification, in any order, and none for a
      notification; each output names the version 2.0 and the id of its call. */
  predicate Conforms(batched: bool, calls: seq<Call>, body: Body) {
    if calls == [] then body == Single(Failure(Head(VERSION, Null), InvalidRequest))
    else
      && body.Outputs? == batched
      && OutputsOf(body) != []
      && multiset(HeadsOf(OutputsOf(body))) == multiset(ExpectedHeads(calls))
  }

  /** A method call that names version 2.0. */
  predicate Versioned(call: Call) {
    call.MethodCall? && call.head.version == VERSION
  }

  lemma {:induction false} ExpectedShape(calls: seq<Call>)
    ensures |ExpectedHeads(calls)| <= |calls|
    ensures |ExpectedHeads(calls)| == |calls| ==> forall i :: 0 <= i < |calls| ==> !calls[i].Notification?
    ensures forall h :: h in ExpectedHeads(calls) ==> h.version == VERSION
  {
    if calls != [] {
      ExpectedShape(calls[..|calls| - 1]);
    }
  }

  lemma {:induction false} VersionedExpected(calls: seq<Call>)
    requires forall i :: 0 <= i < |calls| ==> Versioned(calls[i])
    ensures |ExpectedHeads(calls)| == |calls|
    ensures forall i :: 0 <= i < |calls| ==> ExpectedHeads(calls)[i] == CallHead(calls[i])
  {
    if calls != [] {
      VersionedExpected(calls[..|calls| - 1]);
    }
  }

  lemma SameElements(a: seq<Head>, b: seq<Head>)
    requires multiset(a) == multiset(b)
    ensures |a| == |b| && forall h :: h in a ==> h in b
  {
    assert |a| == |multiset(a)|;
    assert forall h :: h in a ==> h in multiset(b);
  }

  lemma AnswersCarryHeads(mode: Mode, calls: seq<Call>, st: State, window: SlotsInfo, outputs: seq<Output>)
    requires |outputs| == |calls|
    requires forall i :: 0 <= i < |calls| ==> Some(outputs[i]) == AnswerCall(mode, calls[i], st, window)
    ensures forall i :: 0 <= i < |calls| ==> HeadsOf(outputs)[i] == CallHead(calls[i])
  {
    forall i | 0 <= i < |calls| ensures HeadsOf(outputs)[i] == CallHead(calls[i]) {
      AnswerCarriesHead(mode, calls[i], st, window);
    }
  }

  lemma ExpectedAreVersioned(calls: seq<Call>, heads: seq<Head>)
    requires |heads| == |calls| && forall i :: 0 <= i < |calls| ==> heads[i] == CallHead(calls[i])
    requires multiset(heads) == multiset(ExpectedHeads(calls))
    ensures forall i :: 0 <= i < |calls| ==> Versioned(calls[i])
  {
    SameElements(heads, ExpectedHeads(calls));
    ExpectedShape(calls);
    forall i | 0 <= i < |calls| ensures Versioned(calls[i]) {
      assert heads[i] in heads;
    }
  }

  /** Exactly when a response conforms: there is a call, and every call is a method call that names version 2.0. */
  lemma ConformsIff(mode: Mode, batched: bool, calls: seq<Call>, st: State, window: SlotsInfo, body: Body)
    requires (!batched ==> |calls| == 1) && IsAnswer(mode, batched, calls, st, window, body)
    ensures Conforms(batched, calls, body)
            <==> calls != [] && forall i :: 0 <= i < |calls| ==> Versioned(calls[i])
  {
    var heads := HeadsOf(OutputsOf(body));
    AnswersCarryHeads(mode, calls, st, window, OutputsOf(body));
    if forall i :: 0 <= i < |calls| ==> Versioned(calls[i]) {
      VersionedExpected(calls);
      assert heads == ExpectedHeads(calls);
    } else if multiset(heads) == multiset(ExpectedHeads(calls)) {
      ExpectedAreVersioned(calls, heads);
    }
  }

  lemma AssembledConforms(mode: Mode, batched: bool, calls: seq<Call>, st: State, window: SlotsInfo,
                          outputs: seq<Option<Output>>, body: Body)
    requires (!batched ==> |calls| == 1) && |outputs| == |calls| && Assembled(batched, outputs, body)
    requires forall i :: 0 <= i < |calls| ==> outputs[i] == AnswerCall(mode, calls[i], st, window)
    ensures IsAnswer(mode, batched, calls, st, window, body)
    ensures Conforms(batched, calls, body)
            <==> calls != [] && forall i :: 0 <= i < |calls| ==> Versioned(calls[i])
  {
    ConformsIff(mode, batched, calls, st, window, body);
  }

  /** An empty batch gets an empty list, against section 6 of JSON-RPC 2.0. */
  lemma EmptyBatchDoesNotConform(mode: Mode, st: State, window: SlotsInfo, body: Body)
    requires IsAnswer(mode, true, [], st, window, body)
    ensures body == Outputs([]) && !Conforms(true, [], body)
  {
    ConformsIff(mode, true, [], st, window, body);
  }

  /** A notification gets an error, against section 4.1 of JSON-RPC 2.0. */
  lemma NotificationDoesNotConform(mode: Mode, version: Option<JsonrpcVersion>, st: State, window: SlotsInfo,
                                   body: Body)
    requires IsAnswer(mode, false, [Notification(version)], st, window, body)
    ensures body == Single(Failure(Head(version, Null), InvalidRequest))
    ensures !Conforms(false, [Notification(version)], body)
  {
    ConformsIff(mode, false, [Notification(version)], st, window, body);
  }

  /** An invalid call gets an error without a version, against section 5 of JSON-RPC 2.0. */
  lemma InvalidCallDoesNotConform(mode: Mode, id: Id, st: State, window: SlotsInfo, body: Body)
    requires IsAnswer(mode, false, [InvalidCall(id)], st, window, body)
    ensures body == Single(Failure(Head(None, id), InvalidRequest)) && !Conforms(false, [InvalidCall(id)], body)
  {
    ConformsIff(mode, false, [InvalidCall(id)], st, window, body);
  }

  /** A call without a version is served, and its answer names none either, against section 5 of JSON-RPC 2.0. */
  lemma VersionlessCallDoesNotConform(mode: Mode, id: Id, name: string, params: Params, st: State,
                                      window: SlotsInfo, body: Body)
    requires IsAnswer(mode, false, [MethodCall(Head(None, id), name, params)], st, window, body)
    ensures body.Single? && body.output.head == Head(None, id)
    ensures !Conforms(false, [MethodCall(Head(None, id), name, params)], body)
  {
    var call := MethodCall(Head(None, id), name, params);
    AnswerCarriesHead(mode, call, st, window);
    assert Some(body.output) == AnswerCall(mode, [call][0], st, window);
    assert !Versioned([call][0]);
    ConformsIff(mode, false, [call], st, window, body);
  }

  // ----- The endpoints ----------------------------------------------------------------------

  /** An answer of the frontend in the format of the other endpoint. */
  function InSolfeesFormat(output: Output): Output {
    match output
    case Success(head, FrontendSlots(slots)) => Success(head, SolfeesFees(ReducedAll(slots)))
    case _ => output
  }

  /** Solfees answers every method but getRecentPrioritizationFees as Triton does. That one is all the frontend
      serves, and its answer holds the one of Solfees. */
  lemma ModesCompatible(call: Call, st: State, window: SlotsInfo)
    requires call.MethodCall?
    ensures call.name != "getRecentPrioritizationFees" ==>
              && AnswerCall(Solfees, call, st, window) == AnswerCall(Triton, call, st, window)
              && AnswerCall(SolfeesFrontend, call, st, window) == Some(Failure(call.head, MethodNotFound))
    ensures call.name == "getRecentPrioritizationFees" ==>
              && AnswerCall(SolfeesFrontend, call, st, window).Some?
              && AnswerCall(Solfees, call, st, window)
                 == Some(InSolfeesFormat(AnswerCall(SolfeesFrontend, call, st, window).value))
  {
  }
}
