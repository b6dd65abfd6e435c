/** Requests under an Idempotency-Key, interleaved. */
module IdempotencyProtocol {
  // Requests run in steps over one shared table. Each step is one database operation or one event of the handler; any
  // number of requests may be at any point, and any of them may stop for ever.

  import opened Results
  import opened Text

  type RequestId = nat

  type Body = Text

  datatype Request = Request(key: Option<Text>, scope: Text, requestHash: Text)

  datatype Slot = Slot(scope: Text, key: Text)

  /** A reservation; the response is missing until the handler's result is recorded. */
  datatype Row = Row(requestHash: Text, response: Option<Body>)

  datatype Outcome =
    | Returned(body: Body)
    | Replayed(body: Body)
    | ConflictOtherBody
    | ConflictInFlight
    | HandlerFailed
    | StoreFailed

  datatype Phase =
    | Arrived
    | Reserving
    | Reserved
    | Running
    | Finding(result: Body)
    | Completing(result: Body)
    | Done(outcome: Outcome)

  /** What the environment decides: the next statement simply runs, the handler ends, or a database call throws. */
  datatype Event = Proceed | HandlerReturns(body: Body) | HandlerThrows | StoreThrows

  /** A request without an entry in phases has not taken its first step. */
  datatype State = State(
    phases: map<RequestId, Phase>,
    rows: map<Slot, Row>,
    winners: map<Slot, RequestId>,  // history: who inserted each row
    starts: seq<RequestId>,         // history: whose handler was started, in order
    results: map<RequestId, Body>)  // history: what each handler returned
  {
    function Phase(r: RequestId): Phase {
      if r in phases then phases[r] else Arrived
    }
  }

  /** Every request that may ever arrive, by number. */
  type Requests = RequestId -> Request

  /** An absent or empty key means no protection. */
  predicate IsProtected(q: Request) {
    q.key.Some? && q.key.value != []
  }

  function SlotOf(q: Request): Slot
    requires IsProtected(q)
  {
    Slot(q.scope, q.key.value)
  }

  const INITIAL: State := State(map[], map[], map[], [], map[])

  // ----- one request's statements -----

  /** The answer to a request that finds a row for its key. */
  function AnswerFor(row: Row, q: Request): Outcome {
    if row.requestHash != q.requestHash then ConflictOtherBody
    else if row.response.Some? then Replayed(row.response.value)
    else ConflictInFlight
  }

  function To(s: State, r: RequestId, phase: Phase): State {
    s.(phases := s.phases[r := phase])
  }

  function Start(s: State, r: RequestId): State {
    s.(phases := s.phases[r := Running], starts := s.starts + [r])
  }

  /** The key is reserved: a row without a response. */
  function Inserted(s: State, r: RequestId, q: Request): State
    requires IsProtected(q)
  {
    To(s, r, Reserved).(rows := s.rows[SlotOf(q) := Row(q.requestHash, None)], winners := s.winners[SlotOf(q) := r])
  }

  /** The handler has returned; without a key that is already the answer. */
  function Recorded(s: State, r: RequestId, q: Request, body: Body): State {
    To(s, r, if IsProtected(q) then Finding(body) else Done(Returned(body))).(results := s.results[r := body])
  }

  /** The row is given its response, and the response is the answer. */
  function Filled(s: State, r: RequestId, q: Request, body: Body): State
    requires IsProtected(q) && SlotOf(q) in s.rows
  {
    To(s, r, Done(Returned(body))).(rows := s.rows[SlotOf(q) := s.rows[SlotOf(q)].(response := Some(body))])
  }

  function Arrive(s: State, r: RequestId, q: Request, e: Event): State {
    if !IsProtected(q) then Start(s, r)
    else if e.StoreThrows? then To(s, r, Done(StoreFailed))
    else if SlotOf(q) in s.rows then To(s, r, Done(AnswerFor(s.rows[SlotOf(q)], q)))
    else To(s, r, Reserving)
  }

  function Reserve(s: State, r: RequestId, q: Request, e: Event): State
    requires IsProtected(q)
  {
    var slot := SlotOf(q);
    if e.StoreThrows? then To(s, r, Done(StoreFailed))
    else if slot in s.rows then To(s, r, Done(ConflictInFlight))
    else Inserted(s, r, q)
  }

  function EndHandler(s: State, r: RequestId, q: Request, e: Event): State {
    match e
    case HandlerReturns(body) =>
      Recorded(s, r, q, body)
    case HandlerThrows => To(s, r, Done(HandlerFailed))
    case _ => s
  }

  function FindAgain(s: State, r: RequestId, q: Request, result: Body, e: Event): State
    requires IsProtected(q)
  {
    if e.StoreThrows? then To(s, r, Done(StoreFailed))
    else if SlotOf(q) in s.rows then To(s, r, Completing(result))
    else To(s, r, Done(Returned(result)))
  }

  function Complete(s: State, r: RequestId, q: Request, result: Body, e: Event): State
    requires IsProtected(q)
  {
    var slot := SlotOf(q);
    if e.StoreThrows? || slot !in s.rows then To(s, r, Done(StoreFailed))
    else Filled(s, r, q, result)
  }

  /** The next statement of request r; a finished request has none. */
  function Step(qs: Requests, s: State, r: RequestId, e: Event): State {
    var q := qs(r);
    match s.Phase(r)
    case Arrived => Arrive(s, r, q, e)
    case Reserving => if IsProtected(q) then Reserve(s, r, q, e) else s
    case Reserved => Start(s, r)
    case Running => EndHandler(s, r, q, e)
    case Finding(result) => if IsProtected(q) then FindAgain(s, r, q, result, e) else s
    case Completing(result) => if IsProtected(q) then Complete(s, r, q, result, e) else s
    case Done(_) => s
  }

  datatype Turn = Turn(request: RequestId, event: Event)

  function Run(qs: Requests, s: State, turns: seq<Turn>): State {
    if turns == [] then s
    else
      var before := Run(qs, s, turns[..|turns| - 1]);
      Step(qs, before, turns[|turns| - 1].request, turns[|turns| - 1].event)
  }

  // ----- the invariant -----

  /** Has this request's handler been started? */
  predicate HasStarted(p: Phase) {
    match p
    case Running => true
    case Finding(_) => true
    case Completing(_) => true
    case Done(Returned(_)) => true
    case Done(HandlerFailed) => true
    case _ => false
  }

  /** A request that has inserted the row for its key. */
  predicate HoldsSlot(p: Phase) {
    p.Reserved? || HasStarted(p)
  }

  /** Each handler is started at most once, only by a request past its reservation, and for a protected one only by the winner. */
  ghost predicate StartsAreRight(qs: Requests, s: State) {
    && (forall i, j :: 0 <= i < j < |s.starts| ==> s.starts[i] != s.starts[j])
    && (forall r :: HasStarted(s.Phase(r)) ==> r in s.starts)
    && (forall r :: r in s.starts ==> HasStarted(s.Phase(r)) || s.Phase(r) == Done(StoreFailed))
    && (forall r :: r in s.starts && IsProtected(qs(r)) ==> SlotOf(qs(r)) in s.winners && s.winners[SlotOf(qs(r))] == r)
  }

  /**
   A row belongs to the request that inserted it and carries that request's hash. If a store failure has ended that
   request, it was after its handler returned.
   */
  ghost predicate RowsAreRight(qs: Requests, s: State) {
    && s.rows.Keys == s.winners.Keys
    && (forall k :: k in s.rows ==> RowIsRight(qs, s, k))
    && (forall r :: IsProtected(qs(r)) && HoldsSlot(s.Phase(r)) ==> SlotOf(qs(r)) in s.winners && s.winners[SlotOf(qs(r))] == r)
  }

  ghost predicate RowIsRight(qs: Requests, s: State, k: Slot)
    requires k in s.rows && k in s.winners
  {
    var w := s.winners[k];
    && IsProtected(qs(w)) && SlotOf(qs(w)) == k
    && s.rows[k].requestHash == qs(w).requestHash
    && (HoldsSlot(s.Phase(w)) || s.Phase(w) == Done(StoreFailed))
    && (s.Phase(w) == Done(StoreFailed) ==> w in s.starts && w in s.results)
    && (s.rows[k].response.Some? ==> s.Phase(w) == Done(Returned(s.rows[k].response.value)))
  }

  /** What a request carries towards its answer is what its own handler returned; a returned answer is on record. */
  ghost predicate ResultIsRight(qs: Requests, s: State, r: RequestId) {
    match s.Phase(r)
    case Reserving => IsProtected(qs(r))
    case Reserved => IsProtected(qs(r))
    case Finding(b) => IsProtected(qs(r)) && r in s.results && s.results[r] == b
    case Completing(b) => IsProtected(qs(r)) && r in s.results && s.results[r] == b
    case Done(Returned(b)) =>
      && r in s.results && s.results[r] == b
      && (IsProtected(qs(r)) ==> SlotOf(qs(r)) in s.rows && s.rows[SlotOf(qs(r))] == Row(qs(r).requestHash, Some(b)))
    case _ => true
  }

  /** A replay repeats what the row of the same key and request hash holds; a conflict has a row to conflict with. */
  ghost predicate AnswerIsRight(qs: Requests, s: State, r: RequestId) {
    match s.Phase(r)
    case Done(Replayed(b)) =>
      IsProtected(qs(r)) && SlotOf(qs(r)) in s.rows && s.rows[SlotOf(qs(r))] == Row(qs(r).requestHash, Some(b))
    case Done(ConflictOtherBody) =>
      IsProtected(qs(r)) && SlotOf(qs(r)) in s.rows && s.rows[SlotOf(qs(r))].requestHash != qs(r).requestHash
    case Done(ConflictInFlight) => IsProtected(qs(r)) && SlotOf(qs(r)) in s.rows
    case _ => true
  }

  ghost predicate Inv(qs: Requests, s: State) {
    && StartsAreRight(qs, s)
    && RowsAreRight(qs, s)
    && (forall r :: ResultIsRight(qs, s, r))
    && (forall r :: AnswerIsRight(qs, s, r))
  }

  lemma InitialInv(qs: Requests)
    ensures Inv(qs, INITIAL)
  {}

  // ----- what a step can do -----

  /** A step that changes nothing but the phase of r, without starting a handler or reserving a key. */
  ghost predicate IsMove(qs: Requests, s: State, s': State, r: RequestId) {
    var p, p' := s.Phase(r), s'.Phase(r);
    && s' == To(s, r, p') && !p.Done? && !p.Reserved? && !p'.Reserved?
    && (HasStarted(p') ==> HasStarted(p))
    && (HasStarted(p) ==> HasStarted(p') || p' == Done(StoreFailed))
    && (p' == Done(StoreFailed) ==> !p.Running?)
    && ResultIsRight(qs, s', r) && AnswerIsRight(qs, s', r)
  }

  ghost predicate IsStart(qs: Requests, s: State, s': State, r: RequestId) {
    s' == Start(s, r) && s.Phase(r) == if IsProtected(qs(r)) then Reserved else Arrived
  }

  ghost predicate IsInsertion(qs: Requests, s: State, s': State, r: RequestId) {
    IsProtected(qs(r)) && s.Phase(r) == Reserving && SlotOf(qs(r)) !in s.rows && s' == Inserted(s, r, qs(r))
  }

  ghost predicate IsRecording(qs: Requests, s: State, s': State, r: RequestId) {
    s.Phase(r) == Running && exists b :: s' == Recorded(s, r, qs(r), b)
  }

  ghost predicate IsFilling(qs: Requests, s: State, s': State, r: RequestId) {
    && IsProtected(qs(r)) && s.Phase(r).Completing? && SlotOf(qs(r)) in s.rows
    && s' == Filled(s, r, qs(r), s.Phase(r).result)
  }

  ghost predicate IsStep(qs: Requests, s: State, s': State, r: RequestId) {
    s' == s || IsMove(qs, s, s', r) || IsStart(qs, s, s', r) || IsInsertion(qs, s, s', r)
    || IsRecording(qs, s, s', r) || IsFilling(qs, s, s', r)
  }

  lemma StepCases(qs: Requests, s: State, r: RequestId, e: Event)
    requires ResultIsRight(qs, s, r)
    requires IsProtected(qs(r)) && HoldsSlot(s.Phase(r)) ==> SlotOf(qs(r)) in s.rows
    ensures IsStep(qs, s, Step(qs, s, r, e), r)
  {
    if s.Phase(r) == Running && e.HandlerReturns? {
      assert Step(qs, s, r, e) == Recorded(s, r, qs(r), e.body);
    }
  }

  lemma StepIsStep(qs: Requests, s: State, r: RequestId, e: Event)
    requires Inv(qs, s)
    ensures IsStep(qs, s, Step(qs, s, r, e), r)
  {
    hide Step, IsStep;
    assert IsProtected(qs(r)) && HoldsSlot(s.Phase(r)) ==> SlotOf(qs(r)) in s.winners;
    assert ResultIsRight(qs, s, r);
    StepCases(qs, s, r, e);
  }

  // ----- every step keeps the invariant -----

  lemma MoveKeepsInv(qs: Requests, s: State, s': State, r: RequestId)
    requires Inv(qs, s) && IsMove(qs, s, s', r)
    ensures Inv(qs, s')
  {
    assert forall t :: t != r ==> s'.Phase(t) == s.Phase(t);
    assert ResultIsRight(qs, s, r);
    forall k | k in s'.rows ensures RowIsRight(qs, s', k) {
      assert RowIsRight(qs, s, k);
    }
    forall t ensures ResultIsRight(qs, s', t) && AnswerIsRight(qs, s', t) {
      assert ResultIsRight(qs, s, t) && AnswerIsRight(qs, s, t);
    }
  }

  lemma StartKeepsStarts(qs: Requests, s: State, s': State, r: RequestId)
    requires StartsAreRight(qs, s) && RowsAreRight(qs, s) && IsStart(qs, s, s', r)
    ensures StartsAreRight(qs, s')
  {
    assert forall t :: t != r ==> s'.Phase(t) == s.Phase(t);
    assert r !in s.starts;
    hide RowIsRight;
  }

  lemma StartKeepsRows(qs: Requests, s: State, s': State, r: RequestId)
    requires RowsAreRight(qs, s) && IsStart(qs, s, s', r)
    ensures RowsAreRight(qs, s')
  {
    assert forall t :: t != r ==> s'.Phase(t) == s.Phase(t);
    forall k | k in s'.rows ensures RowIsRight(qs, s', k) {
      assert RowIsRight(qs, s, k);
    }
  }

  lemma StartKeepsInv(qs: Requests, s: State, s': State, r: RequestId)
    requires Inv(qs, s) && IsStart(qs, s, s', r)
    ensures Inv(qs, s')
  {
    hide RowsAreRight, StartsAreRight;
    StartKeepsStarts(qs, s, s', r);
    StartKeepsRows(qs, s, s', r);
    assert forall t :: t != r ==> s'.Phase(t) == s.Phase(t);
    forall t ensures ResultIsRight(qs, s', t) && AnswerIsRight(qs, s', t) {
      assert ResultIsRight(qs, s, t) && AnswerIsRight(qs, s, t);
    }
  }

  lemma InsertionKeepsRow(qs: Requests, s: State, s': State, r: RequestId, k: Slot)
    requires IsInsertion(qs, s, s', r)
    requires k == SlotOf(qs(r)) || (k in s.rows && k in s.winners && RowIsRight(qs, s, k))
    ensures k in s'.rows && k in s'.winners && RowIsRight(qs, s', k)
  {
    assert forall t :: t != r ==> s'.Phase(t) == s.Phase(t);
  }

  lemma InsertionKeepsRows(qs: Requests, s: State, s': State, r: RequestId)
    requires RowsAreRight(qs, s) && IsInsertion(qs, s, s', r)
    ensures RowsAreRight(qs, s')
  {
    hide RowIsRight;
    assert forall t :: t != r ==> s'.Phase(t) == s.Phase(t);
    forall k | k in s'.rows ensures RowIsRight(qs, s', k) {
      InsertionKeepsRow(qs, s, s', r, k);
    }
  }

  lemma InsertionKeepsInv(qs: Requests, s: State, s': State, r: RequestId)
    requires Inv(qs, s) && IsInsertion(qs, s, s', r)
    ensures Inv(qs, s')
  {
    InsertionKeepsRows(qs, s, s', r);
    InsertionKeepsStarts(qs, s, s', r);
    forall t ensures ResultIsRight(qs, s', t) && AnswerIsRight(qs, s', t) {
      InsertionKeepsAnswer(qs, s, s', r, t);
    }
  }

  lemma InsertionKeepsAnswer(qs: Requests, s: State, s': State, r: RequestId, t: RequestId)
    requires ResultIsRight(qs, s, t) && AnswerIsRight(qs, s, t) && IsInsertion(qs, s, s', r)
    ensures ResultIsRight(qs, s', t) && AnswerIsRight(qs, s', t)
  {
    assert t != r ==> s'.Phase(t) == s.Phase(t);
  }

  lemma InsertionKeepsStarts(qs: Requests, s: State, s': State, r: RequestId)
    requires StartsAreRight(qs, s) && s.winners.Keys == s.rows.Keys && IsInsertion(qs, s, s', r)
    ensures StartsAreRight(qs, s')
  {
    assert forall t :: t != r ==> s'.Phase(t) == s.Phase(t);
  }

  lemma RecordingKeepsRow(qs: Requests, s: State, s': State, r: RequestId, k: Slot)
    requires k in s.rows && k in s.winners && RowIsRight(qs, s, k) && IsRecording(qs, s, s', r)
    ensures k in s'.rows && k in s'.winners && RowIsRight(qs, s', k)
  {
    assert forall t :: t != r ==> s'.Phase(t) == s.Phase(t);
  }

  lemma RecordingKeepsRows(qs: Requests, s: State, s': State, r: RequestId)
    requires RowsAreRight(qs, s) && IsRecording(qs, s, s', r)
    ensures RowsAreRight(qs, s')
  {
    hide RowIsRight;
    assert forall t :: t != r ==> s'.Phase(t) == s.Phase(t);
    forall k | k in s'.rows ensures RowIsRight(qs, s', k) {
      RecordingKeepsRow(qs, s, s', r, k);
    }
  }

  lemma RecordingKeepsStarts(qs: Requests, s: State, s': State, r: RequestId)
    requires StartsAreRight(qs, s) && IsRecording(qs, s, s', r)
    ensures StartsAreRight(qs, s')
  {
    assert forall t :: t != r ==> s'.Phase(t) == s.Phase(t);
  }

  lemma RecordingKeepsAnswer(qs: Requests, s: State, s': State, r: RequestId, t: RequestId)
    requires ResultIsRight(qs, s, t) && AnswerIsRight(qs, s, t) && IsRecording(qs, s, s', r)
    ensures ResultIsRight(qs, s', t) && AnswerIsRight(qs, s', t)
  {
    assert t != r ==> s'.Phase(t) == s.Phase(t);
  }

  lemma RecordingKeepsInv(qs: Requests, s: State, s': State, r: RequestId)
    requires Inv(qs, s) && IsRecording(qs, s, s', r)
    ensures Inv(qs, s')
  {
    hide RowsAreRight, StartsAreRight, ResultIsRight, AnswerIsRight, IsRecording;
    RecordingKeepsRows(qs, s, s', r);
    RecordingKeepsStarts(qs, s, s', r);
    forall t ensures ResultIsRight(qs, s', t) && AnswerIsRight(qs, s', t) {
      RecordingKeepsAnswer(qs, s, s', r, t);
    }
  }

  lemma FillingKeepsRows(qs: Requests, s: State, s': State, r: RequestId)
    requires RowsAreRight(qs, s) && IsFilling(qs, s, s', r)
    ensures RowsAreRight(qs, s')
  {
    hide RowIsRight;
    assert forall t :: t != r ==> s'.Phase(t) == s.Phase(t);
    forall k | k in s'.rows ensures RowIsRight(qs, s', k) {
      FillingKeepsRow(qs, s, s', r, k);
    }
  }

  lemma FillingKeepsRow(qs: Requests, s: State, s': State, r: RequestId, k: Slot)
    requires k in s.rows && k in s.winners && RowIsRight(qs, s, k) && IsFilling(qs, s, s', r)
    requires SlotOf(qs(r)) in s.winners && s.winners[SlotOf(qs(r))] == r
    ensures k in s'.rows && k in s'.winners && RowIsRight(qs, s', k)
  {
    assert forall t :: t != r ==> s'.Phase(t) == s.Phase(t);
  }

  lemma FillingKeepsStarts(qs: Requests, s: State, s': State, r: RequestId)
    requires StartsAreRight(qs, s) && IsFilling(qs, s, s', r)
    ensures StartsAreRight(qs, s')
  {
    assert forall t :: t != r ==> s'.Phase(t) == s.Phase(t);
  }

  lemma FillingKeepsAnswer(qs: Requests, s: State, s': State, r: RequestId, t: RequestId)
    requires ResultIsRight(qs, s, t) && AnswerIsRight(qs, s, t) && ResultIsRight(qs, s, r) && IsFilling(qs, s, s', r)
    requires s.rows[SlotOf(qs(r))].requestHash == qs(r).requestHash && s.rows[SlotOf(qs(r))].response == None
    ensures ResultIsRight(qs, s', t) && AnswerIsRight(qs, s', t)
  {
    assert t != r ==> s'.Phase(t) == s.Phase(t);
  }

  lemma FillingKeepsInv(qs: Requests, s: State, s': State, r: RequestId)
    requires Inv(qs, s) && IsFilling(qs, s, s', r)
    ensures Inv(qs, s')
  {
    FillingKeepsRows(qs, s, s', r);
    var k := SlotOf(qs(r));
    assert RowIsRight(qs, s, k) && s.winners[k] == r && s.rows[k].response == None;
    assert s.rows[k].requestHash == qs(r).requestHash;
    hide RowsAreRight, StartsAreRight, ResultIsRight, AnswerIsRight, RowIsRight, HoldsSlot;
    FillingKeepsStarts(qs, s, s', r);
    forall t ensures ResultIsRight(qs, s', t) && AnswerIsRight(qs, s', t) {
      FillingKeepsAnswer(qs, s, s', r, t);
    }
  }

  lemma StepKeepsInv(qs: Requests, s: State, r: RequestId, e: Event)
    requires Inv(qs, s)
    ensures Inv(qs, Step(qs, s, r, e))
  {
    var s' := Step(qs, s, r, e);
    StepIsStep(qs, s, r, e);
    hide Step, Inv, IsMove, IsStart, IsInsertion, IsRecording, IsFilling;
    if IsMove(qs, s, s', r) {
      MoveKeepsInv(qs, s, s', r);
    } else if IsStart(qs, s, s', r) {
      StartKeepsInv(qs, s, s', r);
    } else if IsInsertion(qs, s, s', r) {
      InsertionKeepsInv(qs, s, s', r);
    } else if IsRecording(qs, s, s', r) {
      RecordingKeepsInv(qs, s, s', r);
    } else if IsFilling(qs, s, s', r) {
      FillingKeepsInv(qs, s, s', r);
    }
  }

  // ----- over every run -----

  lemma {:induction false} RunKeepsInv(qs: Requests, s: State, turns: seq<Turn>)
    requires Inv(qs, s)
    ensures Inv(qs, Run(qs, s, turns))
  {
    if turns != [] {
      var init, last := turns[..|turns| - 1], turns[|turns| - 1];
      RunKeepsInv(qs, s, init);
      StepKeepsInv(qs, Run(qs, s, init), last.request, last.event);
    }
  }

  /** Whatever the interleaving, no key ever has its handler started twice, by one request or by two. */
  lemma HandlerStartsOncePerKey(qs: Requests, turns: seq<Turn>, i: nat, j: nat)
    requires var s := Run(qs, INITIAL, turns); i < j < |s.starts|
    ensures var s := Run(qs, INITIAL, turns);
            var q, q' := qs(s.starts[i]), qs(s.starts[j]);
            && s.starts[i] != s.starts[j]
            && (q.key.Some? && |q.key.value| > 0 ==> q.scope != q'.scope || q.key != q'.key)
  {
    InitialInv(qs);
    RunKeepsInv(qs, INITIAL, turns);
    var s := Run(qs, INITIAL, turns);
    assert s.starts[i] in s.starts && s.starts[j] in s.starts;
  }

  /** The invariant as it concerns one request. */
  lemma InvFacts(qs: Requests, s: State, r: RequestId)
    requires Inv(qs, s)
    ensures ResultIsRight(qs, s, r) && AnswerIsRight(qs, s, r)
    ensures HasStarted(s.Phase(r)) ==> r in s.starts
    ensures r in s.starts ==> HasStarted(s.Phase(r)) || s.Phase(r) == Done(StoreFailed)
    ensures IsProtected(qs(r)) && SlotOf(qs(r)) in s.rows ==> SlotOf(qs(r)) in s.winners && RowIsRight(qs, s, SlotOf(qs(r)))
  {
    hide ResultIsRight, AnswerIsRight, RowIsRight, HasStarted, IsProtected;
  }

  /**
   A replayed body is the one returned by the single execution under the same scope and key and with the same request
   hash; the replaying request itself, like every refused one, has started nothing.
   */
  lemma AnswersComeFromTheOneExecution(qs: Requests, turns: seq<Turn>, r: RequestId)
    ensures var s := Run(qs, INITIAL, turns);
            match s.Phase(r)
            case Done(Replayed(body)) =>
              && r !in s.starts && qs(r).key.Some? && |qs(r).key.value| > 0
              && exists w :: w in s.starts && qs(w) == qs(r) && w in s.results && s.results[w] == body
            case Done(Returned(body)) => r in s.starts && r in s.results && s.results[r] == body
            case Done(ConflictOtherBody) => r !in s.starts
            case Done(ConflictInFlight) => r !in s.starts
            case _ => true
  {
    InitialInv(qs);
    RunKeepsInv(qs, INITIAL, turns);
    var s := Run(qs, INITIAL, turns);
    hide Inv, Run;
    assert Inv(qs, s);
    InvFacts(qs, s, r);
    if s.Phase(r).Done? && s.Phase(r).outcome.Replayed? {
      var w := s.winners[SlotOf(qs(r))];
      InvFacts(qs, s, w);
      assert w in s.starts && qs(w) == qs(r) && s.results[w] == s.Phase(r).outcome.body;
    }
  }

  /** Two answered requests for the same scope and key carry the same request hash and get the same body of response. */
  lemma SameRequestSameAnswer(qs: Requests, turns: seq<Turn>, r: RequestId, t: RequestId, b: Body, c: Body)
    requires qs(r).key.Some? && |qs(r).key.value| > 0 && qs(t).key == qs(r).key && qs(t).scope == qs(r).scope
    requires var s := Run(qs, INITIAL, turns);
             && (s.Phase(r) == Done(Returned(b)) || s.Phase(r) == Done(Replayed(b)))
             && (s.Phase(t) == Done(Returned(c)) || s.Phase(t) == Done(Replayed(c)))
    ensures b == c && qs(r).requestHash == qs(t).requestHash
  {
    InitialInv(qs);
    RunKeepsInv(qs, INITIAL, turns);
    var s := Run(qs, INITIAL, turns);
    assert ResultIsRight(qs, s, r) && AnswerIsRight(qs, s, r);
    assert ResultIsRight(qs, s, t) && AnswerIsRight(qs, s, t);
  }

  // ----- what is on record stays on record -----

  /** The key is settled: its row has this response. */
  ghost predicate Settled(s: State, k: Slot, body: Body) {
    k in s.rows && s.rows[k].response == Some(body)
  }

  /** A step keeps every row's winner, and changes a row only by completing it for its own request. */
  lemma StepKeepsRow(qs: Requests, s: State, r: RequestId, e: Event, k: Slot)
    requires Inv(qs, s) && k in s.rows
    ensures var s' := Step(qs, s, r, e);
            && k in s'.rows && k in s.winners && k in s'.winners && s'.winners[k] == s.winners[k]
            && (s'.rows[k] == s.rows[k] || (s.winners[k] == r && s.Phase(r).Completing?))
  {
    assert IsProtected(qs(r)) && HoldsSlot(s.Phase(r)) ==> SlotOf(qs(r)) in s.rows && s.winners[SlotOf(qs(r))] == r;
    assert s.rows.Keys == s.winners.Keys;
    hide Inv, Step;
    StepIsStep(qs, s, r, e);
    CaseKeepsRow(qs, s, Step(qs, s, r, e), r, k);
  }

  lemma CaseKeepsRow(qs: Requests, s: State, s': State, r: RequestId, k: Slot)
    requires IsStep(qs, s, s', r) && k in s.rows && k in s.winners
    requires IsProtected(qs(r)) && s.Phase(r).Completing? ==> SlotOf(qs(r)) in s.winners && s.winners[SlotOf(qs(r))] == r
    ensures k in s'.rows && k in s'.winners && s'.winners[k] == s.winners[k]
    ensures s'.rows[k] == s.rows[k] || (s.winners[k] == r && s.Phase(r).Completing?)
  {
    hide ResultIsRight, AnswerIsRight, IsProtected, HasStarted;
    if IsRecording(qs, s, s', r) {
    } else if IsFilling(qs, s, s', r) {
    } else if IsInsertion(qs, s, s', r) {
    }
  }

  lemma StepKeepsSettled(qs: Requests, s: State, r: RequestId, e: Event, k: Slot, body: Body)
    requires Inv(qs, s) && Settled(s, k, body)
    ensures Settled(Step(qs, s, r, e), k, body) && Step(qs, s, r, e).rows[k] == s.rows[k]
  {
    assert RowIsRight(qs, s, k);
    hide Step;
    StepKeepsRow(qs, s, r, e, k);
  }

  lemma {:induction false} RunKeepsSettled(qs: Requests, s: State, turns: seq<Turn>, k: Slot, body: Body)
    requires Inv(qs, s) && Settled(s, k, body)
    ensures Settled(Run(qs, s, turns), k, body) && Run(qs, s, turns).rows[k] == s.rows[k]
  {
    if turns != [] {
      var init, last := turns[..|turns| - 1], turns[|turns| - 1];
      RunKeepsSettled(qs, s, init, k, body);
      RunKeepsInv(qs, s, init);
      StepKeepsSettled(qs, Run(qs, s, init), last.request, last.event, k, body);
    }
  }

  /** Once a key is settled, every later request for it whose look-up succeeds is replayed, or refused for its other hash. */
  lemma SettledKeysReplay(qs: Requests, s: State, turns: seq<Turn>, r: RequestId, e: Event, body: Body)
    requires Inv(qs, s) && qs(r).key.Some? && |qs(r).key.value| > 0
    requires Settled(s, Slot(qs(r).scope, qs(r).key.value), body)
    requires Run(qs, s, turns).Phase(r) == Arrived && e != StoreThrows
    ensures Step(qs, Run(qs, s, turns), r, e).Phase(r)
         == Done(if s.rows[Slot(qs(r).scope, qs(r).key.value)].requestHash == qs(r).requestHash then Replayed(body) else ConflictOtherBody)
  {
    RunKeepsSettled(qs, s, turns, Slot(qs(r).scope, qs(r).key.value), body);
  }

  /** The key is stuck: reserved, without a response, and its winner has finished. */
  ghost predicate Stuck(s: State, k: Slot) {
    k in s.rows && k in s.winners && s.rows[k].response == None && s.Phase(s.winners[k]).Done?
  }

  lemma FinishedStays(qs: Requests, s: State, s': State, r: RequestId, w: RequestId)
    requires IsStep(qs, s, s', r) && s.Phase(w).Done?
    ensures s'.Phase(w) == s.Phase(w)
  {
    hide ResultIsRight, AnswerIsRight, IsProtected, HasStarted;
    if IsRecording(qs, s, s', r) {
    } else if IsFilling(qs, s, s', r) {
    } else if IsInsertion(qs, s, s', r) {
    }
  }

  lemma StepKeepsStuck(qs: Requests, s: State, r: RequestId, e: Event, k: Slot)
    requires Inv(qs, s) && Stuck(s, k)
    ensures Stuck(Step(qs, s, r, e), k) && Step(qs, s, r, e).rows[k] == s.rows[k]
  {
    hide Step, IsStep;
    StepKeepsRow(qs, s, r, e, k);
    StepIsStep(qs, s, r, e);
    FinishedStays(qs, s, Step(qs, s, r, e), r, s.winners[k]);
  }

  lemma {:induction false} RunKeepsStuck(qs: Requests, s: State, turns: seq<Turn>, k: Slot)
    requires Inv(qs, s) && Stuck(s, k)
    ensures Stuck(Run(qs, s, turns), k) && Run(qs, s, turns).rows[k] == s.rows[k]
  {
    if turns != [] {
      var init, last := turns[..|turns| - 1], turns[|turns| - 1];
      RunKeepsStuck(qs, s, init, k);
      RunKeepsInv(qs, s, init);
      StepKeepsStuck(qs, Run(qs, s, init), last.request, last.event, k);
    }
  }

  // ----- stuck keys -----

  /** Who reserved a stuck key either had a handler that threw, or lost its response to a store failure after the handler returned. */
  lemma StuckMeans(qs: Requests, s: State, k: Slot)
    requires Inv(qs, s) && k in s.rows
    ensures k in s.winners
    ensures var w := s.winners[k];
      Stuck(s, k) <==> s.rows[k].response == None && (s.Phase(w) == Done(HandlerFailed) || s.Phase(w) == Done(StoreFailed))
    ensures var w := s.winners[k];
      Stuck(s, k) && s.Phase(w) == Done(StoreFailed) ==> w in s.starts && w in s.results
  {
    assert RowIsRight(qs, s, k);
    var w := s.winners[k];
    assert ResultIsRight(qs, s, w);
  }

  /** Once a key is stuck no request for it is ever answered, neither with a result of its own nor with a replay. */
  lemma StuckKeyNeverAnswers(qs: Requests, s: State, k: Slot, turns: seq<Turn>, r: RequestId, body: Body)
    requires Inv(qs, s) && Stuck(s, k) && qs(r).scope == k.scope && qs(r).key == Some(k.key)
    ensures Run(qs, s, turns).Phase(r) != Done(Returned(body)) && Run(qs, s, turns).Phase(r) != Done(Replayed(body))
  {
    RunKeepsInv(qs, s, turns);
    RunKeepsStuck(qs, s, turns, k);
    hide Inv, Run;
    InvFacts(qs, Run(qs, s, turns), r);
  }

  /** Every request that comes to a stuck key is refused: as in flight, which invites a retry, or for its other hash. */
  lemma StuckKeyRefuses(qs: Requests, s: State, k: Slot, turns: seq<Turn>, r: RequestId, e: Event)
    requires Inv(qs, s) && Stuck(s, k) && qs(r).scope == k.scope && qs(r).key == Some(k.key)
    requires Run(qs, s, turns).Phase(r) == Arrived && e != StoreThrows
    ensures Step(qs, Run(qs, s, turns), r, e).Phase(r)
         == Done(if s.rows[k].requestHash == qs(r).requestHash then ConflictInFlight else ConflictOtherBody)
  {
    RunKeepsStuck(qs, s, turns, k);
  }

  lemma RunFirst(qs: Requests, s: State, t: Turn, turns: seq<Turn>)
    ensures Run(qs, s, [t] + turns) == Run(qs, Step(qs, s, t.request, t.event), turns)
  {
    hide Step;
    if turns == [] {
      assert [t] + turns == [t] && [t][..0] == [];
    } else {
      var init := turns[..|turns| - 1];
      assert ([t] + turns)[..|turns|] == [t] + init;
      RunFirst(qs, s, t, init);
    }
  }

  /** How many more turns the request that reserved the key needs to record a response. */
  function TurnsLeft(p: Phase): nat {
    match p
    case Reserved => 4
    case Running => 3
    case Finding(_) => 2
    case Completing(_) => 1
    case _ => 0
  }

  /** The next turn towards a response. */
  function NextTurn(w: RequestId, p: Phase): Turn {
    Turn(w, if p.Running? then HandlerReturns([]) else Proceed)
  }

  lemma NextTurnGetsNearer(qs: Requests, s: State, k: Slot)
    requires Inv(qs, s) && k in s.rows && s.rows[k].response == None && !Stuck(s, k)
    ensures k in s.winners && TurnsLeft(s.Phase(s.winners[k])) > 0
    ensures var w := s.winners[k];
      var t := NextTurn(w, s.Phase(w));
      var s' := Step(qs, s, t.request, t.event);
      && k in s'.rows && k in s'.winners && s'.winners[k] == w
      && TurnsLeft(s'.Phase(w)) == TurnsLeft(s.Phase(w)) - 1
      && (s'.rows[k].response == None <==> TurnsLeft(s'.Phase(w)) > 0)
  {
    assert RowIsRight(qs, s, k);
    var w := s.winners[k];
    assert ResultIsRight(qs, s, w);
    hide Inv, StartsAreRight, RowsAreRight;
  }

  lemma SettledAtOnce(qs: Requests, s: State, k: Slot)
    requires k in s.rows && s.rows[k].response.Some?
    ensures Settled(Run(qs, s, []), k, s.rows[k].response.value)
  {}

  /** A key that is not stuck can still be settled: let only the request that reserved it run on. */
  lemma {:induction false} UnstuckCanSettle(qs: Requests, s: State, k: Slot) returns (turns: seq<Turn>, body: Body)
    requires Inv(qs, s) && k in s.rows && s.rows[k].response == None && !Stuck(s, k)
    ensures Settled(Run(qs, s, turns), k, body)
    decreases if k in s.winners then TurnsLeft(s.Phase(s.winners[k])) else 0
  {
    NextTurnGetsNearer(qs, s, k);
    var t := NextTurn(s.winners[k], s.Phase(s.winners[k]));
    var s' := Step(qs, s, t.request, t.event);
    StepKeepsInv(qs, s, t.request, t.event);
    assert TurnsLeft(s'.Phase(s'.winners[k])) > 0 ==> !Stuck(s', k);
    hide Inv, Step, TurnsLeft, NextTurn, Run;
    if s'.rows[k].response == None {
      turns, body := UnstuckCanSettle(qs, s', k);
    } else {
      SettledAtOnce(qs, s', k);
      turns, body := [], s'.rows[k].response.value;
    }
    RunFirst(qs, s, t, turns);
    turns := [t] + turns;
  }

  /** A reserved key is stuck exactly when no run whatever gives it a response. */
  lemma StuckIffNeverSettled(qs: Requests, s: State, k: Slot)
    requires Inv(qs, s) && k in s.rows && s.rows[k].response == None
    ensures Stuck(s, k) <==> forall turns, body :: !Settled(Run(qs, s, turns), k, body)
  {
    hide Inv, Run;
    if Stuck(s, k) {
      forall turns, body ensures !Settled(Run(qs, s, turns), k, body) {
        RunKeepsStuck(qs, s, turns, k);
      }
    } else {
      var turns, body := UnstuckCanSettle(qs, s, k);
    }
  }

  /** The first cause: the handler throws. */
  lemma FailedHandlerBlocksItsKey(qs: Requests, s: State, w: RequestId, turns: seq<Turn>, r: RequestId, e: Event)
    requires Inv(qs, s) && qs(w).key.Some? && |qs(w).key.value| > 0 && s.Phase(w) == Done(HandlerFailed)
    requires qs(r).scope == qs(w).scope && qs(r).key == qs(w).key
    requires Run(qs, s, turns).Phase(r) == Arrived && e != StoreThrows
    ensures Step(qs, Run(qs, s, turns), r, e).Phase(r)
         == Done(if qs(w).requestHash == qs(r).requestHash then ConflictInFlight else ConflictOtherBody)
  {
    var k := SlotOf(qs(w));
    assert HoldsSlot(s.Phase(w));
    assert RowIsRight(qs, s, k);
    StuckKeyRefuses(qs, s, k, turns, r, e);
  }

  /** The second cause: the handler has returned, and a store failure keeps its response from being recorded. */
  lemma LostResponseBlocksItsKey(qs: Requests, s: State, w: RequestId, turns: seq<Turn>, r: RequestId, e: Event)
    requires Inv(qs, s) && qs(w).key.Some? && |qs(w).key.value| > 0 && s.Phase(w) == Done(StoreFailed) && w in s.starts
    requires qs(r).scope == qs(w).scope && qs(r).key == qs(w).key
    requires Run(qs, s, turns).Phase(r) == Arrived && e != StoreThrows
    ensures w in s.results
    ensures Step(qs, Run(qs, s, turns), r, e).Phase(r)
         == Done(if qs(w).requestHash == qs(r).requestHash then ConflictInFlight else ConflictOtherBody)
  {
    var k := SlotOf(qs(w));
    assert k in s.winners && s.winners[k] == w;
    assert RowIsRight(qs, s, k);
    StuckKeyRefuses(qs, s, k, turns, r, e);
  }

  // ----- both causes do occur -----

  /** The turns by which a first request comes to run its handler. */
  function FirstTurns(w: RequestId): seq<Turn> {
    [Turn(w, Proceed), Turn(w, Proceed), Turn(w, Proceed)]
  }

  lemma FirstRequestRuns(qs: Requests, w: RequestId)
    requires qs(w).key.Some? && |qs(w).key.value| > 0
    ensures var s := Run(qs, INITIAL, FirstTurns(w));
      && s.Phase(w) == Running && Slot(qs(w).scope, qs(w).key.value) in s.rows && s.rows[Slot(qs(w).scope, qs(w).key.value)].response == None
      && Slot(qs(w).scope, qs(w).key.value) in s.winners && s.winners[Slot(qs(w).scope, qs(w).key.value)] == w
  {
    var t := Turn(w, Proceed);
    var s1 := Step(qs, INITIAL, w, Proceed);
    var s2 := Step(qs, s1, w, Proceed);
    assert s1.Phase(w) == Reserving && s2.Phase(w) == Reserved;
    RunFirst(qs, INITIAL, t, [t, t]);
    RunFirst(qs, s1, t, [t]);
    RunFirst(qs, s2, t, []);
    assert [t] + [t, t] == FirstTurns(w) && [t] + [t] == [t, t] && [t] + [] == [t];
  }

  lemma RunLast(qs: Requests, s: State, turns: seq<Turn>, t: Turn)
    ensures Run(qs, s, turns + [t]) == Step(qs, Run(qs, s, turns), t.request, t.event)
  {
    assert (turns + [t])[..|turns|] == turns;
  }

  /** The very first request whose handler throws leaves its key stuck. */
  lemma ThrowingHandlerSticks(qs: Requests, w: RequestId)
    requires qs(w).key.Some? && |qs(w).key.value| > 0
    ensures var s := Run(qs, INITIAL, FirstTurns(w) + [Turn(w, HandlerThrows)]);
      s.Phase(w) == Done(HandlerFailed) && Stuck(s, Slot(qs(w).scope, qs(w).key.value))
  {
    FirstRequestRuns(qs, w);
    hide Run;
    RunLast(qs, INITIAL, FirstTurns(w), Turn(w, HandlerThrows));
  }

  lemma HandlerReturned(qs: Requests, w: RequestId, body: Body)
    requires qs(w).key.Some? && |qs(w).key.value| > 0
    ensures var s := Run(qs, INITIAL, FirstTurns(w) + [Turn(w, HandlerReturns(body))]);
      && s.Phase(w) == Finding(body) && Slot(qs(w).scope, qs(w).key.value) in s.rows && s.rows[Slot(qs(w).scope, qs(w).key.value)].response == None
      && Slot(qs(w).scope, qs(w).key.value) in s.winners && s.winners[Slot(qs(w).scope, qs(w).key.value)] == w && w in s.results && s.results[w] == body
  {
    FirstRequestRuns(qs, w);
    hide Run;
    RunLast(qs, INITIAL, FirstTurns(w), Turn(w, HandlerReturns(body)));
  }

  /** So does one whose handler returns, when the second look-up throws. */
  lemma FailedLookUpSticks(qs: Requests, w: RequestId, body: Body)
    requires qs(w).key.Some? && |qs(w).key.value| > 0
    ensures var s := Run(qs, INITIAL, FirstTurns(w) + [Turn(w, HandlerReturns(body))] + [Turn(w, StoreThrows)]);
      s.Phase(w) == Done(StoreFailed) && w in s.results && s.results[w] == body && Stuck(s, Slot(qs(w).scope, qs(w).key.value))
  {
    HandlerReturned(qs, w, body);
    hide Run;
    RunLast(qs, INITIAL, FirstTurns(w) + [Turn(w, HandlerReturns(body))], Turn(w, StoreThrows));
  }

  /** And so does one whose handler returns, when recording the response throws. */
  lemma FailedRecordingSticks(qs: Requests, w: RequestId, body: Body)
    requires qs(w).key.Some? && |qs(w).key.value| > 0
    ensures var s := Run(qs, INITIAL, FirstTurns(w) + [Turn(w, HandlerReturns(body))] + [Turn(w, Proceed)] + [Turn(w, StoreThrows)]);
      s.Phase(w) == Done(StoreFailed) && w in s.results && s.results[w] == body && Stuck(s, Slot(qs(w).scope, qs(w).key.value))
  {
    HandlerReturned(qs, w, body);
    hide Run;
    var turns := FirstTurns(w) + [Turn(w, HandlerReturns(body))];
    RunLast(qs, INITIAL, turns, Turn(w, Proceed));
    RunLast(qs, INITIAL, turns + [Turn(w, Proceed)], Turn(w, StoreThrows));
  }

  // ----- requests of other keys, and requests without one -----

  /** The row, if there is one. */
  function RowAt(s: State, k: Slot): Option<Row> {
    if k in s.rows then Some(s.rows[k]) else None
  }

  /** In every state a step leaves alone every row but the one of its request's scope and key, if that is not empty. */
  lemma OtherRowsStay(qs: Requests, s: State, r: RequestId, e: Event, k: Slot)
    requires qs(r).scope != k.scope || qs(r).key != Some(k.key) || |k.key| == 0
    ensures RowAt(Step(qs, s, r, e), k) == RowAt(s, k)
  {
    if IsProtected(qs(r)) {
      assert SlotOf(qs(r)) != k;
      OtherRowStays(qs, s, r, e, k);
    } else {
      NoRowChanges(qs, s, r, e);
    }
  }

  lemma OtherRowStays(qs: Requests, s: State, r: RequestId, e: Event, k: Slot)
    requires IsProtected(qs(r)) && SlotOf(qs(r)) != k
    ensures RowAt(Step(qs, s, r, e), k) == RowAt(s, k)
  {
    hide IsProtected, SlotOf, AnswerFor;
  }

  lemma NoRowChanges(qs: Requests, s: State, r: RequestId, e: Event)
    requires !IsProtected(qs(r))
    ensures Step(qs, s, r, e).rows == s.rows
  {
    hide IsProtected, AnswerFor;
  }

  /** Nor does it look at any other: with its own row alike, the request goes on alike and leaves its row alike. */
  lemma OtherRowsAreNotRead(qs: Requests, s: State, t: State, r: RequestId, e: Event)
    requires s.Phase(r) == t.Phase(r)
    requires qs(r).key.Some? ==> RowAt(s, Slot(qs(r).scope, qs(r).key.value)) == RowAt(t, Slot(qs(r).scope, qs(r).key.value))
    ensures Step(qs, s, r, e).Phase(r) == Step(qs, t, r, e).Phase(r)
    ensures qs(r).key.Some? ==>
      RowAt(Step(qs, s, r, e), Slot(qs(r).scope, qs(r).key.value)) == RowAt(Step(qs, t, r, e), Slot(qs(r).scope, qs(r).key.value))
  {
    if IsProtected(qs(r)) {
      OwnRowDecides(qs, s, t, r, e);
    } else {
      NoRowChanges(qs, s, r, e);
      NoRowChanges(qs, t, r, e);
      UnprotectedDecides(qs, s, t, r, e);
    }
    hide Step;
  }

  lemma OwnRowDecides(qs: Requests, s: State, t: State, r: RequestId, e: Event)
    requires IsProtected(qs(r)) && s.Phase(r) == t.Phase(r) && RowAt(s, SlotOf(qs(r))) == RowAt(t, SlotOf(qs(r)))
    ensures Step(qs, s, r, e).Phase(r) == Step(qs, t, r, e).Phase(r)
    ensures RowAt(Step(qs, s, r, e), SlotOf(qs(r))) == RowAt(Step(qs, t, r, e), SlotOf(qs(r)))
  {
    hide IsProtected, SlotOf, AnswerFor;
    match s.Phase(r)
    case Arrived =>
    case Reserving =>
    case Finding(_) =>
    case Completing(_) =>
    case _ =>
  }

  lemma UnprotectedDecides(qs: Requests, s: State, t: State, r: RequestId, e: Event)
    requires !IsProtected(qs(r)) && s.Phase(r) == t.Phase(r)
    ensures Step(qs, s, r, e).Phase(r) == Step(qs, t, r, e).Phase(r)
  {
    hide IsProtected, SlotOf, AnswerFor;
  }

  /** Every row was inserted by a request of its scope and key and carries that request's hash; so requests of other keys share none. */
  lemma RowsBelongToTheirKeys(qs: Requests, turns: seq<Turn>, k: Slot)
    requires k in Run(qs, INITIAL, turns).rows
    ensures var s := Run(qs, INITIAL, turns);
            && |k.key| > 0 && k in s.winners
            && qs(s.winners[k]).scope == k.scope && qs(s.winners[k]).key == Some(k.key)
            && qs(s.winners[k]).requestHash == s.rows[k].requestHash
  {
    InitialInv(qs);
    RunKeepsInv(qs, INITIAL, turns);
    var s := Run(qs, INITIAL, turns);
    assert RowIsRight(qs, s, k);
  }

  /** A request without a key, or with an empty one, starts its handler at once, whatever the table holds. */
  lemma UnprotectedStartsAtOnce(qs: Requests, s: State, r: RequestId, e: Event)
    requires qs(r).key == None || qs(r).key == Some([])
    requires s.Phase(r) == Arrived
    ensures var s' := Step(qs, s, r, e);
            s'.Phase(r) == Running && s'.starts == s.starts + [r] && s'.rows == s.rows
  {}

  /** Over a whole run it only waits for its handler, whose result is its answer; it never touches the table. */
  lemma UnprotectedJustRuns(qs: Requests, turns: seq<Turn>, r: RequestId, e: Event)
    requires qs(r).key == None || qs(r).key == Some([])
    ensures var s := Run(qs, INITIAL, turns);
            && Step(qs, s, r, e).rows == s.rows
            && match s.Phase(r)
               case Arrived => r !in s.starts
               case Running => r in s.starts
               case Done(Returned(body)) => r in s.starts && r in s.results && s.results[r] == body
               case Done(HandlerFailed) => r in s.starts
               case _ => false
  {
    InitialInv(qs);
    RunKeepsInv(qs, INITIAL, turns);
    UnprotectedPhases(qs, turns, r);
    var s := Run(qs, INITIAL, turns);
    hide Run, Inv, Step;
    NoRowChanges(qs, s, r, e);
    InvFacts(qs, s, r);
  }

  /** Where a request without a key can be. */
  predicate IsBare(p: Phase) {
    p.Arrived? || p.Running? || (p.Done? && (p.outcome.Returned? || p.outcome.HandlerFailed?))
  }

  lemma UnprotectedStep(qs: Requests, s: State, t: Turn, r: RequestId)
    requires qs(r).key == None || qs(r).key == Some([])
    requires IsBare(s.Phase(r))
    ensures IsBare(Step(qs, s, t.request, t.event).Phase(r))
  {
    if t.request != r {
      OthersStay(qs, s, t, r);
    }
  }

  lemma OthersStay(qs: Requests, s: State, t: Turn, r: RequestId)
    requires t.request != r
    ensures Step(qs, s, t.request, t.event).Phase(r) == s.Phase(r)
  {
    hide IsProtected, SlotOf, AnswerFor;
  }

  lemma {:induction false} UnprotectedPhases(qs: Requests, turns: seq<Turn>, r: RequestId)
    requires qs(r).key == None || qs(r).key == Some([])
    ensures IsBare(Run(qs, INITIAL, turns).Phase(r))
  {
    hide Step;
    if turns != [] {
      var init := turns[..|turns| - 1];
      UnprotectedPhases(qs, init, r);
      UnprotectedStep(qs, Run(qs, INITIAL, init), turns[|turns| - 1], r);
    }
  }

  /** A keyed request never starts its handler in its first step: it looks for its row first. */
  lemma ProtectedLooksFirst(qs: Requests, s: State, r: RequestId, e: Event)
    requires qs(r).key.Some? && |qs(r).key.value| > 0 && s.Phase(r) == Arrived
    ensures var s' := Step(qs, s, r, e);
            var row := RowAt(s, Slot(qs(r).scope, qs(r).key.value));
            && s'.starts == s.starts && s'.rows == s.rows
            && s'.Phase(r) ==
               if e == StoreThrows then Done(StoreFailed)
               else if row == None then Reserving
               else if row.value.requestHash != qs(r).requestHash then Done(ConflictOtherBody)
               else if row.value.response == None then Done(ConflictInFlight)
               else Done(Replayed(row.value.response.value))
  {}
}
