/**
 One request's run through withIdempotency, statement by statement, against the
 shared reservation table. Every statement is proved to change the request's
 position and the table as the protocol's step does, so that what is proved of
 the protocol holds of any interleaving of such runs.
 */
module IdempotencyService {
  import opened Results
  import opened Text
  import opened IdempotencyProtocol

  /** The text whose digest identifies a request: method, path and serialized body. */
  function HashInput(httpMethod: Text, path: Text, body: Text): Text {
    httpMethod + [0x20] + path + [0x0A] + body
  }

  function HashRequest(sha256: Text -> Text, httpMethod: Text, path: Text, body: Text): Text {
    sha256(HashInput(httpMethod, path, body))
  }

  predicate NoUnit(t: Text, u: CodeUnit) {
    u !in t
  }

  /** Without a space in the method or a line feed in the path, different requests are hashed over different texts. */
  lemma HashInputIsUnique(m: Text, p: Text, b: Text, m': Text, p': Text, b': Text)
    requires NoUnit(m, 0x20) && NoUnit(m', 0x20) && NoUnit(p, 0x0A) && NoUnit(p', 0x0A)
    ensures HashInput(m, p, b) == HashInput(m', p', b') <==> m == m' && p == p' && b == b'
  {
    if HashInput(m, p, b) == HashInput(m', p', b') {
      assert HashInput(m, p, b) == m + ([0x20] + (p + ([0x0A] + b)));
      assert HashInput(m', p', b') == m' + ([0x20] + (p' + ([0x0A] + b')));
      SplitAtFirst(m, p + ([0x0A] + b), m', p' + ([0x0A] + b'), 0x20);
      SplitAtFirst(p, b, p', b', 0x0A);
    }
  }

  /** Two requests have one hash exactly when they are the same request or their texts collide in the digest. */
  lemma SameHashIff(sha256: Text -> Text, m: Text, p: Text, b: Text, m': Text, p': Text, b': Text)
    requires NoUnit(m, 0x20) && NoUnit(m', 0x20) && NoUnit(p, 0x0A) && NoUnit(p', 0x0A)
    ensures HashRequest(sha256, m, p, b) == HashRequest(sha256, m', p', b') <==>
      || (m == m' && p == p' && b == b')
      || (HashInput(m, p, b) != HashInput(m', p', b') && sha256(HashInput(m, p, b)) == sha256(HashInput(m', p', b')))
  {
    HashInputIsUnique(m, p, b, m', p', b');
  }

  lemma SplitAtFirst(s: Text, x: Text, t: Text, y: Text, u: CodeUnit)
    requires NoUnit(s, u) && NoUnit(t, u) && s + ([u] + x) == t + ([u] + y)
    ensures s == t && x == y
  {
    var whole := s + ([u] + x);
    NoShorter(s, x, t, y, u);
    NoShorter(t, y, s, x, u);
    assert s == whole[..|s|] && t == whole[..|t|];
    assert x == whole[|s| + 1..] && y == whole[|t| + 1..];
  }

  lemma NoShorter(s: Text, x: Text, t: Text, y: Text, u: CodeUnit)
    requires NoUnit(t, u) && s + ([u] + x) == t + ([u] + y)
    ensures |s| >= |t|
  {
    var whole := t + ([u] + y);
    assert whole[|s|] == u;
  }

  class ReservationTable {
    var rows: map<Slot, Row>

    constructor ()
      ensures rows == map[]
    {
      rows := map[];
    }

    method Find(slot: Slot) returns (row: Option<Row>)
      ensures row == if slot in rows then Some(rows[slot]) else None
    {
      row := if slot in rows then Some(rows[slot]) else None;
    }

    /** Inserts a row without a response, unless the unique constraint on the key is violated. */
    method Reserve(slot: Slot, requestHash: Text) returns (unique: bool)
      modifies this
      ensures unique <==> slot !in old(rows)
      ensures rows == if unique then old(rows)[slot := Row(requestHash, None)] else old(rows)
    {
      unique := slot !in rows;
      if unique {
        rows := rows[slot := Row(requestHash, None)];
      }
    }

    method Complete(slot: Slot, body: Body) returns (found: bool)
      modifies this
      ensures found <==> slot in old(rows)
      ensures rows == if found then old(rows)[slot := old(rows)[slot].(response := Some(body))] else old(rows)
    {
      found := slot in rows;
      if found {
        rows := rows[slot := rows[slot].(response := Some(body))];
      }
    }
  }

  /** A request under way. */
  class RequestRun {
    const id: RequestId
    const request: Request
    var phase: Phase

    constructor (id: RequestId, request: Request)
      ensures this.id == id && this.request == request && phase == Arrived
    {
      this.id, this.request := id, request;
      phase := Arrived;
    }

    /** In every protocol state that shows this phase and this table, the protocol's step has the same effect on both. */
    twostate predicate FollowsProtocol(qs: Requests, table: ReservationTable, e: Event)
      reads this, table
    {
      forall s: State | s.Phase(id) == old(phase) && s.rows == old(table.rows) ::
        Step(qs, s, id, e).Phase(id) == phase && Step(qs, s, id, e).rows == table.rows
    }

    method Advance(qs: Requests, table: ReservationTable, e: Event)
      requires qs(id) == request
      requires phase.Reserving? || phase.Finding? || phase.Completing? ==> request.key.Some? && |request.key.value| > 0
      modifies this, table
      ensures FollowsProtocol(qs, table, e)
      ensures phase.Reserving? || phase.Finding? || phase.Completing? ==> request.key.Some? && |request.key.value| > 0
    {
      match phase
      case Arrived =>
        if request.key == None || |request.key.value| == 0 {
          phase := Running;
        } else if e.StoreThrows? {
          phase := Done(StoreFailed);
        } else {
          var existing := table.Find(Slot(request.scope, request.key.value));
          match existing
          case None => phase := Reserving;
          case Some(row) =>
            if row.requestHash != request.requestHash {
              phase := Done(ConflictOtherBody);
            } else if row.response.Some? {
              phase := Done(Replayed(row.response.value));
            } else {
              phase := Done(ConflictInFlight);
            }
        }
      case Reserving =>
        if e.StoreThrows? {
          phase := Done(StoreFailed);
        } else {
          var unique := table.Reserve(Slot(request.scope, request.key.value), request.requestHash);
          phase := if unique then Reserved else Done(ConflictInFlight);
        }
      case Reserved =>
        phase := Running;
      case Running =>
        match e {
          case HandlerReturns(body) => phase := if request.key == None || |request.key.value| == 0 then Done(Returned(body)) else Finding(body);
          case HandlerThrows => phase := Done(HandlerFailed);
          case _ =>
        }
      case Finding(result) =>
        if e.StoreThrows? {
          phase := Done(StoreFailed);
        } else {
          var reserved := table.Find(Slot(request.scope, request.key.value));
          phase := if reserved.Some? then Completing(result) else Done(Returned(result));
        }
      case Completing(result) =>
        if e.StoreThrows? {
          phase := Done(StoreFailed);
        } else {
          var found := table.Complete(Slot(request.scope, request.key.value), result);
          phase := if found then Done(Returned(result)) else Done(StoreFailed);
        }
      case Done(_) =>
    }
  }
}
