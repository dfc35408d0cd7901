/**
 The durable automation queue (packages/core/src/automation-store.ts): three tables with
 cascading foreign keys, idempotent submits, token-guarded receipts and pruning. Each
 transaction is atomic and transactions of all processes are serialised; the clock may be
 read before the transaction it decides.
 */
module AutomationStore {
  import opened Options
  import Sets
  import Utf8
  import opened AutomationTypes

  type Key = (Uuid, Outcome)

  /** The three tables. `statuses` and `receipts` reference `requests` and go with their row. */
  datatype Db = Db(requests: map<Uuid, Request>, statuses: map<Uuid, Status>, receipts: map<Key, Receipt>)

  // ------------------------------------------------------------------ reads

  predicate RequestRowOk(uuid: Uuid, r: Request) { r.uuid == uuid && RequestParses(r) }

  predicate StatusRowOk(uuid: Uuid, s: Status) { s.uuid == uuid && Timestamp(s.updatedAt) }

  predicate ReceiptRowOk(key: Key, r: Receipt) { r.uuid == key.0 && r.outcome == key.1 && Timestamp(r.createdAt) }

  /** `requests`, `statuses` and `resolutions` answer; otherwise each throws `corrupt-storage`. */
  predicate RequestsRead(db: Db) {
    |db.requests| <= REQUEST_MAX && forall u :: u in db.requests ==> RequestRowOk(u, db.requests[u])
  }

  predicate StatusesRead(db: Db) {
    |db.statuses| <= REQUEST_MAX && forall u :: u in db.statuses ==> StatusRowOk(u, db.statuses[u])
  }

  predicate ReceiptsRead(db: Db) {
    |db.receipts| <= 2 * REQUEST_MAX && forall k :: k in db.receipts ==> ReceiptRowOk(k, db.receipts[k])
  }

  /** `validate`: every table reads and every status and receipt names a known request. */
  predicate Validates(db: Db) {
    && RequestsRead(db) && StatusesRead(db) && ReceiptsRead(db)
    && (forall u :: u in db.statuses ==> u in db.requests)
    && (forall k :: k in db.receipts ==> k.0 in db.requests)
  }

  function RequireRequest(db: Db, uuid: Uuid): Result<Request> {
    if uuid !in db.requests then Err(UnknownRequest)
    else if !RequestRowOk(uuid, db.requests[uuid]) then Err(CorruptStorage)
    else Ok(db.requests[uuid])
  }

  /** One status row, when there is one. */
  function ReadStatus(db: Db, uuid: Uuid): Result<Option<Status>> {
    if uuid !in db.statuses then Ok(None)
    else if !StatusRowOk(uuid, db.statuses[uuid]) then Err(CorruptStorage)
    else Ok(Some(db.statuses[uuid]))
  }

  // ------------------------------------------------------------- transactions

  /** The transaction of `submit`, with the clock it reads inside. */
  function SubmitTx(db: Db, routine: string, slot: int, prompt: string, now: int): (Db, Result<Request>) {
    var proposed := Propose(routine, slot, prompt, now);
    if proposed.Err? then (db, proposed)
    else if !RequestsRead(db) then (db, Err(CorruptStorage))
    else
      var uuid := proposed.value.uuid;
      if uuid in db.requests then
        (db, if db.requests[uuid].prompt != prompt then Err(Conflict) else Ok(db.requests[uuid]))
      else if |db.requests| >= REQUEST_MAX then (db, Err(Full))
      else (db.(requests := db.requests[uuid := proposed.value]), proposed)
  }

  function SaveStatusTx(db: Db, status: Status): (Db, Result<()>) {
    if !Timestamp(status.updatedAt) then (db, Err(InvalidStatus))
    else
      var held := RequireRequest(db, status.uuid);
      if held.Err? then (db, Err(held.code))
      else (db.(statuses := db.statuses[status.uuid := status]), Ok(()))
  }

  /** `finish` checks the token before the transaction and again inside; `at` is its clock reading. */
  function FinishCheck(db: Db, uuid: Uuid, token: Uuid, at: int): Result<()> {
    if !Timestamp(at) then Err(InvalidResolution)
    else
      var status := ReadStatus(db, uuid);
      if status.Err? then Err(status.code)
      else if status.value.None? then Err(UnknownRequest)
      else if status.value.value.token != token then Err(InvalidToken)
      else Ok(())
  }

  function FinishTx(db: Db, uuid: Uuid, token: Uuid, outcome: Outcome, at: int): (Db, Result<Receipt>) {
    var held, status := RequireRequest(db, uuid), ReadStatus(db, uuid);
    if held.Err? then (db, Err(held.code))
    else if status.Err? then (db, Err(status.code))
    else if status.value.None? || status.value.value.token != token then (db, Err(InvalidToken))
    else if (uuid, outcome) in db.receipts then
      var found := db.receipts[(uuid, outcome)];
      (db, if !ReceiptRowOk((uuid, outcome), found) then Err(CorruptStorage)
          else if found.token != token then Err(InvalidToken) else Ok(found))
    else
      var receipt := Receipt(uuid, token, outcome, at);
      (db.(receipts := db.receipts[(uuid, outcome) := receipt]), Ok(receipt))
  }

  predicate Expired(db: Db, uuid: Uuid, cutoff: int) {
    && uuid in db.requests && uuid in db.statuses
    && Terminal(db.statuses[uuid].state) && db.requests[uuid].slot < cutoff && db.statuses[uuid].updatedAt < cutoff
  }

  function ExpiredRequests(db: Db, cutoff: int): set<Uuid> {
    set u | u in db.requests && Expired(db, u, cutoff)
  }

  /** Deleting requests takes their statuses and receipts along. */
  function Delete(db: Db, gone: set<Uuid>): Db {
    Db(db.requests - gone, db.statuses - gone, map k | k in db.receipts && k.0 !in gone :: db.receipts[k])
  }

  function PruneTx(db: Db, cutoff: int): (Db, Result<nat>) {
    if !Validates(db) then (db, Err(CorruptStorage))
    else (Delete(db, ExpiredRequests(db, cutoff)), Ok(|ExpiredRequests(db, cutoff)|))
  }

  /** What a submit proposes, and the errors in their order, with every bound written out. */
  lemma ProposeSpelled(routine: string, slot: int, prompt: string, now: int)
    ensures Propose(routine, slot, prompt, now) ==
              if !(1 <= |routine| <= 64 && 'a' <= routine[0] <= 'z'
                     && forall c :: c in routine ==>
                         'a' <= c <= 'z' || '0' <= c <= '9' || c == '-') then Err(InvalidRoutine)
              else if !(0 <= now <= 8640000000000000 && 0 <= slot <= 8640000000000000
                          && now - 604800000 <= slot <= now + 300000) then Err(InvalidSlot)
              else if |Utf8.Encode(prompt)| > 65536 || JsonLength(prompt) > 131074 then Err(InvalidPrompt)
              else Ok(Request(routine, slot, RequestUuid(routine, slot), now, prompt, Sha256(prompt)))
  {}

  /** What the transaction of a submit answers and leaves in tables that read. */
  lemma SubmitSpelled(db: Db, routine: string, slot: int, prompt: string, now: int)
    requires RequestsRead(db)
    ensures var key, (next, r) := RequestUuid(routine, slot), SubmitTx(db, routine, slot, prompt, now);
            && r == (
              if !(1 <= |routine| <= 64 && 'a' <= routine[0] <= 'z'
                     && forall c :: c in routine ==>
                         'a' <= c <= 'z' || '0' <= c <= '9' || c == '-') then Err(InvalidRoutine)
              else if !(0 <= now <= 8640000000000000 && 0 <= slot <= 8640000000000000
                          && now - 604800000 <= slot <= now + 300000) then Err(InvalidSlot)
              else if |Utf8.Encode(prompt)| > 65536 || JsonLength(prompt) > 131074 then Err(InvalidPrompt)
              else if key in db.requests then
                (if db.requests[key].prompt == prompt then Ok(db.requests[key]) else Err(Conflict))
              else if |db.requests| >= 512 then Err(Full)
              else Ok(Request(routine, slot, key, now, prompt, Sha256(prompt))))
            && next == (if r.Ok? && key !in db.requests then Db(db.requests[key := r.value], db.statuses, db.receipts)
                        else db)
  {
    ProposeSpelled(routine, slot, prompt, now);
    hide RequestRowOk, RoutineValid, PromptValid, JsonLength;
  }

  // ------------------------------------------------------------------ the store

  /** The check of a finish outside its transaction. */
  lemma CheckSpelled(db: Db, uuid: Uuid, token: Uuid, at: int)
    requires Validates(db)
    ensures var check := FinishCheck(db, uuid, token, at);
            if !(0 <= at <= 8640000000000000) then check == Err(InvalidResolution)
            else if uuid !in db.statuses then check == Err(UnknownRequest)
            else if db.statuses[uuid].token != token then check == Err(InvalidToken) else check == Ok(())
  {
    hide RequestRowOk, ReceiptRowOk;
  }

  /** What the transaction of a finish answers and stores. */
  lemma FinishSpelled(db: Db, uuid: Uuid, token: Uuid, outcome: Outcome, at: int)
    requires Validates(db)
    ensures var key, (next, r) := (uuid, outcome), FinishTx(db, uuid, token, outcome, at);
            && r == (if uuid !in db.requests then Err(UnknownRequest)
                     else if uuid !in db.statuses || db.statuses[uuid].token != token then Err(InvalidToken)
                     else if key !in db.receipts then Ok(Receipt(uuid, token, outcome, at))
                     else if db.receipts[key].token != token then Err(InvalidToken) else Ok(db.receipts[key]))
            && next.requests == db.requests && next.statuses == db.statuses
            && next.receipts == (if r.Ok? && key !in db.receipts then db.receipts[key := r.value] else db.receipts)
  {
    hide RequestParses;
  }

  class Store {
    var requests: map<Uuid, Request>
    var statuses: map<Uuid, Status>
    var receipts: map<Key, Receipt>

    function Tables(): Db
      reads this
    {
      Db(requests, statuses, receipts)
    }

    constructor ()
      ensures Tables() == Db(map[], map[], map[])
    {
      requests, statuses, receipts := map[], map[], map[];
    }

    /** `first` and `second` are the two clock readings; both must accept the slot. */
    method Submit(routine: string, slot: int, prompt: string, first: int, second: int) returns (r: Result<Request>)
      modifies this
      ensures Propose(routine, slot, prompt, first).Err? ==>
          r == Propose(routine, slot, prompt, first) && Tables() == old(Tables())
      ensures Propose(routine, slot, prompt, first).Ok? ==>
          (Tables(), r) == SubmitTx(old(Tables()), routine, slot, prompt, second)
      ensures RequestsRead(old(Tables())) ==>
                var key, held := RequestUuid(routine, slot), old(requests);
                && r == (if !(1 <= |routine| <= 64 && 'a' <= routine[0] <= 'z'
                                && forall c :: c in routine ==>
                                    'a' <= c <= 'z' || '0' <= c <= '9' || c == '-') then Err(InvalidRoutine)
                         else if !(0 <= first <= 8640000000000000 && 0 <= slot <= 8640000000000000
                                     && first - 604800000 <= slot <= first + 300000) then Err(InvalidSlot)
                         else if |Utf8.Encode(prompt)| > 65536 || JsonLength(prompt) > 131074 then Err(InvalidPrompt)
                         else if !(0 <= second <= 8640000000000000 && second - 604800000 <= slot <= second + 300000)
                         then Err(InvalidSlot)
                         else if key in held then (if held[key].prompt == prompt then Ok(held[key]) else Err(Conflict))
                         else if |held| >= 512 then Err(Full)
                         else Ok(Request(routine, slot, key, second, prompt, Sha256(prompt))))
                && requests == (if r.Ok? && key !in held then held[key := r.value] else held)
                && statuses == old(statuses) && receipts == old(receipts)
    {
      if RequestsRead(Tables()) { SubmitSpelled(Tables(), routine, slot, prompt, second); }
      ProposeSpelled(routine, slot, prompt, first);
      hide RoutineValid, PromptValid, JsonLength, RequestRowOk;
      r := Propose(routine, slot, prompt, first);
      if r.Err? { return; }
      r := Propose(routine, slot, prompt, second);
      if r.Err? { return; }
      if !RequestsRead(Tables()) { return Err(CorruptStorage); }
      var uuid := r.value.uuid;
      if uuid in requests {
        return if requests[uuid].prompt != prompt then Err(Conflict) else Ok(requests[uuid]);
      }
      if |requests| >= REQUEST_MAX { return Err(Full); }
      requests := requests[uuid := r.value];
    }

    method SaveStatus(status: Status) returns (r: Result<()>)
      modifies this`statuses
      ensures (Tables(), r) == SaveStatusTx(old(Tables()), status)
      ensures RequestsRead(old(Tables())) ==>
                && r == (if !(0 <= status.updatedAt <= 8640000000000000) then Err(InvalidStatus)
                         else if status.uuid !in old(requests) then Err(UnknownRequest) else Ok(()))
                && statuses == (if r.Ok? then old(statuses)[status.uuid := status] else old(statuses))
    {
      hide RequestParses;
      if !Timestamp(status.updatedAt) { return Err(InvalidStatus); }
      var held := RequireRequest(Tables(), status.uuid);
      if held.Err? { return Err(held.code); }
      statuses := statuses[status.uuid := status];
      r := Ok(());
    }

    /** `between` is what other processes stored between the check outside and the transaction. */
    method Finish(uuid: Uuid, token: Uuid, outcome: Outcome, at: int, between: Option<Db>) returns (r: Result<Receipt>)
      modifies this
      ensures var check := FinishCheck(old(Tables()), uuid, token, at);
              && (check.Err? ==> r.Err? && r.code == check.code && Tables() == old(Tables()))
              && (check.Ok? ==> var seen := if between.Some? then between.value else old(Tables());
                                (Tables(), r) == FinishTx(seen, uuid, token, outcome, at))
      ensures Validates(old(Tables())) && (between.Some? ==> Validates(between.value)) ==>
                var key, seen := (uuid, outcome), if between.Some? then between.value else old(Tables());
                if !(0 <= at <= 8640000000000000) then r == Err(InvalidResolution)
                else if uuid !in old(statuses) then r == Err(UnknownRequest)
                else if old(statuses)[uuid].token != token then r == Err(InvalidToken)
                else
                  && r == (if uuid !in seen.requests then Err(UnknownRequest)
                           else if uuid !in seen.statuses || seen.statuses[uuid].token != token then Err(InvalidToken)
                           else if key !in seen.receipts then Ok(Receipt(uuid, token, outcome, at))
                           else if seen.receipts[key].token != token then Err(InvalidToken) else Ok(seen.receipts[key]))
                  && requests == seen.requests && statuses == seen.statuses
                  && receipts == (if r.Ok? && key !in seen.receipts then seen.receipts[key := r.value]
                      else seen.receipts)
    {
      if Validates(old(Tables())) { CheckSpelled(old(Tables()), uuid, token, at); }
      ghost var seen := if between.Some? then between.value else Tables();
      if Validates(seen) { FinishSpelled(seen, uuid, token, outcome, at); }
      hide Validates, RequestRowOk, StatusRowOk;
      var check := FinishCheck(Tables(), uuid, token, at);
      if check.Err? { return Err(check.code); }
      if between.Some? {
        requests, statuses, receipts := between.value.requests, between.value.statuses, between.value.receipts;
      }
      var held := RequireRequest(Tables(), uuid);
      if held.Err? { return Err(held.code); }
      var status := ReadStatus(Tables(), uuid);
      if status.Err? { return Err(status.code); }
      if status.value.None? || status.value.value.token != token { return Err(InvalidToken); }
      if (uuid, outcome) in receipts {
        var found := receipts[(uuid, outcome)];
        if !ReceiptRowOk((uuid, outcome), found) { return Err(CorruptStorage); }
        return if found.token != token then Err(InvalidToken) else Ok(found);
      }
      var receipt := Receipt(uuid, token, outcome, at);
      receipts := receipts[(uuid, outcome) := receipt];
      r := Ok(receipt);
    }

    /** One `DELETE`, with its cascade. */
    method DeleteRequest(uuid: Uuid)
      modifies this
      ensures Tables() == Delete(old(Tables()), {uuid})
    {
      requests, statuses := requests - {uuid}, statuses - {uuid};
      receipts := map k | k in receipts && k.0 !in {uuid} :: receipts[k];
    }

    /** `prune`: the first read only decides whether to write at all. */
    method Prune(at: int) returns (r: Result<nat>)
      modifies this
      ensures var safe := -9007199254740991 <= at - 604800000 <= 9007199254740991;
              && (!safe ==> r == Err(InvalidSlot) && Tables() == old(Tables()))
              && (safe && Validates(old(Tables())) ==> (Tables(), r) == PruneTx(old(Tables()), at - 604800000))
              && (safe && !(StatusesRead(old(Tables())) && RequestsRead(old(Tables()))) ==> r == Err(CorruptStorage))
      ensures !Validates(old(Tables())) ==> Tables() == old(Tables()) && (r.Ok? ==> r.value == 0)
    {
      var cutoff := at - RETENTION_MS;
      if cutoff < -SAFE_MAX || SAFE_MAX < cutoff { return Err(InvalidSlot); }
      if !StatusesRead(Tables()) || !RequestsRead(Tables()) { return Err(CorruptStorage); }
      var expired := ExpiredRequests(Tables(), cutoff);
      DeleteNothing(Tables());
      if expired == {} {
        return Ok(0);
      }
      if !Validates(Tables()) { return Err(CorruptStorage); }
      DeleteAll(expired);
      r := Ok(|expired|);
    }

    /** The delete loop, one `DELETE` for each expired request. */
    method DeleteAll(expired: set<Uuid>)
      modifies this
      ensures Tables() == Delete(old(Tables()), expired)
    {
      hide Delete;
      var left := expired;
      DeleteNothing(Tables());
      assert expired - left == {};
      while left != {}
        invariant left <= expired
        invariant Tables() == Delete(old(Tables()), expired - left)
        decreases left
      {
        var uuid :| uuid in left;
        ghost var was := expired - left;
        DeleteRequest(uuid);
        DeleteMore(old(Tables()), was, uuid);
        left := left - {uuid};
        assert expired - left == was + {uuid};
      }
      assert expired - left == expired;
    }
  }

  lemma DeleteNothing(db: Db)
    ensures Delete(db, {}) == db
  {
    assert db.requests - {} == db.requests && db.statuses - {} == db.statuses;
    assert Delete(db, {}).receipts == db.receipts;
  }

  lemma DeleteMore(db: Db, gone: set<Uuid>, uuid: Uuid)
    ensures Delete(Delete(db, gone), {uuid}) == Delete(db, gone + {uuid})
  {
    var twice, once := Delete(Delete(db, gone), {uuid}), Delete(db, gone + {uuid});
    assert twice.requests == once.requests && twice.statuses == once.statuses && twice.receipts == once.receipts;
  }

  // ------------------------------------------------------------- whole runs

  /** A committed transaction; `now` is the clock when it runs and `at` a reading made before. */
  datatype Tx =
    | Submit(routine: string, slot: int, prompt: string, now: int)
    | SaveStatus(status: Status, now: int)
    | Finish(uuid: Uuid, token: Uuid, outcome: Outcome, at: int, now: int)
    | Prune(at: int, now: int)

  /** What callers were told: every insertion, every accepted submit, every receipt handed out. */
  datatype History = History(db: Db, clock: int, inserted: seq<Uuid>, accepted: seq<Request>, receipts: seq<Receipt>)

  const EMPTY := History(Db(map[], map[], map[]), 0, [], [], [])

  predicate InOrder(h: History, tx: Tx) {
    h.clock <= tx.now && (tx.Finish? || tx.Prune? ==> tx.at <= tx.now) && (tx.Finish? ==> Timestamp(tx.at))
  }

  function Apply(h: History, tx: Tx): History {
    match tx
    case Submit(routine, slot, prompt, now) =>
      var (db, r) := SubmitTx(h.db, routine, slot, prompt, now);
      History(db, now,
              if db == h.db then h.inserted else h.inserted + [RequestUuid(routine, slot)],
              if r.Ok? then h.accepted + [r.value] else h.accepted,
              h.receipts)
    case SaveStatus(status, now) => h.(db := SaveStatusTx(h.db, status).0, clock := now)
    case Finish(uuid, token, outcome, at, now) =>
      var (db, r) := FinishTx(h.db, uuid, token, outcome, at);
      h.(db := db, clock := now, receipts := if r.Ok? then h.receipts + [r.value] else h.receipts)
    case Prune(at, now) => h.(db := PruneTx(h.db, at - RETENTION_MS).0, clock := now)
  }

  function ApplyAll(h: History, txs: seq<Tx>): Option<History>
    decreases |txs|
  {
    if txs == [] then Some(h)
    else if InOrder(h, txs[0]) then ApplyAll(Apply(h, txs[0]), txs[1..])
    else None
  }

  /** Transactions come in any order under a clock that does not go back, whatever was committed before. */
  lemma {:induction false} TransactionsGoOn(h: History, txs: seq<Tx>, tx: Tx)
    requires ApplyAll(h, txs).Some? && ApplyAll(h, txs).value.clock <= tx.now
    requires tx.Finish? || tx.Prune? ==> tx.at <= tx.now
    requires tx.Finish? ==> 0 <= tx.at <= 8640000000000000
    ensures ApplyAll(h, []) == Some(h)
    ensures ApplyAll(h, txs + [tx]) == Some(Apply(ApplyAll(h, txs).value, tx))
    decreases |txs|
  {
    hide Apply;
    if txs == [] {
      assert ([] + [tx])[1..] == [];
    } else {
      assert (txs + [tx])[1..] == txs[1..] + [tx];
      TransactionsGoOn(Apply(h, txs[0]), txs[1..], tx);
    }
  }

  // ------------------------------------------------------------ the invariants

  /** A slot so old that `Propose` refuses it from now on. */
  predicate Past(h: History, uuid: Uuid) {
    uuid.RequestUuid? && uuid.slot < h.clock - RETENTION_MS
  }

  ghost predicate Sound(db: Db) {
    && |db.requests| <= REQUEST_MAX
    && (forall u :: u in db.requests ==> RequestRowOk(u, db.requests[u]))
    && (forall u :: u in db.statuses ==> u in db.requests && StatusRowOk(u, db.statuses[u]))
    && (forall k :: k in db.receipts ==> k.0 in db.requests && ReceiptRowOk(k, db.receipts[k]))
  }

  /** Once inserted, a request is held or its slot is past. */
  ghost predicate HeldOrPast(h: History, uuid: Uuid) {
    uuid in h.db.requests || Past(h, uuid)
  }

  /** An accepted request is still held unchanged, or past. */
  ghost predicate AcceptedStands(h: History, r: Request) {
    r.uuid == RequestUuid(r.routine, r.slot) && if r.uuid in h.db.requests then h.db.requests[r.uuid] == r
        else Past(h, r.uuid)
  }

  /** A receipt handed out is still stored unchanged, or its request is past. */
  ghost predicate ReceiptStands(h: History, r: Receipt) {
    if r.uuid in h.db.requests then (r.uuid, r.outcome) in h.db.receipts && h.db.receipts[(r.uuid, r.outcome)] == r
        else Past(h, r.uuid)
  }

  ghost predicate InsertionsKept(h: History) {
    && (forall i :: 0 <= i < |h.inserted| ==> HeldOrPast(h, h.inserted[i]))
    && (forall i, j :: 0 <= i < j < |h.inserted| ==> h.inserted[i] != h.inserted[j])
    && (forall u :: u in h.db.requests ==> u in h.inserted)
  }

  ghost predicate AcceptedKept(h: History) {
    && (forall i :: 0 <= i < |h.accepted| ==> AcceptedStands(h, h.accepted[i]))
    && (forall i, j :: 0 <= i < j < |h.accepted| && h.accepted[i].uuid == h.accepted[j].uuid ==>
        h.accepted[i] == h.accepted[j])
  }

  ghost predicate SameReceipt(a: Receipt, b: Receipt) {
    a.uuid == b.uuid && a.outcome == b.outcome ==> a == b
  }

  ghost predicate ReceiptsKept(h: History) {
    && (forall i :: 0 <= i < |h.receipts| ==> ReceiptStands(h, h.receipts[i]))
    && (forall i, j :: 0 <= i < j < |h.receipts| ==> SameReceipt(h.receipts[i], h.receipts[j]))
  }

  ghost predicate Inv(h: History) {
    Sound(h.db) && InsertionsKept(h) && AcceptedKept(h) && ReceiptsKept(h)
  }

  lemma {:induction false} OneOutcome(keys: set<Key>, outcome: Outcome, uuids: set<Uuid>)
    requires forall k :: k in keys ==> k.1 == outcome && k.0 in uuids
    ensures |keys| <= |uuids|
  {
    if keys != {} {
      var k :| k in keys;
      OneOutcome(keys - {k}, outcome, uuids - {k.0});
    }
  }

  /** At most two receipts per request. */
  lemma ReceiptsBounded(keys: set<Key>, uuids: set<Uuid>)
    requires forall k :: k in keys ==> k.0 in uuids
    ensures |keys| <= 2 * |uuids|
  {
    var done := set k | k in keys && k.1 == Done;
    var blocked := keys - done;
    OneOutcome(done, Done, uuids);
    OneOutcome(blocked, Blocked, uuids);
    assert keys == done + blocked;
  }

  /** The foreign keys bound the tables, so a sound store passes every read limit. */
  lemma SoundValidates(db: Db)
    requires Sound(db)
    ensures Validates(db)
    ensures |db.statuses| <= |db.requests| && |db.receipts| <= 2 * |db.requests|
  {
    hide RequestRowOk, StatusRowOk, ReceiptRowOk;
    assert |db.statuses| == |db.statuses.Keys| && |db.receipts| == |db.receipts.Keys|
        && |db.requests| == |db.requests.Keys|;
    Sets.SubsetSize(db.statuses.Keys, db.requests.Keys);
    ReceiptsBounded(db.receipts.Keys, db.requests.Keys);
  }

  lemma DeleteKeepsSound(db: Db, gone: set<Uuid>)
    requires Sound(db)
    ensures Sound(Delete(db, gone))
  {
    hide RequestRowOk, StatusRowOk, ReceiptRowOk, Delete;
    DeleteOnlyTakes(db, gone);
  }

  lemma DeleteOnlyTakes(db: Db, gone: set<Uuid>)
    ensures var next := Delete(db, gone);
            && |next.requests| <= |db.requests|
            && (forall u :: u in next.requests <==> u in db.requests && u !in gone)
            && (forall u :: u in next.requests ==> next.requests[u] == db.requests[u])
            && (forall u :: u in next.statuses ==> u !in gone && u in db.statuses && next.statuses[u] == db.statuses[u])
            && (forall k :: k in next.receipts ==>
                k.0 !in gone && k in db.receipts && next.receipts[k] == db.receipts[k])
  {
    DeleteKeepsSize(db.requests, gone);
  }

  lemma DeleteKeepsSize(requests: map<Uuid, Request>, gone: set<Uuid>)
    ensures |requests - gone| <= |requests|
  {
    var kept := requests - gone;
    assert |kept| == |kept.Keys| && |requests| == |requests.Keys|;
    Sets.SubsetSize(kept.Keys, requests.Keys);
  }

  /** A submit changes the tables only to insert a fresh, well-formed request with a current slot. */
  lemma SubmitCases(db: Db, routine: string, slot: int, prompt: string, now: int)
    ensures var uuid, (next, r) := RequestUuid(routine, slot), SubmitTx(db, routine, slot, prompt, now);
            && (uuid in db.requests ==>
                next == db && (r.Ok? ==> r.value == db.requests[uuid] && RequestRowOk(uuid, r.value)))
            && (uuid !in db.requests && r.Err? ==> next == db)
            && (uuid !in db.requests && r.Ok? ==>
                  && next == db.(requests := db.requests[uuid := r.value]) && |db.requests| < REQUEST_MAX
                  && RequestRowOk(uuid, r.value) && now - RETENTION_MS <= slot)
  {
    hide PromptValid, RoutineValid;
  }

  lemma SubmitKeepsSound(db: Db, routine: string, slot: int, prompt: string, now: int)
    requires Sound(db)
    ensures Sound(SubmitTx(db, routine, slot, prompt, now).0)
  {
    SubmitCases(db, routine, slot, prompt, now);
    hide SubmitTx, RequestRowOk, StatusRowOk, ReceiptRowOk;
  }

  lemma SaveStatusKeepsSound(db: Db, status: Status)
    requires Sound(db)
    ensures Sound(SaveStatusTx(db, status).0)
  {
    hide RequestRowOk, ReceiptRowOk;
  }

  lemma FinishKeepsSound(db: Db, uuid: Uuid, token: Uuid, outcome: Outcome, at: int)
    requires Sound(db) && Timestamp(at)
    ensures Sound(FinishTx(db, uuid, token, outcome, at).0)
  {
    hide RequestRowOk, StatusRowOk;
  }

  lemma StepKeepsSound(h: History, tx: Tx)
    requires Sound(h.db) && InOrder(h, tx)
    ensures Sound(Apply(h, tx).db)
  {
    hide SubmitTx, SaveStatusTx, FinishTx, Delete, Sound;
    match tx
    case Submit(routine, slot, prompt, now) => SubmitKeepsSound(h.db, routine, slot, prompt, now);
    case SaveStatus(status, now) => SaveStatusKeepsSound(h.db, status);
    case Finish(uuid, token, outcome, at, now) => FinishKeepsSound(h.db, uuid, token, outcome, at);
    case Prune(at, now) => DeleteKeepsSound(h.db, ExpiredRequests(h.db, at - RETENTION_MS));
  }

  /** Pruning leaves a held request as it was, or its slot was before the cutoff. */
  lemma PruneOnHeld(db: Db, cutoff: int, uuid: Uuid)
    requires uuid in db.requests && RequestRowOk(uuid, db.requests[uuid])
    ensures var next := PruneTx(db, cutoff).0;
            if uuid in next.requests then next.requests[uuid] == db.requests[uuid]
                else uuid.RequestUuid? && uuid.slot < cutoff
  {
    HeldIsNamed(uuid, db.requests[uuid]);
    hide Validates, RequestRowOk;
  }

  lemma HeldIsNamed(uuid: Uuid, r: Request)
    requires RequestRowOk(uuid, r)
    ensures uuid == RequestUuid(r.routine, r.slot)
  {}

  /** Saving a status and finishing leave the requests alone. */
  lemma RequestsUntouched(db: Db, status: Status, uuid: Uuid, token: Uuid, outcome: Outcome, at: int)
    ensures SaveStatusTx(db, status).0.requests == db.requests
        && FinishTx(db, uuid, token, outcome, at).0.requests == db.requests
  {}

  /** What one transaction does to a held request: it stays as it was, or its slot is past. */
  lemma StepOnHeld(h: History, tx: Tx, uuid: Uuid)
    requires Sound(h.db) && InOrder(h, tx) && uuid in h.db.requests
    ensures var t := Apply(h, tx);
        if uuid in t.db.requests then t.db.requests[uuid] == h.db.requests[uuid] else Past(t, uuid)
  {
    assert RequestRowOk(uuid, h.db.requests[uuid]);
    hide Sound, RequestRowOk, SubmitTx, SaveStatusTx, FinishTx, PruneTx;
    match tx
    case Submit(routine, slot, prompt, now) => SubmitCases(h.db, routine, slot, prompt, now);
    case SaveStatus(status, now) => RequestsUntouched(h.db, status, uuid, uuid, Done, now);
    case Finish(u, token, outcome, at, now) => RequestsUntouched(h.db, Status(u, Consumed, now, token), u, token,
        outcome, at);
    case Prune(at, now) => PruneOnHeld(h.db, at - RETENTION_MS, uuid);
  }

  /** What one transaction does to a past one: it never comes back. */
  lemma StepOnPast(h: History, tx: Tx, uuid: Uuid)
    requires InOrder(h, tx) && uuid !in h.db.requests && Past(h, uuid)
    ensures uuid !in Apply(h, tx).db.requests && Past(Apply(h, tx), uuid)
  {
    hide PromptValid, RoutineValid;
    if tx.Submit? {
      SubmitCases(h.db, tx.routine, tx.slot, tx.prompt, tx.now);
    }
  }

  lemma InsertionStep(h: History, tx: Tx)
    requires Sound(h.db) && InOrder(h, tx)
    ensures var t := Apply(h, tx);
            || (t.inserted == h.inserted && t.db.requests.Keys <= h.db.requests.Keys)
            || (tx.Submit? && t.inserted == h.inserted + [RequestUuid(tx.routine, tx.slot)]
                && t.db.requests.Keys == h.db.requests.Keys + {RequestUuid(tx.routine, tx.slot)}
                && RequestUuid(tx.routine, tx.slot) !in h.db.requests && !Past(h, RequestUuid(tx.routine, tx.slot)))
  {
    if tx.Submit? {
      var uuid := RequestUuid(tx.routine, tx.slot);
      SubmitCases(h.db, tx.routine, tx.slot, tx.prompt, tx.now);
      hide SubmitTx, RequestRowOk;
      var r := SubmitTx(h.db, tx.routine, tx.slot, tx.prompt, tx.now).1;
      if uuid !in h.db.requests && r.Ok? {
        assert Apply(h, tx).db.requests == h.db.requests[uuid := r.value];
        assert uuid in Apply(h, tx).db.requests;
      }
    }
    hide RequestRowOk;
  }

  lemma StepKeepsInsertions(h: History, tx: Tx)
    requires Sound(h.db) && InsertionsKept(h) && InOrder(h, tx)
    ensures InsertionsKept(Apply(h, tx))
  {
    hide Apply, Sound, Past;
    InsertionStep(h, tx);
    var t := Apply(h, tx);
    forall i | 0 <= i < |h.inserted| ensures HeldOrPast(t, h.inserted[i]) {
      assert HeldOrPast(h, h.inserted[i]);
      if h.inserted[i] in h.db.requests {
        StepOnHeld(h, tx, h.inserted[i]);
      } else {
        StepOnPast(h, tx, h.inserted[i]);
      }
    }
  }

  lemma AcceptedStep(h: History, tx: Tx, r: Request)
    requires Sound(h.db) && InOrder(h, tx) && AcceptedStands(h, r)
    ensures AcceptedStands(Apply(h, tx), r)
  {
    hide Apply, Sound;
    if r.uuid in h.db.requests {
      StepOnHeld(h, tx, r.uuid);
    } else {
      StepOnPast(h, tx, r.uuid);
    }
  }

  /** The answer to a submit is what the table then holds, and equals every earlier answer for its key. */
  lemma AnswerAgrees(h: History, tx: Tx, r: Request)
    requires Sound(h.db) && InOrder(h, tx) && tx.Submit?
        && SubmitTx(h.db, tx.routine, tx.slot, tx.prompt, tx.now).1 == Ok(r)
    ensures AcceptedStands(Apply(h, tx), r)
    ensures forall e: Request :: AcceptedStands(h, e) && e.uuid == r.uuid ==> e == r
  {
    hide SubmitTx, PromptValid, RoutineValid;
    SubmitCases(h.db, tx.routine, tx.slot, tx.prompt, tx.now);
  }

  lemma StepKeepsAccepted(h: History, tx: Tx)
    requires Sound(h.db) && AcceptedKept(h) && InOrder(h, tx)
    ensures AcceptedKept(Apply(h, tx))
  {
    hide Sound, AcceptedStands, SubmitTx;
    var t := Apply(h, tx);
    forall i | 0 <= i < |h.accepted| ensures AcceptedStands(t, h.accepted[i]) {
      AcceptedStep(h, tx, h.accepted[i]);
    }
    if tx.Submit? && SubmitTx(h.db, tx.routine, tx.slot, tx.prompt, tx.now).1.Ok? {
      var r := SubmitTx(h.db, tx.routine, tx.slot, tx.prompt, tx.now).1.value;
      AnswerAgrees(h, tx, r);
      assert t.accepted == h.accepted + [r];
    } else {
      assert t.accepted == h.accepted;
    }
  }

  lemma ReceiptStep(h: History, tx: Tx, r: Receipt)
    requires Sound(h.db) && InOrder(h, tx) && ReceiptStands(h, r)
    ensures ReceiptStands(Apply(h, tx), r)
  {
    hide PromptValid, RoutineValid, RequestParses, Sound, RequestRowOk, StatusRowOk, Propose, RequestsRead;
    if r.uuid in h.db.requests {
      StepOnHeld(h, tx, r.uuid);
    } else {
      StepOnPast(h, tx, r.uuid);
    }
    if tx.Submit? {
      SubmitCases(h.db, tx.routine, tx.slot, tx.prompt, tx.now);
    }
  }

  /** The receipt a finish answers is the stored one, and equals every earlier answer for its key. */
  lemma ReceiptAgrees(h: History, tx: Tx, r: Receipt)
    requires Sound(h.db) && InOrder(h, tx) && tx.Finish?
        && FinishTx(h.db, tx.uuid, tx.token, tx.outcome, tx.at).1 == Ok(r)
    ensures ReceiptStands(Apply(h, tx), r)
    ensures forall e: Receipt :: ReceiptStands(h, e) ==> SameReceipt(e, r)
  {
    hide RequestRowOk;
  }

  lemma StepKeepsReceipts(h: History, tx: Tx)
    requires Sound(h.db) && ReceiptsKept(h) && InOrder(h, tx)
    ensures ReceiptsKept(Apply(h, tx))
  {
    hide Sound, ReceiptStands, SameReceipt, FinishTx;
    var t := Apply(h, tx);
    forall i | 0 <= i < |h.receipts| ensures ReceiptStands(t, h.receipts[i]) {
      ReceiptStep(h, tx, h.receipts[i]);
    }
    if tx.Finish? && FinishTx(h.db, tx.uuid, tx.token, tx.outcome, tx.at).1.Ok? {
      var r := FinishTx(h.db, tx.uuid, tx.token, tx.outcome, tx.at).1.value;
      ReceiptAgrees(h, tx, r);
      assert t.receipts == h.receipts + [r];
    } else {
      assert t.receipts == h.receipts;
    }
  }

  lemma {:induction false} RunKeepsInv(h: History, txs: seq<Tx>)
    requires Inv(h) && ApplyAll(h, txs).Some?
    ensures Inv(ApplyAll(h, txs).value)
    decreases |txs|
  {
    if txs != [] {
      StepKeepsSound(h, txs[0]);
      StepKeepsInsertions(h, txs[0]);
      StepKeepsAccepted(h, txs[0]);
      StepKeepsReceipts(h, txs[0]);
      RunKeepsInv(Apply(h, txs[0]), txs[1..]);
    }
  }

  // ------------------------------------------------------------------ the theorems

  /**
   Exactly once: over any run under a non-decreasing clock no (routine, slot) is inserted
   twice, however requests were pruned in between; and all submits it accepts for one
   (routine, slot) answer with the identical request.
   */
  lemma AcceptedExactlyOnce(txs: seq<Tx>, h: History)
    requires ApplyAll(EMPTY, txs) == Some(h)
    ensures forall i, j :: 0 <= i < j < |h.inserted| ==> h.inserted[i] != h.inserted[j]
    ensures forall i, j :: 0 <= i < j < |h.accepted| && h.accepted[i].uuid == h.accepted[j].uuid ==>
        h.accepted[i] == h.accepted[j]
    ensures forall i :: 0 <= i < |h.accepted| ==>
        h.accepted[i].uuid == RequestUuid(h.accepted[i].routine, h.accepted[i].slot)
  {
    RunKeepsInv(EMPTY, txs);
  }

  /** Every receipt handed out for one request and outcome, over the whole run, is the same receipt. */
  lemma ReceiptsNeverChange(txs: seq<Tx>, h: History, i: nat, j: nat)
    requires ApplyAll(EMPTY, txs) == Some(h)
    requires i < j < |h.receipts| && h.receipts[i].uuid == h.receipts[j].uuid
        && h.receipts[i].outcome == h.receipts[j].outcome
    ensures h.receipts[i] == h.receipts[j]
  {
    RunKeepsInv(EMPTY, txs);
  }

  /** In every reachable store all tables read, `validate` passes, and the read limits hold with no orphan row. */
  lemma ReachableStoreValidates(txs: seq<Tx>, h: History)
    requires ApplyAll(EMPTY, txs) == Some(h)
    ensures Validates(h.db)
    ensures forall u :: u in h.db.requests ==>
              var r := h.db.requests[u];
              r.uuid == u == RequestUuid(r.routine, r.slot) && r.digest == Sha256(r.prompt)
              && r.createdAt - 604800000 <= r.slot <= r.createdAt + 300000
    ensures forall u :: u in h.db.statuses ==>
              h.db.statuses[u].uuid == u && 0 <= h.db.statuses[u].updatedAt <= 8640000000000000
    ensures forall k :: k in h.db.receipts ==>
              var r := h.db.receipts[k]; (r.uuid, r.outcome) == k && 0 <= r.createdAt <= 8640000000000000
    ensures |h.db.requests| <= 512 && |h.db.statuses| <= |h.db.requests| && |h.db.receipts| <= 2 * |h.db.requests|
    ensures forall u :: u in h.db.statuses ==> u in h.db.requests
    ensures forall k :: k in h.db.receipts ==> k.0 in h.db.requests
  {
    RunKeepsInv(EMPTY, txs);
    SoundValidates(h.db);
  }

  /**
   In a reachable store a submit inside the slot window that repeats a held request answers
   with it unchanged, and changes nothing; it fails only for another prompt.
   */
  lemma RepeatedSubmitAnswersHeld(txs: seq<Tx>, h: History, routine: string, slot: int, prompt: string, now: int)
    requires ApplyAll(EMPTY, txs) == Some(h)
    requires 1 <= |routine| <= 64 && 'a' <= routine[0] <= 'z'
    requires forall c :: c in routine ==> 'a' <= c <= 'z' || '0' <= c <= '9' || c == '-'
    requires 0 <= now <= 8640000000000000 && 0 <= slot <= 8640000000000000
    requires now - 604800000 <= slot <= now + 300000
    requires |Utf8.Encode(prompt)| <= 65536 && JsonLength(prompt) <= 131074
    requires RequestUuid(routine, slot) in h.db.requests
    ensures var held := h.db.requests[RequestUuid(routine, slot)];
            && held.routine == routine && held.slot == slot
            && SubmitTx(h.db, routine, slot, prompt, now) ==
                 (h.db, if held.prompt == prompt then Ok(held) else Err(Conflict))
  {
    ReachableStoreValidates(txs, h);
    assert RequestRowOk(RequestUuid(routine, slot), h.db.requests[RequestUuid(routine, slot)]);
    HeldIsNamed(RequestUuid(routine, slot), h.db.requests[RequestUuid(routine, slot)]);
    SubmitSpelled(h.db, routine, slot, prompt, now);
    hide RequestRowOk, ApplyAll, StatusesRead, ReceiptsRead, SubmitTx, JsonLength;
  }

  /**
   Inside the window a request not held is stored as given, with the digest of its prompt and the
   clock, unless 512 are held; and the same submit, repeated later in the window, answers with it.
   */
  lemma NewSubmitIsAccepted(txs: seq<Tx>, h: History, routine: string, slot: int, prompt: string, now: int, later: int)
    requires ApplyAll(EMPTY, txs) == Some(h)
    requires 1 <= |routine| <= 64 && 'a' <= routine[0] <= 'z'
    requires forall c :: c in routine ==> 'a' <= c <= 'z' || '0' <= c <= '9' || c == '-'
    requires 0 <= now <= 8640000000000000 && 0 <= slot <= 8640000000000000
    requires now - 604800000 <= slot <= now + 300000
    requires |Utf8.Encode(prompt)| <= 65536 && JsonLength(prompt) <= 131074
    requires RequestUuid(routine, slot) !in h.db.requests
    requires 0 <= later <= 8640000000000000 && later - 604800000 <= slot <= later + 300000
    ensures var key, (db, r) := RequestUuid(routine, slot), SubmitTx(h.db, routine, slot, prompt, now);
            if |h.db.requests| < 512 then
              && r == Ok(Request(routine, slot, key, now, prompt, Sha256(prompt)))
              && db == Db(h.db.requests[key := r.value], h.db.statuses, h.db.receipts)
              && SubmitTx(db, routine, slot, prompt, later) == (db, r)
            else db == h.db && r == Err(Full)
  {
    ReachableStoreValidates(txs, h);
    SubmitSpelled(h.db, routine, slot, prompt, now);
    SubmitCases(h.db, routine, slot, prompt, now);
    var db := SubmitTx(h.db, routine, slot, prompt, now).0;
    hide RequestRowOk, ApplyAll, StatusesRead, ReceiptsRead, SubmitTx, JsonLength;
    if |h.db.requests| < 512 {
      assert RequestsRead(db);
      SubmitSpelled(db, routine, slot, prompt, later);
    }
  }

  lemma {:induction false} RunsConcat(h: History, first: seq<Tx>, more: seq<Tx>, middle: History)
    requires ApplyAll(h, first) == Some(middle)
    ensures ApplyAll(h, first + more) == ApplyAll(middle, more)
    decreases |first|
  {
    if first == [] {
      assert first + more == more;
    } else {
      assert (first + more)[1..] == first[1..] + more;
      RunsConcat(Apply(h, first[0]), first[1..], more, middle);
    }
  }

  /** The check outside accepts exactly a token that is the status token, at a time that is one. */
  lemma CheckAcceptsExactly(db: Db, uuid: Uuid, token: Uuid, at: int)
    requires Sound(db)
    ensures FinishCheck(db, uuid, token, at).Ok? <==>
              Timestamp(at) && uuid in db.statuses && db.statuses[uuid].token == token
  {
    hide RequestRowOk, ReceiptRowOk;
  }

  /** What the transaction of a finish does to a sound store. */
  lemma FinishInside(db: Db, uuid: Uuid, token: Uuid, outcome: Outcome, at: int)
    requires Sound(db)
    ensures var (next, r) := FinishTx(db, uuid, token, outcome, at);
            && (r.Ok? <==>
                  && uuid in db.statuses && db.statuses[uuid].token == token
                  && ((uuid, outcome) in db.receipts ==> db.receipts[(uuid, outcome)].token == token))
            && (r.Ok? ==>
                  r.value.token == token && (uuid, outcome) in next.receipts
                      && next.receipts[(uuid, outcome)] == r.value)
            && (r.Ok? && (uuid, outcome) in db.receipts ==> r.value == db.receipts[(uuid, outcome)] && next == db)
            && (r.Ok? && (uuid, outcome) !in db.receipts ==>
                  r.value.createdAt == at && next == db.(receipts := db.receipts[(uuid, outcome) := r.value]))
            && (r.Err? ==> next == db)
  {
    hide RequestParses;
  }

  /**
   A whole finish, whatever other transactions run between its check and its own, succeeds exactly
   when the token is the status token of the request at both, and no receipt of that outcome was
   recorded under another token; the receipt then carries that token, and the first one stands.
   */
  lemma FinishSucceedsExactlyWhen(txs: seq<Tx>, checked: History, between: seq<Tx>, h: History,
                                  uuid: Uuid, token: Uuid, outcome: Outcome, at: int)
    requires ApplyAll(EMPTY, txs) == Some(checked) && ApplyAll(checked, between) == Some(h)
    ensures var (db, r) := FinishTx(h.db, uuid, token, outcome, at);
            && (FinishCheck(checked.db, uuid, token, at).Ok? && r.Ok? <==>
                  && 0 <= at <= 8640000000000000
                  && uuid in checked.db.statuses && checked.db.statuses[uuid].token == token
                  && uuid in h.db.statuses && h.db.statuses[uuid].token == token
                  && ((uuid, outcome) in h.db.receipts ==> h.db.receipts[(uuid, outcome)].token == token))
            && (r.Ok? ==>
                r.value.token == token && (uuid, outcome) in db.receipts && db.receipts[(uuid, outcome)] == r.value)
            && (r.Ok? && (uuid, outcome) in h.db.receipts ==> r.value == h.db.receipts[(uuid, outcome)] && db == h.db)
            && (r.Ok? && (uuid, outcome) !in h.db.receipts ==>
                r.value.createdAt == at && db == h.db.(receipts := h.db.receipts[(uuid, outcome) := r.value]))
            && (r.Err? ==> db == h.db)
  {
    RunsConcat(EMPTY, txs, between, checked);
    RunKeepsInv(EMPTY, txs);
    RunKeepsInv(EMPTY, txs + between);
    hide ApplyAll, Sound, FinishCheck, FinishTx, InsertionsKept, AcceptedKept, ReceiptsKept;
    CheckAcceptsExactly(checked.db, uuid, token, at);
    FinishInside(h.db, uuid, token, outcome, at);
  }

  /** Deleting takes the request's status and receipts with it, and leaves those of the others. */
  lemma DeleteOn(db: Db, gone: set<Uuid>, uuid: Uuid)
    requires uuid in db.requests
    ensures var next := Delete(db, gone);
            && (uuid in next.requests <==> uuid !in gone)
            && (uuid !in gone ==>
                  && next.requests[uuid] == db.requests[uuid]
                  && (uuid in next.statuses <==> uuid in db.statuses)
                  && (uuid in next.statuses ==> next.statuses[uuid] == db.statuses[uuid])
                  && forall o: Outcome :: ((uuid, o) in next.receipts <==> (uuid, o) in db.receipts)
                      && ((uuid, o) in next.receipts ==> next.receipts[(uuid, o)] == db.receipts[(uuid, o)]))
            && (uuid in gone ==> uuid !in next.statuses && forall o: Outcome :: (uuid, o) !in next.receipts)
  {}

  lemma ExpiredSpelled(db: Db, uuid: Uuid, at: int)
    requires uuid in db.requests
    ensures uuid in ExpiredRequests(db, at - RETENTION_MS) <==>
              && uuid in db.statuses && db.statuses[uuid].state in {Completed, Coalesced, Cancelled}
              && db.requests[uuid].slot + 604800000 < at && db.statuses[uuid].updatedAt + 604800000 < at
  {}

  /**
   Pruning never loses unfinished work: a request goes exactly when its status is terminal
   and both its slot and its last update are older than the retention before `at`, its
   status and receipts go with it, and everything else stays as it was.
   */
  lemma PruneTakesExactlyTheExpired(txs: seq<Tx>, h: History, at: int, uuid: Uuid)
    requires ApplyAll(EMPTY, txs) == Some(h) && uuid in h.db.requests
    ensures var db := PruneTx(h.db, at - RETENTION_MS).0;
            && (uuid !in db.requests <==>
                  && uuid in h.db.statuses && h.db.statuses[uuid].state in {Completed, Coalesced, Cancelled}
                  && h.db.requests[uuid].slot + 604800000 < at && h.db.statuses[uuid].updatedAt + 604800000 < at)
            && (uuid in db.requests ==>
                  && db.requests[uuid] == h.db.requests[uuid]
                  && (uuid in db.statuses <==> uuid in h.db.statuses)
                  && (uuid in db.statuses ==> db.statuses[uuid] == h.db.statuses[uuid])
                  && forall o: Outcome :: ((uuid, o) in db.receipts <==> (uuid, o) in h.db.receipts)
                      && ((uuid, o) in db.receipts ==> db.receipts[(uuid, o)] == h.db.receipts[(uuid, o)]))
            && (uuid !in db.requests ==> uuid !in db.statuses && forall o: Outcome :: (uuid, o) !in db.receipts)
  {
    ReachableStoreValidates(txs, h);
    hide ApplyAll, Validates, Delete, ExpiredRequests;
    DeleteOn(h.db, ExpiredRequests(h.db, at - RETENTION_MS), uuid);
    ExpiredSpelled(h.db, uuid, at);
  }

  /** A pruned request is gone for good: no submit is ever accepted for it again. */
  lemma PrunedIsRefused(txs: seq<Tx>, h: History, i: nat, prompt: string, now: int)
    requires ApplyAll(EMPTY, txs) == Some(h) && i < |h.inserted| && h.inserted[i] !in h.db.requests && h.clock <= now
    ensures h.inserted[i].RequestUuid?
    ensures SubmitTx(h.db, h.inserted[i].routine, h.inserted[i].slot, prompt, now).1.Err?
  {
    RunKeepsInv(EMPTY, txs);
  }
}
