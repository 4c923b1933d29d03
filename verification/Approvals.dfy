/** The approval store: requests with a deadline, decided, executed or expired; expiry is lazy and reads do not
    write.  (internal/approvals/store.go) */
module Approvals {
  import opened Text

  datatype Status = Pending | Approved | Denied | Expired | Executed

  /** Times are nanoseconds since Go's zero time; the zero time means "no deadline". */
  type Time = int
  const ZERO_TIME: Time := 0
  const DEFAULT_TTL: int := 15 * 60 * 1_000_000_000

  datatype Request = Request(
    id: string, runID: string, command: string, commandHash: string, requestedBy: string, repo: string, status: Status,
    reason: string, createdAt: Time, expiresAt: Time, decisionAt: Option<Time>, decidedBy: string, rationale: string)

  datatype CreateInput = CreateInput(
    runID: string, command: string, requestedBy: string, repo: string, reason: string, ttl: int)

  datatype DecideInput = DecideInput(id: string, decision: Status, approver: string, rationale: string)

  datatype Error = CommandRequired | InvalidDecision | NotFound(id: string) | WrongStatus(id: string, status: Status) | StoreFailed

  datatype Result = Success(request: Request) | Failure(error: Error)

  function DefaultValue(value: string, fallback: string): string {
    if Trim(value) == "" then fallback else Trim(value)
  }

  // ---------- Expiry ----------

  predicate Overdue(r: Request, now: Time) {
    r.status == Pending && r.expiresAt != ZERO_TIME && now > r.expiresAt
  }

  function Expire1(r: Request, now: Time): Request {
    if Overdue(r, now) then r.(status := Expired) else r
  }

  function Expire(rs: seq<Request>, now: Time): (e: seq<Request>)
    ensures |e| == |rs| && forall i | 0 <= i < |rs| :: e[i] == Expire1(rs[i], now)
  {
    seq(|rs|, i requires 0 <= i < |rs| => Expire1(rs[i], now))
  }

  /** The position of the first request with an id, or the length. */
  function Find(rs: seq<Request>, id: string): (k: nat)
    ensures k <= |rs| && (k < |rs| ==> rs[k].id == id) && forall i | 0 <= i < k :: rs[i].id != id
  {
    if rs == [] || rs[0].id == id then 0 else 1 + Find(rs[1..], id)
  }

  // ---------- What each transaction does to the expired list ----------

  /** sha256 stands for the digest; the hash ignores white space around the command. */
  function HashCommand(sha256: string -> string, command: string): string {
    sha256(Trim(command))
  }

  function NewRequest(input: CreateInput, sha256: string -> string, id: string, now: Time): Request {
    Request(id, Trim(input.runID), Trim(input.command), HashCommand(sha256, input.command),
            DefaultValue(input.requestedBy, "system"), Trim(input.repo), Pending, Trim(input.reason), now,
            now + (if input.ttl <= 0 then DEFAULT_TTL else input.ttl), None, "", "")
  }

  function Decided(r: Request, input: DecideInput, now: Time): Request {
    r.(status := input.decision, decidedBy := DefaultValue(input.approver, "operator"), rationale := Trim(input.rationale),
       decisionAt := Some(now))
  }

  function ExecutedBy(r: Request, runID: string): Request {
    r.(status := Executed, runID := if Trim(runID) != "" then runID else r.runID)
  }

  datatype Op =
    | Create(input: CreateInput, newID: string)
    | Decide(decision: DecideInput)
    | MarkExecuted(id: string, runID: string)
    | Get(key: string)
    | List(filter: Option<Status>)

  datatype Reply = Single(result: Result) | Many(requests: seq<Request>)

  /** The answer to an operation on a list already expired at its time, and the list to write, if it writes. */
  function Transact(sha256: string -> string, op: Op, rs: seq<Request>, now: Time): (Reply, Option<seq<Request>>) {
    match op
    case Create(input, newID) =>
      if Trim(input.command) == "" then (Single(Failure(CommandRequired)), None)
      else
        var r := NewRequest(input, sha256, newID, now);
        (Single(Success(r)), Some(rs + [r]))
    case Decide(input) =>
      if input.decision != Approved && input.decision != Denied then (Single(Failure(InvalidDecision)), None)
      else
        var k := Find(rs, input.id);
        if k == |rs| then (Single(Failure(NotFound(input.id))), None)
        else if rs[k].status != Pending then (Single(Failure(WrongStatus(rs[k].id, rs[k].status))), None)
        else (Single(Success(Decided(rs[k], input, now))), Some(rs[k := Decided(rs[k], input, now)]))
    case MarkExecuted(id, runID) =>
      var k := Find(rs, id);
      if k == |rs| then (Single(Failure(NotFound(id))), None)
      else if rs[k].status != Approved && rs[k].status != Pending then
        (Single(Failure(WrongStatus(rs[k].id, rs[k].status))), None)
      else (Single(Success(ExecutedBy(rs[k], runID))), Some(rs[k := ExecutedBy(rs[k], runID)]))
    case Get(key) =>
      var k := Find(rs, key);
      (Single(if k == |rs| then Failure(NotFound(key)) else Success(rs[k])), None)
    case List(filter) => (Many(NewestFirst(Filter(rs, filter))), None)
  }

  function Filter(rs: seq<Request>, filter: Option<Status>): seq<Request> {
    if rs == [] then []
    else
      var r := rs[|rs| - 1];
      Filter(rs[..|rs| - 1], filter) + if filter.None? || r.status == filter.value then [r] else []
  }

  lemma FilterNext(rs: seq<Request>, i: nat, filter: Option<Status>)
    requires i < |rs|
    ensures Filter(rs[..i + 1], filter) ==
      Filter(rs[..i], filter) + if filter.None? || rs[i].status == filter.value then [rs[i]] else []
  {
    assert rs[..i + 1][..i] == rs[..i];
  }

  // ---------- Stable newest-first order ----------

  /** Inserts behind every request that is at least as new. */
  function Insert(sorted: seq<Request>, r: Request): seq<Request> {
    if sorted == [] then [r]
    else if r.createdAt > sorted[|sorted| - 1].createdAt then
      Insert(sorted[..|sorted| - 1], r) + [sorted[|sorted| - 1]]
    else sorted + [r]
  }

  /** sort.SliceStable with "created after" as the order. */
  function NewestFirst(rs: seq<Request>): seq<Request> {
    if rs == [] then [] else Insert(NewestFirst(rs[..|rs| - 1]), rs[|rs| - 1])
  }

  predicate NewestSorted(rs: seq<Request>) {
    forall i, j | 0 <= i < j < |rs| :: rs[i].createdAt >= rs[j].createdAt
  }

  /** The requests created at one moment, in list order. */
  function CreatedAt(rs: seq<Request>, t: Time): seq<Request> {
    if rs == [] then []
    else
      var r := rs[|rs| - 1];
      CreatedAt(rs[..|rs| - 1], t) + if r.createdAt == t then [r] else []
  }

  lemma {:induction false} InsertKeeps(sorted: seq<Request>, r: Request)
    ensures multiset(Insert(sorted, r)) == multiset(sorted) + multiset{r}
  {
    if sorted != [] && r.createdAt > sorted[|sorted| - 1].createdAt {
      InsertKeeps(sorted[..|sorted| - 1], r);
      assert sorted == sorted[..|sorted| - 1] + [sorted[|sorted| - 1]];
    }
  }

  lemma {:induction false} InsertSorts(sorted: seq<Request>, r: Request)
    requires NewestSorted(sorted)
    ensures NewestSorted(Insert(sorted, r))
    ensures forall x <- Insert(sorted, r) :: x == r || x in sorted
  {
    if sorted != [] && r.createdAt > sorted[|sorted| - 1].createdAt {
      var front, last := sorted[..|sorted| - 1], sorted[|sorted| - 1];
      InsertSorts(front, r);
      assert forall x <- Insert(front, r) :: x.createdAt >= last.createdAt;
    }
  }

  lemma {:induction false} InsertStable(sorted: seq<Request>, r: Request, t: Time)
    requires NewestSorted(sorted)
    ensures CreatedAt(Insert(sorted, r), t) == CreatedAt(sorted, t) + if r.createdAt == t then [r] else []
  {
    if sorted != [] && r.createdAt > sorted[|sorted| - 1].createdAt {
      var front, last := sorted[..|sorted| - 1], sorted[|sorted| - 1];
      InsertStable(front, r, t);
      var inner := Insert(front, r);
      assert (inner + [last])[..|inner|] == inner;
      if r.createdAt == t {
        NoneNewer(sorted, t);
        assert CreatedAt(front, t) == CreatedAt(sorted, t);
      }
    } else {
      assert (sorted + [r])[..|sorted|] == sorted;
    }
  }

  lemma {:induction false} NoneNewer(sorted: seq<Request>, t: Time)
    requires sorted != [] && t > sorted[|sorted| - 1].createdAt
    ensures CreatedAt(sorted, t) == CreatedAt(sorted[..|sorted| - 1], t)
  {
    assert CreatedAt(sorted[..|sorted| - 1], t) + [] == CreatedAt(sorted[..|sorted| - 1], t);
  }

  lemma {:induction false} NewestFirstSorted(rs: seq<Request>)
    ensures NewestSorted(NewestFirst(rs))
  {
    if rs != [] {
      NewestFirstSorted(rs[..|rs| - 1]);
      InsertSorts(NewestFirst(rs[..|rs| - 1]), rs[|rs| - 1]);
    }
  }

  lemma Counted<T>(s: seq<T>)
    requires s != []
    ensures multiset(s) == multiset(s[..|s| - 1]) + multiset{s[|s| - 1]}
  {
    assert s == s[..|s| - 1] + [s[|s| - 1]];
  }

  lemma {:induction false} NewestFirstKeeps(rs: seq<Request>)
    ensures multiset(NewestFirst(rs)) == multiset(rs)
  {
    if rs != [] {
      assert NewestFirst(rs) == Insert(NewestFirst(rs[..|rs| - 1]), rs[|rs| - 1]);
      hide NewestFirst, Insert;
      NewestFirstKeeps(rs[..|rs| - 1]);
      InsertKeeps(NewestFirst(rs[..|rs| - 1]), rs[|rs| - 1]);
      Counted(rs);
    }
  }

  lemma {:induction false} NewestFirstStable(rs: seq<Request>, t: Time)
    ensures CreatedAt(NewestFirst(rs), t) == CreatedAt(rs, t)
  {
    if rs != [] {
      var front := rs[..|rs| - 1];
      NewestFirstSorted(front);
      NewestFirstStable(front, t);
      InsertStable(NewestFirst(front), rs[|rs| - 1], t);
    }
  }

  /** The listing is sorted newest first, holds the same requests, and keeps the list order of requests created at
      the same moment. */
  lemma NewestFirstIsStableSort(rs: seq<Request>)
    ensures NewestSorted(NewestFirst(rs)) && multiset(NewestFirst(rs)) == multiset(rs)
    ensures forall t :: CreatedAt(NewestFirst(rs), t) == CreatedAt(rs, t)
  {
    NewestFirstSorted(rs);
    NewestFirstKeeps(rs);
    forall t ensures CreatedAt(NewestFirst(rs), t) == CreatedAt(rs, t) { NewestFirstStable(rs, t); }
  }

  // ---------- The store ----------

  /** The approvals file.  Loading, locking and writing may fail; a failed transaction writes nothing. */
  class Store {
    var requests: seq<Request>
    const sha256: string -> string

    constructor (sha256: string -> string)
      ensures requests == [] && this.sha256 == sha256
    {
      requests := [];
      this.sha256 := sha256;
    }

    method ExpireLocked(loaded: seq<Request>, now: Time) returns (rs: seq<Request>)
      ensures rs == Expire(loaded, now)
    {
      rs := loaded;
      for i := 0 to |rs|
        invariant |rs| == |loaded|
        invariant forall j | 0 <= j < i :: rs[j] == Expire1(loaded[j], now)
        invariant forall j | i <= j < |rs| :: rs[j] == loaded[j]
      {
        if rs[i].status == Pending && rs[i].expiresAt != ZERO_TIME && now > rs[i].expiresAt {
          rs := rs[i := rs[i].(status := Expired)];
        }
      }
    }

    /** The outcome every transaction shares: it answers as specified on the list expired at its time, and writes
        what it should, or fails in the store and leaves the file alone. */
    twostate predicate Committed(op: Op, now: Time, result: Result)
      reads this
    {
      var (reply, written) := Transact(sha256, op, Expire(old(requests), now), now);
      if result == Failure(StoreFailed) then requests == old(requests)
      else reply == Single(result) && requests == if written.Some? then written.value else old(requests)
    }

    method CreateRequest(input: CreateInput, newID: string, now: Time) returns (result: Result)
      modifies this
      ensures Committed(Create(input, newID), now, result)
    {
      if Trim(input.command) == "" {
        return Failure(CommandRequired);
      }
      var ttl := input.ttl;
      if ttl <= 0 {
        ttl := DEFAULT_TTL;
      }
      var req := Request(
        newID, Trim(input.runID), Trim(input.command), HashCommand(sha256, input.command),
        DefaultValue(input.requestedBy, "system"), Trim(input.repo), Pending, Trim(input.reason), now, now + ttl, None, "", "");
      var loaded: bool, written: bool := *, *;
      if !loaded {
        return Failure(StoreFailed);
      }
      var sf := ExpireLocked(requests, now);
      sf := sf + [req];
      if !written {
        return Failure(StoreFailed);
      }
      requests := sf;
      result := Success(req);
    }

    method DecideRequest(input: DecideInput, now: Time) returns (result: Result)
      modifies this
      ensures Committed(Decide(input), now, result)
    {
      if input.decision != Approved && input.decision != Denied {
        return Failure(InvalidDecision);
      }
      var loaded: bool, written: bool := *, *;
      if !loaded {
        return Failure(StoreFailed);
      }
      var sf := ExpireLocked(requests, now);
      for i := 0 to |sf|
        invariant forall j | 0 <= j < i :: sf[j].id != input.id
      {
        if sf[i].id != input.id {
          continue;
        }
        assert Find(sf, input.id) == i;
        if sf[i].status != Pending {
          return Failure(WrongStatus(sf[i].id, sf[i].status));
        }
        var req := sf[i].(status := input.decision);
        req := req.(decidedBy := DefaultValue(input.approver, "operator"));
        req := req.(rationale := Trim(input.rationale));
        req := req.(decisionAt := Some(now));
        if !written {
          return Failure(StoreFailed);
        }
        requests := sf[i := req];
        return Success(req);
      }
      result := Failure(NotFound(input.id));
    }

    method MarkRequestExecuted(id: string, runID: string, now: Time) returns (result: Result)
      modifies this
      ensures Committed(MarkExecuted(id, runID), now, result)
    {
      var loaded: bool, written: bool := *, *;
      if !loaded {
        return Failure(StoreFailed);
      }
      var sf := ExpireLocked(requests, now);
      for i := 0 to |sf|
        invariant forall j | 0 <= j < i :: sf[j].id != id
      {
        if sf[i].id != id {
          continue;
        }
        assert Find(sf, id) == i;
        if sf[i].status != Approved && sf[i].status != Pending {
          return Failure(WrongStatus(sf[i].id, sf[i].status));
        }
        var req := sf[i].(status := Executed);
        if Trim(runID) != "" {
          req := req.(runID := runID);
        }
        if !written {
          return Failure(StoreFailed);
        }
        requests := sf[i := req];
        return Success(req);
      }
      result := Failure(NotFound(id));
    }

    /** Reads expire their own copy only. */
    method GetRequest(id: string, now: Time) returns (result: Result)
      ensures result == Failure(StoreFailed) || Single(result) == Transact(sha256, Get(id), Expire(requests, now), now).0
    {
      var loaded: bool := *;
      if !loaded {
        return Failure(StoreFailed);
      }
      var sf := ExpireLocked(requests, now);
      for i := 0 to |sf|
        invariant forall j | 0 <= j < i :: sf[j].id != id
      {
        if sf[i].id == id {
          assert Find(sf, id) == i;
          return Success(sf[i]);
        }
      }
      result := Failure(NotFound(id));
    }

    method ListRequests(filter: Option<Status>, now: Time) returns (listed: Option<seq<Request>>)
      ensures listed.Some? ==> Many(listed.value) == Transact(sha256, List(filter), Expire(requests, now), now).0
    {
      var loaded: bool := *;
      if !loaded {
        return None;
      }
      var sf := ExpireLocked(requests, now);
      var out: seq<Request> := [];
      for i := 0 to |sf|
        invariant out == Filter(sf[..i], filter)
      {
        FilterNext(sf, i, filter);
        if filter.Some? && sf[i].status != filter.value {
          continue;
        }
        out := out + [sf[i]];
      }
      assert sf[..|sf|] == sf;
      listed := Some(NewestFirst(out));
    }
  }

  // ---------- Runs ----------

  /** One operation at a clock reading; stored tells whether the file operations succeeded. */
  datatype Event = Event(op: Op, now: Time, stored: bool)

  datatype Answer = Answered(reply: Reply) | StoreError

  /** Inputs refused before the store is opened. */
  predicate RefusedFirst(op: Op) {
    (op.Create? && Trim(op.input.command) == "")
    || (op.Decide? && op.decision.decision != Approved && op.decision.decision != Denied)
  }

  /** The store as it is: the file changes only when a transaction writes. */
  function LazyStep(sha256: string -> string, file: seq<Request>, e: Event): (Answer, seq<Request>) {
    var (reply, written) := Transact(sha256, e.op, Expire(file, e.now), e.now);
    if !e.stored && !RefusedFirst(e.op) then (StoreError, file)
    else (Answered(reply), if written.Some? then written.value else file)
  }

  /** A store that expires every overdue pending request the moment time passes, whatever happens otherwise. */
  function EagerStep(sha256: string -> string, state: seq<Request>, e: Event): (Answer, seq<Request>) {
    var current := Expire(state, e.now);
    var (reply, written) := Transact(sha256, e.op, current, e.now);
    if !e.stored && !RefusedFirst(e.op) then (StoreError, current)
    else (Answered(reply), if written.Some? then written.value else current)
  }

  function LazyRun(sha256: string -> string, file: seq<Request>, events: seq<Event>): (seq<Answer>, seq<Request>) {
    if events == [] then ([], file)
    else
      var (answers, before) := LazyRun(sha256, file, events[..|events| - 1]);
      var (answer, after) := LazyStep(sha256, before, events[|events| - 1]);
      (answers + [answer], after)
  }

  function EagerRun(sha256: string -> string, state: seq<Request>, events: seq<Event>): (seq<Answer>, seq<Request>) {
    if events == [] then ([], state)
    else
      var (answers, before) := EagerRun(sha256, state, events[..|events| - 1]);
      var (answer, after) := EagerStep(sha256, before, events[|events| - 1]);
      (answers + [answer], after)
  }

  /** No deadline lies from the later reading up to the earlier one.  The zero time is none, so besides readings in
      order this allows 1 before 0. */
  predicate InOrder(earlier: Time, later: Time) {
    earlier <= later || (earlier == 1 && later == ZERO_TIME)
  }

  /** The clock readings do not run backwards in lock order. */
  ghost predicate Monotone(readings: seq<Time>) {
    forall i, j | 0 <= i < j < |readings| :: InOrder(readings[i], readings[j])
  }

  function Readings(events: seq<Event>): (ts: seq<Time>)
    ensures |ts| == |events| && forall i | 0 <= i < |ts| :: ts[i] == events[i].now
  {
    seq(|events|, i requires 0 <= i < |events| => events[i].now)
  }

  /** A later reading that is in order with all the readings of a run. */
  ghost predicate Follows(events: seq<Event>, now: Time) {
    forall e <- events :: InOrder(e.now, now)
  }

  lemma ExpireTwice(rs: seq<Request>, t: Time, now: Time)
    requires InOrder(t, now)
    ensures Expire(Expire(rs, t), now) == Expire(rs, now)
  {
  }

  /** The eager store is what its name says: after each event no request in it is overdue. */
  lemma EagerIsPrompt(sha256: string -> string, state: seq<Request>, e: Event)
    ensures forall r <- EagerStep(sha256, state, e).1 :: !Overdue(r, e.now)
  {
    var current := Expire(state, e.now);
    var after := EagerStep(sha256, state, e).1;
    forall i | 0 <= i < |after| ensures !Overdue(after[i], e.now) {
      if i < |current| { assert current[i] == Expire1(state[i], e.now); }
    }
  }

  /** Lazy expiry refines eager expiry: when the clock readings do not decrease in lock order, every answer of every
      run -- reads, successful and failed transactions alike -- is the one the eager store gives. */
  lemma {:induction false} LazyRefinesEager(sha256: string -> string, start: seq<Request>, events: seq<Event>)
    requires Monotone(Readings(events))
    ensures LazyRun(sha256, start, events).0 == EagerRun(sha256, start, events).0
    ensures forall now | Follows(events, now) ::
      Expire(LazyRun(sha256, start, events).1, now) == Expire(EagerRun(sha256, start, events).1, now)
  {
    if events != [] {
      var front, e := events[..|events| - 1], events[|events| - 1];
      MonotoneFront(events);
      LazyRefinesEager(sha256, start, front);
      StepRefines(sha256, LazyRun(sha256, start, front).1, EagerRun(sha256, start, front).1, e);
      assert e in events;
    }
  }

  lemma MonotoneFront(events: seq<Event>)
    requires events != [] && Monotone(Readings(events))
    ensures Monotone(Readings(events[..|events| - 1])) && Follows(events[..|events| - 1], events[|events| - 1].now)
  {
    var front, ts := events[..|events| - 1], Readings(events);
    assert forall i | 0 <= i < |front| :: Readings(front)[i] == ts[i];
    forall e | e in front ensures InOrder(e.now, events[|events| - 1].now) {
      var i :| 0 <= i < |front| && front[i] == e;
      assert InOrder(ts[i], ts[|ts| - 1]);
    }
  }

  lemma StepRefines(sha256: string -> string, file: seq<Request>, state: seq<Request>, e: Event)
    requires Expire(file, e.now) == Expire(state, e.now)
    ensures LazyStep(sha256, file, e).0 == EagerStep(sha256, state, e).0
    ensures forall now | InOrder(e.now, now) ::
      Expire(LazyStep(sha256, file, e).1, now) == Expire(EagerStep(sha256, state, e).1, now)
  {
    forall now | InOrder(e.now, now)
      ensures Expire(LazyStep(sha256, file, e).1, now) == Expire(EagerStep(sha256, state, e).1, now)
    {
      ExpireTwice(file, e.now, now);
      ExpireTwice(state, e.now, now);
    }
  }

  // ---------- Clock readings out of order ----------

  /** The answer at a position is the step's from what the run left before it. */
  lemma {:induction false} AnswerAt(sha256: string -> string, start: seq<Request>, events: seq<Event>, k: nat)
    requires k < |events|
    ensures |LazyRun(sha256, start, events).0| == |EagerRun(sha256, start, events).0| == |events|
    ensures LazyRun(sha256, start, events).0[k] == LazyStep(sha256, LazyRun(sha256, start, events[..k]).1, events[k]).0
    ensures EagerRun(sha256, start, events).0[k] == EagerStep(sha256, EagerRun(sha256, start, events[..k]).1, events[k]).0
    decreases |events|
  {
    hide LazyStep, EagerStep;
    var front := events[..|events| - 1];
    if front != [] { AnswerAt(sha256, start, front, if k < |front| then k else 0); }
    if k < |front| {
      assert front[..k] == events[..k];
    } else {
      assert events[..k] == front;
    }
  }

  /** Reads at some readings, and one decision. */
  function Probe(readings: seq<Time>, k: nat, input: DecideInput): (events: seq<Event>)
    ensures |events| == |readings| && Readings(events) == readings
    ensures forall i | 0 <= i < |events| ::
      events[i] == Event(if i == k then Decide(input) else Get(input.id), readings[i], true)
  {
    seq(|readings|, i requires 0 <= i < |readings| =>
      Event(if i == k then Decide(input) else Get(input.id), readings[i], true))
  }

  /** Reads leave the lazy file alone; in the eager store the request expires when some reading passes its deadline. */
  lemma {:induction false} ReadsOnly(sha256: string -> string, r: Request, events: seq<Event>)
    requires forall e <- events :: e.op == Get(r.id) && e.stored
    requires r.status == Pending
    ensures LazyRun(sha256, [r], events).1 == [r]
    ensures EagerRun(sha256, [r], events).1 == [if exists e <- events :: Overdue(r, e.now) then r.(status := Expired) else r]
  {
    if events != [] {
      var front, e := events[..|events| - 1], events[|events| - 1];
      assert events == front + [e];
      ReadsOnly(sha256, r, front);
      var gone := r.(status := Expired);
      assert Expire([gone], e.now) == [gone] && Expire([r], e.now) == [if Overdue(r, e.now) then gone else r];
    }
  }

  /** With two readings out of order the two stores differ: a request whose deadline lies between them is read as
      expired at the first, and a decision that gets the lock later with the older reading approves it in the lazy
      store and is refused in the eager one.  The other events are reads of that request. */
  lemma OldClockResurrects(sha256: string -> string, readings: seq<Time>, i: nat, k: nat, r: Request, input: DecideInput)
    requires i < k < |readings| && r.status == Pending && input.id == r.id && input.decision == Approved
    requires r.expiresAt != ZERO_TIME && readings[k] <= r.expiresAt < readings[i]
    ensures var events := Probe(readings, k, input);
      && |LazyRun(sha256, [r], events).0| == |EagerRun(sha256, [r], events).0| == |readings|
      && LazyRun(sha256, [r], events).0[k] == Answered(Single(Success(Decided(r, input, readings[k]))))
      && EagerRun(sha256, [r], events).0[k] == Answered(Single(Failure(WrongStatus(r.id, Expired))))
  {
    var events := Probe(readings, k, input);
    var gone, now := r.(status := Expired), readings[k];
    AnswerAt(sha256, [r], events, k);
    assert events[..k][i] in events[..k] && Overdue(r, events[..k][i].now);
    ReadsOnly(sha256, r, events[..k]);
    assert Expire([r], now) == [r] && Expire([gone], now) == [gone];
    ApprovesOne(sha256, r, input, now);
    hide LazyRun, EagerRun, Transact, Overdue;
  }

  lemma ApprovesOne(sha256: string -> string, r: Request, input: DecideInput, now: Time)
    requires r.status == Pending && input.id == r.id && input.decision == Approved
    ensures Transact(sha256, Decide(input), [r], now).0 == Single(Success(Decided(r, input, now)))
    ensures Transact(sha256, Decide(input), [r.(status := Expired)], now).0 == Single(Failure(WrongStatus(r.id, Expired)))
  {
  }

  ghost predicate AlwaysAgree(sha256: string -> string, readings: seq<Time>) {
    forall start, events | Readings(events) == readings :: LazyRun(sha256, start, events).0 == EagerRun(sha256, start, events).0
  }

  /** Exactly the clock sequences in order hide that expiry is lazy: for those every run answers as the eager store,
      and for every other one some run does not. */
  lemma LazyIsEagerInOrder(sha256: string -> string, readings: seq<Time>)
    ensures AlwaysAgree(sha256, readings) <==> Monotone(readings)
  {
    if Monotone(readings) {
      forall start, events | Readings(events) == readings
        ensures LazyRun(sha256, start, events).0 == EagerRun(sha256, start, events).0
      {
        LazyRefinesEager(sha256, start, events);
      }
    } else {
      var i, k :| 0 <= i < k < |readings| && !InOrder(readings[i], readings[k]);
      DisagreesOutOfOrder(sha256, readings, i, k);
    }
  }

  lemma DisagreesOutOfOrder(sha256: string -> string, readings: seq<Time>, i: nat, k: nat)
    requires i < k < |readings| && !InOrder(readings[i], readings[k])
    ensures !AlwaysAgree(sha256, readings)
  {
    var deadline := if readings[k] == ZERO_TIME then 1 else readings[k];
    var r := Request("a", "", "ls", HashCommand(sha256, "ls"), "system", "", Pending, "", deadline - 1, deadline, None, "", "");
    var input := DecideInput("a", Approved, "", "");
    OldClockResurrects(sha256, readings, i, k, r, input);
    var events := Probe(readings, k, input);
    assert LazyRun(sha256, [r], events).0[k] != EagerRun(sha256, [r], events).0[k];
    hide LazyRun, EagerRun;
  }

  // ---------- What no run can do ----------

  /** The transitions a request may make: out of pending anywhere, from approved to executed, and no other. */
  predicate StatusMay(a: Status, b: Status) {
    a == b || a == Pending || (a == Approved && b == Executed)
  }

  predicate RequestMay(a: Request, b: Request) {
    && StatusMay(a.status, b.status)
    && a.id == b.id && a.command == b.command && a.commandHash == b.commandHash && a.requestedBy == b.requestedBy
    && a.repo == b.repo && a.reason == b.reason && a.createdAt == b.createdAt && a.expiresAt == b.expiresAt
    && (a.status != Pending ==>
          a.decisionAt == b.decisionAt && a.decidedBy == b.decidedBy && a.rationale == b.rationale)
  }

  /** Requests are only appended, and each one only moves on. */
  ghost predicate Evolves(a: seq<Request>, b: seq<Request>) {
    |a| <= |b| && forall i | 0 <= i < |a| :: RequestMay(a[i], b[i])
  }

  lemma StepEvolves(sha256: string -> string, file: seq<Request>, e: Event)
    ensures Evolves(file, LazyStep(sha256, file, e).1)
  {
    var current := Expire(file, e.now);
    assert Evolves(file, current);
    var written := Transact(sha256, e.op, current, e.now).1;
    if written.Some? {
      forall i | 0 <= i < |file| ensures RequestMay(file[i], written.value[i]) {
        assert current[i] == Expire1(file[i], e.now);
      }
    }
  }

  /** Over any run, with clock readings in any order: denied, expired and executed requests never change status, an
      approved one can only become executed, and the identifying fields never change. */
  lemma {:induction false} RunsOnlyMoveForward(sha256: string -> string, start: seq<Request>, events: seq<Event>, k: nat)
    requires k <= |events|
    ensures Evolves(LazyRun(sha256, start, events[..k]).1, LazyRun(sha256, start, events).1)
    decreases |events|
  {
    if k == |events| {
      assert events[..k] == events;
    } else {
      var front := events[..|events| - 1];
      assert front[..k] == events[..k];
      RunsOnlyMoveForward(sha256, start, front, k);
      StepEvolves(sha256, LazyRun(sha256, start, front).1, events[|events| - 1]);
      EvolvesTransitive(LazyRun(sha256, start, events[..k]).1, LazyRun(sha256, start, front).1, LazyRun(sha256, start, events).1);
    }
  }

  lemma EvolvesTransitive(a: seq<Request>, b: seq<Request>, c: seq<Request>)
    requires Evolves(a, b) && Evolves(b, c)
    ensures Evolves(a, c)
  {
    forall i | 0 <= i < |a| ensures RequestMay(a[i], c[i]) {
      assert RequestMay(a[i], b[i]) && RequestMay(b[i], c[i]);
    }
  }

  /** A request as the store keeps it: hashed, with a deadline after its creation, and decided -- if at all -- no
      later than the deadline, by someone. */
  predicate Sound(sha256: string -> string, r: Request) {
    && r.command != "" && r.commandHash == HashCommand(sha256, r.command)
    && r.expiresAt > r.createdAt >= ZERO_TIME
    && (r.decisionAt.Some? ==> r.decisionAt.value <= r.expiresAt && r.decidedBy != "")
    && Stamped(r)
  }

  /** Decided requests have a decision time, undecided ones have none; an executed one may have either. */
  predicate Stamped(r: Request) {
    && (r.status == Pending || r.status == Expired ==> r.decisionAt.None?)
    && (r.status == Approved || r.status == Denied ==> r.decisionAt.Some?)
  }

  lemma NewRequestSound(input: CreateInput, sha256: string -> string, id: string, now: Time)
    requires Trim(input.command) != "" && now >= ZERO_TIME
    ensures Sound(sha256, NewRequest(input, sha256, id, now))
  {
    TrimIsTrimmed(input.command);
    TrimFixed(Trim(input.command));
  }

  lemma DefaultNotEmpty(value: string, fallback: string)
    requires fallback != ""
    ensures DefaultValue(value, fallback) != ""
  {
  }

  /** Every request of every run from an empty store is sound, whatever the order of the clock readings. */
  lemma {:induction false} RunsStaySound(sha256: string -> string, events: seq<Event>)
    requires forall e <- events :: e.now >= ZERO_TIME
    ensures forall r <- LazyRun(sha256, [], events).1 :: Sound(sha256, r)
  {
    if events != [] {
      var front, e := events[..|events| - 1], events[|events| - 1];
      assert e in events && forall x <- front :: x in events;
      RunsStaySound(sha256, front);
      StepStaysSound(sha256, LazyRun(sha256, [], front).1, e);
    }
  }

  lemma ExpireSound(sha256: string -> string, rs: seq<Request>, now: Time)
    requires forall r <- rs :: Sound(sha256, r)
    ensures forall i | 0 <= i < |rs| :: Sound(sha256, Expire(rs, now)[i]) && !Overdue(Expire(rs, now)[i], now)
  {
    forall i | 0 <= i < |rs| ensures Sound(sha256, Expire(rs, now)[i]) && !Overdue(Expire(rs, now)[i], now) {
      assert rs[i] in rs && Expire(rs, now)[i] == Expire1(rs[i], now);
    }
  }

  lemma DecidedSound(sha256: string -> string, r: Request, input: DecideInput, now: Time)
    requires Sound(sha256, r) && r.status == Pending && !Overdue(r, now)
    requires now >= ZERO_TIME && (input.decision == Approved || input.decision == Denied)
    ensures Sound(sha256, Decided(r, input, now))
  {
    DefaultNotEmpty(input.approver, "operator");
  }

  lemma TransactSound(sha256: string -> string, op: Op, rs: seq<Request>, now: Time)
    requires now >= ZERO_TIME && forall i | 0 <= i < |rs| :: Sound(sha256, rs[i]) && !Overdue(rs[i], now)
    ensures var written := Transact(sha256, op, rs, now).1;
      written.Some? ==> forall i | 0 <= i < |written.value| :: Sound(sha256, written.value[i])
  {
    match op
    case Create(input, newID) =>
      if Trim(input.command) != "" { NewRequestSound(input, sha256, newID, now); }
    case Decide(input) =>
      var k := Find(rs, input.id);
      if k < |rs| && rs[k].status == Pending && (input.decision == Approved || input.decision == Denied) {
        DecidedSound(sha256, rs[k], input, now);
      }
    case MarkExecuted(id, runID) =>
      var k := Find(rs, id);
      if k < |rs| { assert Sound(sha256, ExecutedBy(rs[k], runID)) by { assert Sound(sha256, rs[k]); } }
    case Get(key) =>
    case List(filter) =>
  }

  lemma StepStaysSound(sha256: string -> string, file: seq<Request>, e: Event)
    requires e.now >= ZERO_TIME && forall r <- file :: Sound(sha256, r)
    ensures forall r <- LazyStep(sha256, file, e).1 :: Sound(sha256, r)
  {
    ExpireSound(sha256, file, e.now);
    TransactSound(sha256, e.op, Expire(file, e.now), e.now);
  }

  // ---------- Execution ----------

  lemma ExpireFinds(rs: seq<Request>, id: string, now: Time)
    ensures Find(Expire(rs, now), id) == Find(rs, id)
  {
    var current := Expire(rs, now);
    assert forall i | 0 <= i < |rs| :: current[i].id == rs[i].id;
  }

  /** The event executes request k: it is a stored MarkExecuted that finds it, after expiry, approved or pending. */
  predicate Executes(file: seq<Request>, e: Event, k: nat) {
    var current := Expire(file, e.now);
    e.op.MarkExecuted? && e.stored && k < |current| && k == Find(current, e.op.id)
    && (current[k].status == Approved || current[k].status == Pending)
  }

  /** A request is executed after an event exactly when it was before or the event executes it, which keeps its
      decision. */
  lemma StepExecuted(sha256: string -> string, file: seq<Request>, e: Event, k: nat)
    ensures var after := LazyStep(sha256, file, e).1;
      && (k < |after| && after[k].status == Executed <==> (k < |file| && file[k].status == Executed) || Executes(file, e, k))
      && (Executes(file, e, k) ==> after[k].decisionAt == file[k].decisionAt)
  {
    var current := Expire(file, e.now);
    assert k < |file| ==> current[k] == Expire1(file[k], e.now);
    match e.op
    case Create(input, newID) =>
    case Decide(input) =>
    case MarkExecuted(id, runID) =>
    case Get(key) =>
    case List(filter) =>
  }

  lemma TransactStamped(sha256: string -> string, op: Op, rs: seq<Request>, now: Time)
    requires forall i | 0 <= i < |rs| :: Stamped(rs[i])
    ensures var written := Transact(sha256, op, rs, now).1;
      written.Some? ==> forall i | 0 <= i < |written.value| :: Stamped(written.value[i])
  {
    hide Trim, HashCommand, DefaultValue;
    match op
    case Create(input, newID) =>
    case Decide(input) =>
    case MarkExecuted(id, runID) =>
    case Get(key) =>
    case List(filter) =>
  }

  lemma StepStamped(sha256: string -> string, file: seq<Request>, e: Event)
    requires forall r <- file :: Stamped(r)
    ensures forall r <- LazyStep(sha256, file, e).1 :: Stamped(r)
  {
    var current := Expire(file, e.now);
    forall i | 0 <= i < |current| ensures Stamped(current[i]) {
      assert file[i] in file && current[i] == Expire1(file[i], e.now);
    }
    TransactStamped(sha256, e.op, current, e.now);
    hide Stamped, Transact;
  }

  lemma {:induction false} RunsStamped(sha256: string -> string, events: seq<Event>)
    ensures forall r <- LazyRun(sha256, [], events).1 :: Stamped(r)
  {
    if events != [] {
      RunsStamped(sha256, events[..|events| - 1]);
      StepStamped(sha256, LazyRun(sha256, [], events[..|events| - 1]).1, events[|events| - 1]);
    }
  }

  /** What the file held when an event came. */
  ghost function Before(sha256: string -> string, events: seq<Event>, t: nat): seq<Request>
    requires t <= |events|
  {
    LazyRun(sha256, [], events[..t]).1
  }

  /** Some event of the run is of a kind, given what the file held when it came. */
  ghost predicate Happened(sha256: string -> string, events: seq<Event>, kind: (seq<Request>, Event) -> bool) {
    exists t :: 0 <= t < |events| && kind(Before(sha256, events, t), events[t])
  }

  lemma HappenedLast(sha256: string -> string, events: seq<Event>, kind: (seq<Request>, Event) -> bool)
    requires events != []
    ensures var n := |events| - 1;
      Happened(sha256, events, kind)
      <==> Happened(sha256, events[..n], kind) || kind(LazyRun(sha256, [], events[..n]).1, events[n])
  {
    hide LazyRun;
    var n := |events| - 1;
    var front := events[..n];
    forall t | 0 <= t < n ensures Before(sha256, front, t) == Before(sha256, events, t) && front[t] == events[t] {
      assert front[..t] == events[..t];
    }
    if t :| 0 <= t < |events| && kind(Before(sha256, events, t), events[t]) {
      assert t < n ==> kind(Before(sha256, front, t), front[t]);
    }
    if t :| 0 <= t < |front| && kind(Before(sha256, front, t), front[t]) {
      assert kind(Before(sha256, events, t), events[t]);
    }
    assert Before(sha256, events, n) == LazyRun(sha256, [], front).1;
  }

  /** Over any run from an empty store a request is executed in the end exactly when some event executed it. */
  lemma {:induction false} ExecutedBySome(sha256: string -> string, events: seq<Event>, k: nat)
    ensures var file := LazyRun(sha256, [], events).1;
      k < |file| && file[k].status == Executed <==> Happened(sha256, events, (before, e) => Executes(before, e, k))
    decreases |events|
  {
    if events != [] {
      hide LazyStep, Executes, Happened;
      var n := |events| - 1;
      ExecutedBySome(sha256, events[..n], k);
      StepExecuted(sha256, LazyRun(sha256, [], events[..n]).1, events[n], k);
      HappenedLast(sha256, events, (before, e) => Executes(before, e, k));
    }
  }

  /** And it then carries a decision exactly when it was not pending any more, after expiry, at the event that executed
      it. */
  lemma ExecutedWithDecision(sha256: string -> string, events: seq<Event>, t: nat, k: nat)
    requires t < |events| && Executes(Before(sha256, events, t), events[t], k)
    ensures var file := LazyRun(sha256, [], events).1;
      && k < |file| && file[k].status == Executed
      && (file[k].decisionAt.Some? <==> Expire(Before(sha256, events, t), events[t].now)[k].status != Pending)
  {
    var before := Before(sha256, events, t);
    var after := LazyRun(sha256, [], events[..t + 1]).1;
    assert events[..t + 1][..t] == events[..t];
    StepExecuted(sha256, before, events[t], k);
    RunsStamped(sha256, events[..t]);
    assert before[k] in before && Expire(before, events[t].now)[k] == Expire1(before[k], events[t].now);
    RunsOnlyMoveForward(sha256, [], events, t + 1);
    assert RequestMay(after[k], LazyRun(sha256, [], events).1[k]);
  }
}
