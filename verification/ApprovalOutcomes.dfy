/** What creating, deciding, executing and reading do to the requests of the file, said on the requests themselves; and
    the decisions of whole runs.  (internal/approvals/store.go) */
module ApprovalOutcomes {
  import opened Text
  import opened Approvals

  // ---------- One operation ----------

  /** The answer and the file after an operation whose file operations succeed. */
  function Outcome(sha256: string -> string, file: seq<Request>, op: Op, now: Time): (Reply, seq<Request>) {
    var (answer, after) := LazyStep(sha256, file, Event(op, now, true));
    (answer.reply, after)
  }

  /** The other requests have expired if they are overdue, and are as they were otherwise. */
  ghost predicate OthersExpired(file: seq<Request>, after: seq<Request>, now: Time, except: nat) {
    && |file| <= |after|
    && forall i | 0 <= i < |file| && i != except ::
      after[i] == if Overdue(file[i], now) then file[i].(status := Expired) else file[i]
  }

  /** Creating succeeds exactly for a command that is not blank: the request is appended, pending, with everything
      trimmed, the hash of its command, and a deadline after the given time or 15 minutes. */
  lemma CreateSucceeds(sha256: string -> string, file: seq<Request>, input: CreateInput, newID: string, now: Time)
    ensures var (reply, after) := Outcome(sha256, file, Create(input, newID), now);
      && reply.Single?
      && (reply.result.Success? <==> Trim(input.command) != "")
      && (reply.result.Success? ==>
            && |after| == |file| + 1 && OthersExpired(file, after, now, |file|) && reply.result.request == after[|file|]
            && var r := after[|file|];
               && r.id == newID && r.status == Pending && r.command == Trim(input.command) && r.commandHash == sha256(r.command)
               && r.requestedBy == (if Trim(input.requestedBy) == "" then "system" else Trim(input.requestedBy))
               && r.runID == Trim(input.runID) && r.repo == Trim(input.repo) && r.reason == Trim(input.reason)
               && r.createdAt == now && r.expiresAt - now == (if input.ttl > 0 then input.ttl else 900_000_000_000)
               && r.decisionAt == None && r.decidedBy == "" && r.rationale == "")
      && (!reply.result.Success? ==> reply.result.error == CommandRequired && after == file)
  {
    hide Trim;
  }

  /** The verdict on a request: by whom and why it was decided how and when; all else stays. */
  predicate CarriesVerdict(before: Request, after: Request, input: DecideInput, now: Time) {
    && after.status == input.decision && after.rationale == Trim(input.rationale) && after.decisionAt == Some(now)
    && after.decidedBy == (if Trim(input.approver) == "" then "operator" else Trim(input.approver))
    && after == before.(status := after.status, rationale := after.rationale, decisionAt := after.decisionAt, decidedBy := after.decidedBy)
  }

  /** Deciding succeeds exactly when the decision is approved or denied and the first request of the id is pending and
      not overdue.  That request then carries the verdict; and each refusal has its cause. */
  lemma DecideSucceeds(sha256: string -> string, file: seq<Request>, input: DecideInput, now: Time)
    ensures var (reply, after) := Outcome(sha256, file, Decide(input), now);
      var k := Find(file, input.id);
      && reply.Single?
      && (reply.result.Success? <==>
            && (input.decision == Approved || input.decision == Denied)
            && k < |file| && file[k].status == Pending && !Overdue(file[k], now))
      && (reply.result.Success? ==>
            && |after| == |file| && OthersExpired(file, after, now, k) && reply.result.request == after[k]
            && CarriesVerdict(file[k], after[k], input, now))
      && (!reply.result.Success? ==>
            after == file
            && match reply.result.error
            case InvalidDecision => input.decision != Approved && input.decision != Denied
            case NotFound(id) => id == input.id && forall r <- file :: r.id != id
            case WrongStatus(id, status) => id == input.id && k < |file| && status == (if Overdue(file[k], now) then Expired else file[k].status)
            case _ => false)
  {
    ExpireFinds(file, input.id, now);
    FirstOrNone(file, input.id);
    hide Trim;
  }

  lemma FirstOrNone(file: seq<Request>, id: string)
    ensures Find(file, id) == |file| <==> forall r <- file :: r.id != id
  {
    if Find(file, id) < |file| { assert file[Find(file, id)] in file; }
  }

  /** Executing succeeds exactly when the first request of the id is approved, or pending and not overdue; it changes the
      status, and the run when one is named. */
  lemma MarkExecutedSucceeds(sha256: string -> string, file: seq<Request>, id: string, runID: string, now: Time)
    ensures var (reply, after) := Outcome(sha256, file, MarkExecuted(id, runID), now);
      var k := Find(file, id);
      && reply.Single?
      && (reply.result.Success? <==>
            k < |file| && (file[k].status == Approved || (file[k].status == Pending && !Overdue(file[k], now))))
      && (reply.result.Success? ==>
            && |after| == |file| && OthersExpired(file, after, now, k) && reply.result.request == after[k]
            && after[k] == file[k].(status := Executed, runID := if Trim(runID) == "" then file[k].runID else runID))
      && (!reply.result.Success? ==>
            after == file
            && match reply.result.error
            case NotFound(missing) => missing == id && forall r <- file :: r.id != id
            case WrongStatus(found, status) => found == id && k < |file| && status == (if Overdue(file[k], now) then Expired else file[k].status)
            case _ => false)
  {
    ExpireFinds(file, id, now);
    FirstOrNone(file, id);
    hide Trim;
  }

  /** Reading one request finds the first of the id, expired if it is overdue, and changes nothing. */
  lemma GetFindsFirst(sha256: string -> string, file: seq<Request>, id: string, now: Time)
    ensures var (reply, after) := Outcome(sha256, file, Get(id), now);
      var k := Find(file, id);
      && after == file && reply.Single?
      && (reply.result.Success? <==> exists r <- file :: r.id == id)
      && (reply.result.Success? ==>
            k < |file| && reply.result.request == if Overdue(file[k], now) then file[k].(status := Expired) else file[k])
      && (!reply.result.Success? ==> reply.result.error == NotFound(id))
  {
    ExpireFinds(file, id, now);
    FirstOrNone(file, id);
  }

  /** A filtered list holds each matching request as often as the list, and no other. */
  lemma {:induction false} FilterMatches(rs: seq<Request>, filter: Option<Status>, r: Request)
    ensures multiset(Filter(rs, filter))[r] == if filter.None? || r.status == filter.value then multiset(rs)[r] else 0
  {
    if rs != [] {
      Counted(rs);
      FilterMatches(rs[..|rs| - 1], filter, r);
    }
  }

  /** In the same order. */
  lemma {:induction false} FilterKeepsOrder(rs: seq<Request>, filter: Option<Status>, t: Time)
    ensures CreatedAt(Filter(rs, filter), t) == Filter(CreatedAt(rs, t), filter)
  {
    if rs != [] {
      var n := |rs| - 1;
      var front, r := rs[..n], rs[n];
      FilterKeepsOrder(front, filter, t);
      if filter.None? || r.status == filter.value {
        assert (Filter(front, filter) + [r])[..|Filter(front, filter)|] == Filter(front, filter);
      } else {
        assert Filter(front, filter) + [] == Filter(front, filter);
      }
      if r.createdAt == t {
        assert (CreatedAt(front, t) + [r])[..|CreatedAt(front, t)|] == CreatedAt(front, t);
      } else {
        assert CreatedAt(front, t) + [] == CreatedAt(front, t);
      }
    }
  }

  /** Listing answers with the requests of the wanted status after expiry, newest first, those of one moment in the
      order of the file, and changes nothing. */
  lemma ListsMatching(sha256: string -> string, file: seq<Request>, filter: Option<Status>, now: Time)
    ensures var (reply, after) := Outcome(sha256, file, List(filter), now);
      && after == file && reply.Many? && NewestSorted(reply.requests)
      && (forall r: Request :: multiset(reply.requests)[r] ==
            if filter.None? || r.status == filter.value then multiset(Expire(file, now))[r] else 0)
      && (forall t :: CreatedAt(reply.requests, t) == Filter(CreatedAt(Expire(file, now), t), filter))
  {
    hide Filter, NewestFirst, CreatedAt, NewestSorted, Expire;
    var current := Expire(file, now);
    assert Outcome(sha256, file, List(filter), now) == (Many(NewestFirst(Filter(current, filter))), file);
    NewestFirstIsStableSort(Filter(current, filter));
    hide *;
    forall r: Request { FilterMatches(current, filter, r); }
    forall t { FilterKeepsOrder(current, filter, t); }
  }

  // ---------- Decisions over runs ----------

  /** The event decides request k: a stored decision, approved or denied, that is the first of its id, pending and not
      overdue. */
  predicate Decides(file: seq<Request>, e: Event, k: nat) {
    && e.op.Decide? && e.stored && (e.op.decision.decision == Approved || e.op.decision.decision == Denied)
    && k < |file| && k == Find(file, e.op.decision.id) && file[k].status == Pending && !Overdue(file[k], e.now)
  }

  /** A request carries a decision after an event exactly when it did before or the event decides it. */
  lemma StepDecided(sha256: string -> string, file: seq<Request>, e: Event, k: nat)
    ensures var after := LazyStep(sha256, file, e).1;
      && (k < |after| && after[k].decisionAt.Some? <==> (k < |file| && file[k].decisionAt.Some?) || Decides(file, e, k))
      && (Decides(file, e, k) ==> CarriesVerdict(file[k], after[k], e.op.decision, e.now))
  {
    var current := Expire(file, e.now);
    assert k < |file| ==> current[k] == Expire1(file[k], e.now);
    hide Trim;
    match e.op
    case Create(input, newID) =>
    case Decide(input) => ExpireFinds(file, input.id, e.now);
    case MarkExecuted(id, runID) =>
    case Get(key) =>
    case List(filter) =>
  }

  /** Over any run from an empty store a request carries a decision in the end exactly when some event decided it. */
  lemma {:induction false} DecidedBySome(sha256: string -> string, events: seq<Event>, k: nat)
    ensures var file := LazyRun(sha256, [], events).1;
      k < |file| && file[k].decisionAt.Some? <==> Happened(sha256, events, (before, e) => Decides(before, e, k))
    decreases |events|
  {
    if events != [] {
      hide LazyStep, Decides, Happened;
      var n := |events| - 1;
      DecidedBySome(sha256, events[..n], k);
      StepDecided(sha256, LazyRun(sha256, [], events[..n]).1, events[n], k);
      HappenedLast(sha256, events, (before, e) => Decides(before, e, k));
    }
  }

  /** And it carries that verdict to the end of the run; only an approved request can leave it, by being executed. */
  lemma VerdictStands(sha256: string -> string, events: seq<Event>, t: nat, k: nat)
    requires t < |events| && Decides(Before(sha256, events, t), events[t], k)
    ensures var file, input := LazyRun(sha256, [], events).1, events[t].op.decision;
      && k < |file| && file[k].decisionAt == Some(events[t].now) && file[k].rationale == Trim(input.rationale)
      && file[k].decidedBy == (if Trim(input.approver) == "" then "operator" else Trim(input.approver))
      && (file[k].status == input.decision || (input.decision == Approved && file[k].status == Executed))
  {
    var before, after := Before(sha256, events, t), LazyRun(sha256, [], events[..t + 1]).1;
    assert events[..t + 1][..t] == events[..t];
    StepDecided(sha256, before, events[t], k);
    RunsOnlyMoveForward(sha256, [], events, t + 1);
    hide Trim, LazyStep, LazyRun;
    assert RequestMay(after[k], LazyRun(sha256, [], events).1[k]);
  }
}
