/** Concurrent updates of one agent bead under its lock.  (internal/beads/beads_agent.go, lockAgentBead and the
    operations that use it) */
module AgentUpdates {
  import opened Text
  import opened KeyLines
  import opened AgentBeads
  import opened LockedSections

  /** What bd stores of an agent bead, as far as these operations touch it. */
  datatype Bead = Bead(title: string, description: string)

  /** UpdateAgentDescriptionFields, ResetAgentBeadForReuse, and the show-and-rewrite of CreateOrReopenAgentBead. */
  datatype AgentOp =
    | Update(
        cleanupStatus: Option<string>, activeMR: Option<string>, notificationLevel: Option<string>, mode: Option<string>)
    | Reset
    | Respawn(title: string, fields: Option<AgentFields>)

  function Or(update: Option<string>, current: string): string {
    if update.Some? then update.value else current
  }

  /** The fields an operation writes, from those it read. */
  function Apply(op: AgentOp, f: AgentFields): AgentFields {
    match op
    case Update(cleanup, mr, level, mode) =>
      f.(cleanupStatus := Or(cleanup, f.cleanupStatus), activeMR := Or(mr, f.activeMR),
         notificationLevel := Or(level, f.notificationLevel), mode := Or(mode, f.mode))
    case Reset => f.(hookBead := "", activeMR := "", cleanupStatus := "", agentState := "nuked")
    case Respawn(title, fields) => if fields.Some? then fields.value else ParsedAgent(title)
  }

  /** The bead an operation writes, from the one it read. */
  function Rewrite(op: AgentOp, bead: Bead): Bead {
    match op
    case Respawn(title, fields) => Bead(title, Formatted(title, fields))
    case _ => bead.(description := Formatted(bead.title, Some(Apply(op, ParsedAgent(bead.description)))))
  }

  predicate ValidLevel(level: string) {
    level == "" || level == "verbose" || level == "normal" || level == "muted"
  }

  // ---------- The operations, run alone ----------

  datatype Failure = InvalidLevel | LockFailed | ShowFailed | UpdateFailed

  /** The beads of one directory.  Locking, showing and updating may each fail. */
  class AgentStore {
    var beads: map<string, Bead>

    constructor ()
      ensures beads == map[]
    {
      beads := map[];
    }

    method Show(id: string) returns (bead: Option<Bead>)
      ensures bead.Some? ==> id in beads && bead.value == beads[id]
    {
      var fault: bool := *;
      bead := if fault || id !in beads then None else Some(beads[id]);
    }

    method UpdateDescription(id: string, description: string) returns (ok: bool)
      requires id in beads
      modifies this
      ensures beads == if ok then old(beads)[id := old(beads)[id].(description := description)] else old(beads)
    {
      ok := *;
      if ok {
        beads := beads[id := beads[id].(description := description)];
      }
    }

    /** Rewrites the named fields and nothing else; on any failure the store is as it was. */
    method UpdateAgentDescriptionFields(id: string, updates: AgentOp) returns (failure: Option<Failure>)
      requires updates.Update?
      modifies this
      ensures failure.None? ==> id in old(beads) && beads == old(beads)[id := Rewrite(updates, old(beads)[id])]
      ensures failure.Some? ==> beads == old(beads)
      ensures failure == Some(InvalidLevel) <==>
        updates.notificationLevel.Some? && updates.notificationLevel.value !in ["", "verbose", "normal", "muted"]
    {
      if updates.notificationLevel.Some? && !ValidLevel(updates.notificationLevel.value) {
        return Some(InvalidLevel);
      }
      var locked: bool := *;
      if !locked {
        return Some(LockFailed);
      }
      var issue := Show(id);
      if issue.None? {
        return Some(ShowFailed);
      }
      hide Formatted, ParsedAgent;
      var fields := ParseAgentFields(issue.value.description);
      if updates.cleanupStatus.Some? {
        fields := fields.(cleanupStatus := updates.cleanupStatus.value);
      }
      if updates.activeMR.Some? {
        fields := fields.(activeMR := updates.activeMR.value);
      }
      if updates.notificationLevel.Some? {
        fields := fields.(notificationLevel := updates.notificationLevel.value);
      }
      if updates.mode.Some? {
        fields := fields.(mode := updates.mode.value);
      }
      var description := FormatAgentDescription(issue.value.title, Some(fields));
      var ok := UpdateDescription(id, description);
      failure := if ok then None else Some(UpdateFailed);
    }

    method ResetAgentBeadForReuse(id: string) returns (failure: Option<Failure>)
      modifies this
      ensures failure.None? ==> id in old(beads) && beads == old(beads)[id := Rewrite(Reset, old(beads)[id])]
      ensures failure.Some? ==> beads == old(beads)
    {
      var locked: bool := *;
      if !locked {
        return Some(LockFailed);
      }
      var issue := Show(id);
      if issue.None? {
        return Some(ShowFailed);
      }
      hide Formatted, ParsedAgent;
      var fields := ParseAgentFields(issue.value.description);
      fields := fields.(hookBead := "");
      fields := fields.(activeMR := "");
      fields := fields.(cleanupStatus := "");
      fields := fields.(agentState := "nuked");
      assert fields == Apply(Reset, ParsedAgent(issue.value.description));
      hide Apply;
      var description := FormatAgentDescription(issue.value.title, Some(fields));
      var ok := UpdateDescription(id, description);
      failure := if ok then None else Some(UpdateFailed);
    }
  }

  // ---------- The operations, interleaved ----------

  datatype AgentLocal = Begin | Fetched(bead: Bead) | Ended(written: bool)

  /** What a backend call answers. */
  datatype Reply = Ok | Fault

  function StartAgent(op: AgentOp): AgentLocal { Begin }

  /** Show is one atomic step, Update another; between them other processes run.  The update writes the description
      computed from what was shown into whatever bead is there by then. */
  function StepAgent(op: AgentOp, local: AgentLocal, bead: Option<Bead>, reply: Reply): (AgentLocal, Option<Bead>) {
    match local
    case Begin => if reply.Fault? || bead.None? then (Ended(false), bead) else (Fetched(bead.value), bead)
    case Fetched(shown) =>
      if reply.Fault? || bead.None? then (Ended(false), bead)
      else
        var rewritten := Rewrite(op, shown);
        (Ended(true), Some(if op.Respawn? then rewritten else bead.value.(description := rewritten.description)))
    case Ended(_) => (local, bead)
  }

  function OverAgent(local: AgentLocal): bool { local.Ended? }

  const AGENT_SECTION := Section(StartAgent, StepAgent, OverAgent)

  type AgentWorld = World<AgentOp, AgentLocal, Option<Bead>, Reply>

  /** Alone, an operation writes the rewritten bead or leaves it alone. */
  lemma {:induction false} AloneWritesOrNot(op: AgentOp, bead: Option<Bead>, replies: seq<Reply>)
    ensures var (local, after) := Alone(AGENT_SECTION, op, bead, replies);
      && (local == Ended(true) ==> bead.Some? && after == Some(Rewrite(op, bead.value)))
      && (local != Ended(true) ==> after == bead)
      && (local.Fetched? ==> bead == Some(local.bead))
  {
    hide Formatted, ParsedAgent, Apply;
    if replies != [] {
      AloneWritesOrNot(op, bead, replies[..|replies| - 1]);
    }
  }

  /** And it has written exactly when the bead was there and both the show and the update answered. */
  lemma {:induction false} AloneEnds(op: AgentOp, bead: Option<Bead>, replies: seq<Reply>)
    ensures Alone(AGENT_SECTION, op, bead, replies).0 ==
      if replies == [] then Begin
      else if replies[0] == Fault || bead == None then Ended(false)
      else if |replies| == 1 then Fetched(bead.value)
      else Ended(replies[1] == Ok)
  {
    if replies != [] {
      hide Rewrite, Alone;
      var n := |replies| - 1;
      AloneEnds(op, bead, replies[..n]);
      AloneWritesOrNot(op, bead, replies[..n]);
      AloneLast(op, bead, replies);
      assert n > 0 ==> replies[..n][0] == replies[0];
      assert n > 1 ==> replies[..n][1] == replies[1];
      assert replies[..n] == [] <==> n == 0;
    }
  }

  lemma AloneLast(op: AgentOp, bead: Option<Bead>, replies: seq<Reply>)
    requires replies != []
    ensures var (l, b) := Alone(AGENT_SECTION, op, bead, replies[..|replies| - 1]);
      Alone(AGENT_SECTION, op, bead, replies) == StepAgent(op, l, b, replies[|replies| - 1])
  {
    hide StepAgent;
  }

  /** So in every run a process whose show and update answered has written, whatever its operation. */
  lemma TurnWrites(w0: AgentWorld, b0: Bead, events: seq<Event<Reply>>, k: nat)
    requires Initial(w0) && w0.shared == Some(b0) && Execute(AGENT_SECTION, w0, events).Some?
    ensures var w := Execute(AGENT_SECTION, w0, events).value;
      Took(w.processes, w.turns) && (k < |w.turns| ==>
        var p := w.processes[w.turns[k]];
        p.local == Ended(true) <==> |p.inputs| >= 2 && p.inputs[0] == Ok && p.inputs[1] == Ok)
  {
    RunsAreSerial(AGENT_SECTION, w0, events);
    var w := Execute(AGENT_SECTION, w0, events).value;
    if k < |w.turns| {
      var p := w.processes[w.turns[k]];
      hide Execute, Written, RewriteAll;
      SerialIsRewriteAll(w, b0, k);
      SerialTurn(AGENT_SECTION, Some(b0), w, k + 1);
      hide Alone, Serial, StepAgent;
      AloneEnds(p.op, Some(RewriteAll(Written(w, k), b0)), p.inputs);
    }
  }

  /** The operations that wrote, in lock order. */
  ghost function Written(w: AgentWorld, n: nat): seq<AgentOp>
    requires n <= |w.turns| && Took(w.processes, w.turns)
  {
    if n == 0 then []
    else
      var p := w.processes[w.turns[n - 1]];
      Written(w, n - 1) + if p.local == Ended(true) then [p.op] else []
  }

  function RewriteAll(ops: seq<AgentOp>, bead: Bead): Bead {
    if ops == [] then bead else Rewrite(ops[|ops| - 1], RewriteAll(ops[..|ops| - 1], bead))
  }

  lemma {:induction false} SerialIsRewriteAll(w: AgentWorld, b0: Bead, n: nat)
    requires n <= |w.turns| && Inv(AGENT_SECTION, Some(b0), w)
    ensures Serial(AGENT_SECTION, Some(b0), w.processes, w.turns[..n]) == Some(RewriteAll(Written(w, n), b0))
  {
    hide Rewrite, Alone, SawSerial;
    if n > 0 {
      SerialIsRewriteAll(w, b0, n - 1);
      SerialTurn(AGENT_SECTION, Some(b0), w, n);
      var p, before := w.processes[w.turns[n - 1]], Written(w, n - 1);
      AloneWritesOrNot(p.op, Some(RewriteAll(before, b0)), p.inputs);
      RewriteAllSnoc(before, p.op, b0);
    }
  }

  lemma RewriteAllSnoc(ops: seq<AgentOp>, op: AgentOp, bead: Bead)
    ensures RewriteAll(ops + [op], bead) == Rewrite(op, RewriteAll(ops, bead))
    ensures RewriteAll(ops + [], bead) == RewriteAll(ops, bead)
  {
    assert (ops + [op])[..|ops|] == ops && ops + [] == ops;
  }

  /** Every interleaving ends with the bead that the successful operations leave when run one after the other in
      the order they took the lock. */
  lemma InterleavingsSerialize(w0: AgentWorld, b0: Bead, events: seq<Event<Reply>>)
    requires Initial(w0) && w0.shared == Some(b0) && Execute(AGENT_SECTION, w0, events).Some?
    ensures var w := Execute(AGENT_SECTION, w0, events).value;
      Took(w.processes, w.turns) && w.shared == Some(RewriteAll(Written(w, |w.turns|), b0))
  {
    RunsAreSerial(AGENT_SECTION, w0, events);
    var w := Execute(AGENT_SECTION, w0, events).value;
    SerialIsRewriteAll(w, b0, |w.turns|);
    assert w.turns[..|w.turns|] == w.turns;
  }

  // ---------- The fields they leave ----------

  function ApplyAll(ops: seq<AgentOp>, f: AgentFields): AgentFields {
    if ops == [] then f else Apply(ops[|ops| - 1], ApplyAll(ops[..|ops| - 1], f))
  }

  predicate StorableUpdate(update: Option<string>) {
    update.Some? ==> Storable(update.value)
  }

  /** The operation's values read back as themselves. */
  ghost predicate StorableOp(op: AgentOp) {
    match op
    case Update(cleanup, mr, level, mode) =>
      StorableUpdate(cleanup) && StorableUpdate(mr) && StorableUpdate(level) && StorableUpdate(mode)
    case Reset => true
    case Respawn(title, fields) => fields.Some? ==> StorableFields(fields.value)
  }

  lemma ApplyKeepsStorable(op: AgentOp, f: AgentFields, s: AgentSlot)
    requires StorableOp(op) && Storable(AgentValue(f, s))
    ensures Storable(AgentValue(Apply(op, f), s))
  {
    if op.Respawn? && op.fields.None? {
      ParsedIsStorable(op.title);
    } else {
      assert Storable("nuked") && Storable("");
      if op.Respawn? { assert Storable(AgentValue(op.fields.value, s)); }
    }
  }

  /** The mode a bead shows when its record has none. */
  function TitleMode(bead: Bead): string {
    ParsedAgent(bead.title).mode
  }

  /** What a formatted record of storable values reads as. */
  lemma FormattedReads(title: string, f: AgentFields, s: AgentSlot)
    requires StorableFields(f)
    ensures AgentValue(ParsedAgent(Formatted(title, Some(f))), s) ==
      if s == Mode && f.mode == "" then ParsedAgent(title).mode else AgentValue(f, s)
  {
    hide ParsedAgent, Formatted, Trim;
    forall t: AgentSlot ensures '\n' !in AgentValue(f, t) { assert Storable(AgentValue(f, t)); }
    FormattedValues(title, f, s);
    assert Storable(AgentValue(f, s));
    TrimFixed(AgentValue(f, s));
  }

  /** What a rewritten bead says, slot by slot: what the operation gives, except that the title's mode shows through
      an empty one. */
  lemma RewriteReads(op: AgentOp, bead: Bead, s: AgentSlot)
    requires StorableOp(op)
    ensures var given := Apply(op, ParsedAgent(bead.description));
      AgentValue(ParsedAgent(Rewrite(op, bead).description), s) ==
        if s == Mode && given.mode == "" then TitleMode(Rewrite(op, bead)) else AgentValue(given, s)
  {
    var given := Apply(op, ParsedAgent(bead.description));
    ParsedIsStorable(bead.description);
    forall slot: AgentSlot ensures Storable(AgentValue(given, slot)) {
      assert Storable(AgentValue(ParsedAgent(bead.description), slot));
      ApplyKeepsStorable(op, ParsedAgent(bead.description), slot);
    }
    if op.Respawn? && op.fields.None? {
      assert Formatted(op.title, None) == op.title;
    } else {
      FormattedReads(Rewrite(op, bead).title, given, s);
    }
  }

  /** So rewriting the text is updating the parsed fields exactly when the operation leaves a mode or the title has
      none. */
  lemma RewriteApplies(op: AgentOp, bead: Bead)
    requires StorableOp(op)
    ensures ParsedAgent(Rewrite(op, bead).description) == Apply(op, ParsedAgent(bead.description))
      <==> Apply(op, ParsedAgent(bead.description)).mode != "" || TitleMode(Rewrite(op, bead)) == ""
  {
    var given, read := Apply(op, ParsedAgent(bead.description)), ParsedAgent(Rewrite(op, bead).description);
    forall s: AgentSlot
      ensures AgentValue(read, s) == if s == Mode && given.mode == "" then TitleMode(Rewrite(op, bead)) else AgentValue(given, s)
    {
      RewriteReads(op, bead, s);
    }
    hide ParsedAgent, Rewrite, Apply;
    SameButMode(read, given, TitleMode(Rewrite(op, bead)));
  }

  /** Two records that differ in the mode only, and there as stated. */
  lemma SameButMode(read: AgentFields, given: AgentFields, shown: string)
    requires forall s: AgentSlot :: AgentValue(read, s) == if s == Mode && given.mode == "" then shown else AgentValue(given, s)
    ensures read == given <==> given.mode != "" || shown == ""
  {
    assert AgentValue(read, Mode) == read.mode && AgentValue(given, Mode) == given.mode;
    if given.mode != "" || shown == "" {
      SameFields(read, given);
    }
  }

  /** An update, on the fields the text says: what is named is set, all else stays; an empty mode shows the title's. */
  lemma UpdateReads(cleanup: Option<string>, mr: Option<string>, level: Option<string>, mode: Option<string>, bead: Bead)
    requires StorableUpdate(cleanup) && StorableUpdate(mr) && StorableUpdate(level) && StorableUpdate(mode)
    ensures var f, m := ParsedAgent(bead.description), if mode.Some? then mode.value else ParsedAgent(bead.description).mode;
      ParsedAgent(Rewrite(Update(cleanup, mr, level, mode), bead).description) == AgentFields(
        f.roleType, f.rig, f.agentState, f.hookBead,
        if cleanup.Some? then cleanup.value else f.cleanupStatus, if mr.Some? then mr.value else f.activeMR,
        if level.Some? then level.value else f.notificationLevel, if m == "" then ParsedAgent(bead.title).mode else m)
    ensures Rewrite(Update(cleanup, mr, level, mode), bead).title == bead.title
  {
    OperationReads(Update(cleanup, mr, level, mode), bead);
    hide ParsedAgent, Formatted, Storable;
  }

  /** A reset: the bead is nuked, with no hook, merge request or cleanup status.  Role, rig -- and also the notification
      level and the mode -- stay. */
  lemma ResetReads(bead: Bead)
    ensures var f := ParsedAgent(bead.description);
      ParsedAgent(Rewrite(Reset, bead).description) == AgentFields(
        f.roleType, f.rig, "nuked", "", "", "", f.notificationLevel, if f.mode == "" then ParsedAgent(bead.title).mode else f.mode)
    ensures Rewrite(Reset, bead).title == bead.title
  {
    OperationReads(Reset, bead);
    hide ParsedAgent, Formatted, Storable;
  }

  /** A respawn: the new title and fields, whatever the bead said. */
  lemma RespawnReads(title: string, fields: AgentFields, bead: Bead)
    requires StorableFields(fields)
    ensures var after := Rewrite(Respawn(title, Some(fields)), bead);
      after.title == title
      && ParsedAgent(after.description) == if fields.mode == "" then fields.(mode := ParsedAgent(title).mode) else fields
  {
    OperationReads(Respawn(title, Some(fields)), bead);
    hide ParsedAgent, Formatted, Storable;
  }

  lemma OperationReads(op: AgentOp, bead: Bead)
    requires StorableOp(op)
    ensures var given, title := Apply(op, ParsedAgent(bead.description)), TitleMode(Rewrite(op, bead));
      ParsedAgent(Rewrite(op, bead).description) == if given.mode == "" then given.(mode := title) else given
  {
    var given, title := Apply(op, ParsedAgent(bead.description)), TitleMode(Rewrite(op, bead));
    hide ParsedAgent, Rewrite, Apply, TitleMode, StorableOp;
    forall s: AgentSlot { RewriteReads(op, bead, s); }
    SameFields(ParsedAgent(Rewrite(op, bead).description), if given.mode == "" then given.(mode := title) else given);
  }

  /** After some operations every slot holds what they give when applied to the fields; only a mode they leave empty
      shows the title's. */
  lemma {:induction false} RewriteAllReads(ops: seq<AgentOp>, bead: Bead, s: AgentSlot)
    requires ops != [] && forall i | 0 <= i < |ops| :: StorableOp(ops[i])
    ensures var given, after := ApplyAll(ops, ParsedAgent(bead.description)), RewriteAll(ops, bead);
      AgentValue(ParsedAgent(after.description), s) ==
        if s == Mode && given.mode == "" then TitleMode(after) else AgentValue(given, s)
    decreases |ops|
  {
    var front, op := ops[..|ops| - 1], ops[|ops| - 1];
    var before := RewriteAll(front, bead);
    RewriteReads(op, before, s);
    RewriteReads(op, before, Mode);
    TouchStep(op, ParsedAgent(before.description), s);
    TouchStep(op, ApplyAll(front, ParsedAgent(bead.description)), s);
    if front != [] {
      RewriteAllReads(front, bead, s);
      TitleStays(op, before);
    }
    ModeIsSlot(Apply(op, ParsedAgent(before.description)));
    ModeIsSlot(ApplyAll(ops, ParsedAgent(bead.description)));
    ModeIsSlot(ApplyAll(front, ParsedAgent(bead.description)));
    hide ParsedAgent, Rewrite, Apply, StorableOp, AgentValue, TitleMode;
  }

  lemma ModeIsSlot(f: AgentFields)
    ensures f.mode == AgentValue(f, Mode)
  {
  }

  /** An operation that does not touch the mode does not touch the title. */
  lemma TitleStays(op: AgentOp, bead: Bead)
    ensures Touch(op, Mode).None? ==> TitleMode(Rewrite(op, bead)) == TitleMode(bead)
  {
  }

  /** So the text agrees with the operations exactly when there were none, they leave a mode, or the title has none. */
  lemma RewriteAllApplies(ops: seq<AgentOp>, bead: Bead)
    requires forall i | 0 <= i < |ops| :: StorableOp(ops[i])
    ensures var given, after := ApplyAll(ops, ParsedAgent(bead.description)), RewriteAll(ops, bead);
      ParsedAgent(after.description) == given <==> ops == [] || given.mode != "" || TitleMode(after) == ""
  {
    var given, after := ApplyAll(ops, ParsedAgent(bead.description)), RewriteAll(ops, bead);
    if ops != [] {
      forall s: AgentSlot
        ensures AgentValue(ParsedAgent(after.description), s)
          == if s == Mode && given.mode == "" then TitleMode(after) else AgentValue(given, s)
      {
        RewriteAllReads(ops, bead, s);
      }
      hide ParsedAgent, RewriteAll, ApplyAll, TitleMode;
      SameButMode(ParsedAgent(after.description), given, TitleMode(after));
    }
  }

  /** Every interleaving leaves the fields that the operations that wrote give when applied in lock order to the fields
      read at the start: no update is lost in the text.  The one exception is the mode, exactly when they leave it empty
      and the title has one. */
  lemma InterleavedFields(w0: AgentWorld, b0: Bead, events: seq<Event<Reply>>)
    requires Initial(w0) && w0.shared == Some(b0) && Execute(AGENT_SECTION, w0, events).Some?
    requires forall p <- w0.processes :: StorableOp(p.op)
    ensures var w := Execute(AGENT_SECTION, w0, events).value;
      && Took(w.processes, w.turns) && w.shared.Some?
      && var ops, read := Written(w, |w.turns|), ParsedAgent(w.shared.value.description);
         var given := ApplyAll(ops, ParsedAgent(b0.description));
         && (read == given <==> ops == [] || given.mode != "" || TitleMode(w.shared.value) == "")
         && forall s: AgentSlot | s != Mode :: AgentValue(read, s) == AgentValue(given, s)
  {
    InterleavingsSerialize(w0, b0, events);
    OperationsFixed(AGENT_SECTION, w0, events);
    var w := Execute(AGENT_SECTION, w0, events).value;
    var ops := Written(w, |w.turns|);
    WrittenAmong(w0, w, |w.turns|);
    hide Execute, Initial, Written, ParsedAgent, RewriteAll, ApplyAll, StorableOp, Took, AgentValue, TitleMode;
    RewriteAllApplies(ops, b0);
    forall s: AgentSlot | s != Mode
      ensures AgentValue(ParsedAgent(RewriteAll(ops, b0).description), s) == AgentValue(ApplyAll(ops, ParsedAgent(b0.description)), s)
    {
      if ops != [] { RewriteAllReads(ops, b0, s); } else { NoOps(b0); }
    }
  }

  lemma NoOps(b0: Bead)
    ensures RewriteAll([], b0) == b0 && ApplyAll([], ParsedAgent(b0.description)) == ParsedAgent(b0.description)
  {
  }

  /** The exception: on a bead titled with a mode line, setting the mode to nothing brings the title's mode back. */
  lemma TitleModeReturns(mode: string, description: string)
    requires Storable(mode) && mode != ""
    ensures var bead, op := Bead(FieldLine(AgentName(Mode), mode), description), Update(None, None, None, Some(""));
      && Apply(op, ParsedAgent(description)).mode == ""
      && ParsedAgent(Rewrite(op, bead).description).mode == mode
  {
    var title := FieldLine(AgentName(Mode), mode);
    var bead, op := Bead(title, description), Update(None, None, None, Some(""));
    assert StorableOp(op) by { assert Storable(""); }
    TitleReads(title, mode);
    RewriteReads(op, bead, Mode);
    ModeIsSlot(ParsedAgent(Rewrite(op, bead).description));
    hide ParsedAgent, Formatted, FieldLine, Storable;
  }

  lemma TitleReads(title: string, mode: string)
    requires title == FieldLine(AgentName(Mode), mode) && Storable(mode) && mode != ""
    ensures ParsedAgent(title).mode == mode
  {
    TitleLine(title, mode);
    AGENT.CollectSnoc([], title);
    AgentOfValue(AGENT.Collect([title]), Mode);
    hide FieldLine, Lens.Collect, Split, ReadAgent;
    assert AGENT.Collect([]) == map[] by { NothingCollects(); }
    assert [] + [title] == [title] && map[] + map[Mode := mode] == map[Mode := mode];
  }

  lemma NothingCollects()
    ensures AGENT.Collect([]) == map[]
  {
  }

  lemma TitleLine(title: string, mode: string)
    requires title == FieldLine(AgentName(Mode), mode) && Storable(mode)
    ensures ReadAgent(title) == map[Mode := mode] && Split(title, '\n') == [title]
  {
    AgentNamesRead(Mode);
    TrimFixed(mode);
    hide AgentKey, AgentName, Trim;
    ReadFieldLine(AgentKey, Anything, AgentName(Mode), Some(Mode), mode);
    SplitWhole(title, '\n');
  }

  lemma {:induction false} WrittenAmong(w0: AgentWorld, w: AgentWorld, n: nat)
    requires n <= |w.turns| && Took(w.processes, w.turns) && |w.processes| == |w0.processes|
    requires forall p | 0 <= p < |w.processes| :: w.processes[p].op == w0.processes[p].op
    requires forall p <- w0.processes :: StorableOp(p.op)
    ensures forall i | 0 <= i < |Written(w, n)| :: StorableOp(Written(w, n)[i])
  {
    hide StorableOp;
    if n > 0 {
      WrittenAmong(w0, w, n - 1);
      assert w0.processes[w.turns[n - 1]] in w0.processes;
    }
  }

  // ---------- Concurrent updates to different fields all survive ----------

  /** The value an operation gives a slot, if it touches it. */
  function Touch(op: AgentOp, s: AgentSlot): Option<string> {
    match op
    case Update(cleanup, mr, level, mode) =>
      if s == CleanupStatus then cleanup else if s == ActiveMR then mr
      else if s == NotificationLevel then level else if s == Mode then mode else None
    case Reset =>
      if s == AgentState then Some("nuked")
      else if s == HookBead || s == ActiveMR || s == CleanupStatus then Some("") else None
    case Respawn(title, fields) => Some(AgentValue(if fields.Some? then fields.value else ParsedAgent(title), s))
  }

  /** In the end each slot holds what the last operation touching it wrote, whatever came in between: k is that
      operation's place in the order, or -1 when none touched the slot. */
  lemma {:induction false} LastTouchSurvives(ops: seq<AgentOp>, f: AgentFields, s: AgentSlot, k: int)
    requires -1 <= k < |ops| && forall j | k < j < |ops| :: Touch(ops[j], s).None?
    requires k >= 0 ==> Touch(ops[k], s).Some?
    ensures AgentValue(ApplyAll(ops, f), s) == if k == -1 then AgentValue(f, s) else Touch(ops[k], s).value
    decreases |ops|
  {
    if ops != [] {
      var last := |ops| - 1;
      TouchStep(ops[last], ApplyAll(ops[..last], f), s);
      if k < last {
        LastTouchSurvives(ops[..last], f, s, k);
      }
    }
  }

  lemma TouchStep(op: AgentOp, f: AgentFields, s: AgentSlot)
    ensures AgentValue(Apply(op, f), s) == if Touch(op, s).Some? then Touch(op, s).value else AgentValue(f, s)
  {
  }

  /** Four steps of two processes without a lock: both show, then both update. */
  function Overlapped(first: AgentOp, second: AgentOp, b0: Bead): (Option<Bead>, Option<Bead>) {
    var (l1, s1) := StepAgent(first, Begin, Some(b0), Ok);
    var (l2, s2) := StepAgent(second, Begin, s1, Ok);
    var (l3, s3) := StepAgent(first, l1, s2, Ok);
    (s3, StepAgent(second, l2, s3, Ok).1)
  }

  lemma OverlappedEndsWithSecond(first: AgentOp, second: AgentOp, b0: Bead)
    requires first.Update? && second.Update?
    ensures Overlapped(first, second, b0) ==
      (Some(b0.(description := Rewrite(first, b0).description)), Some(b0.(description := Rewrite(second, b0).description)))
  {
  }

  /** Without the lock an update is lost: two processes that both show before either updates leave only one of the
      two fields. */
  lemma LostWithoutLock(b0: Bead, x: string, y: string)
    requires Storable(x) && Storable(y) && x != "" && y != "" && ParsedAgent(b0.description).cleanupStatus == ""
    ensures var (mid, after) := Overlapped(Update(Some(x), None, None, None), Update(None, Some(y), None, None), b0);
      && mid.Some? && ParsedAgent(mid.value.description).cleanupStatus == x
      && after.Some? && ParsedAgent(after.value.description).activeMR == y
      && ParsedAgent(after.value.description).cleanupStatus == ""
  {
    OverlappedEndsWithSecond(Update(Some(x), None, None, None), Update(None, Some(y), None, None), b0);
    hide Overlapped, Rewrite, ParsedAgent, Storable;
    UpdateReads(Some(x), None, None, None, b0);
    UpdateReads(None, Some(y), None, None, b0);
  }
}
