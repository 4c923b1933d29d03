/** Attaching molecules to a pinned bead and detaching them, under the bead's lock, with an audit log.
    (internal/beads/handoff.go and audit.go) */
module Handoff {
  import opened Text
  import opened KeyLines
  import opened FieldKeys
  import opened Fields
  import opened LockedSections

  datatype PinnedIssue = PinnedIssue(status: string, description: string)

  /** An RFC 3339 time: one line, nothing to trim, never empty. */
  type Timestamp = s: string | Clean(s) && s != "" witness "T"

  datatype AuditEntry = AuditEntry(
    timestamp: Timestamp, operation: string, pinnedBeadID: string, detachedMolecule: string, detachedBy: string, reason: string,
    previousState: string)

  /** What the bead's lock guards: the bead, and this bead's part of the audit log. */
  datatype Board = Board(id: string, issue: Option<PinnedIssue>, audit: seq<AuditEntry>)

  datatype HandoffOp =
    | Attach(molecule: string)
    | Detach
    | AuditedDetach(operation: string, agent: string, reason: string)

  /** A fresh attachment: molecule and time, nothing else. */
  function NewAttachment(molecule: string, now: Timestamp): AttachmentFields {
    NO_ATTACHMENT.(attachedMolecule := molecule, attachedAt := now)
  }

  function AuditFor(id: string, op: HandoffOp, issue: PinnedIssue, attached: AttachmentFields, now: Timestamp): AuditEntry
    requires op.AuditedDetach?
  {
    AuditEntry(now, if op.operation == "" then "detach" else op.operation, id, attached.attachedMolecule, op.agent,
               op.reason, issue.status)
  }

  // ---------- The operations, run alone ----------

  datatype HandoffError = LockFailed | FetchFailed | NotPinned | UpdateFailed | RefetchFailed

  class PinnedBeads {
    var issues: map<string, PinnedIssue>
    var audit: seq<AuditEntry>

    constructor ()
      ensures issues == map[] && audit == []
    {
      issues, audit := map[], [];
    }

    method Show(id: string) returns (issue: Option<PinnedIssue>)
      ensures issue.Some? ==> id in issues && issue.value == issues[id]
    {
      var fault: bool := *;
      issue := if fault || id !in issues then None else Some(issues[id]);
    }

    method UpdateDescription(id: string, description: string) returns (ok: bool)
      requires id in issues
      modifies this`issues
      ensures issues == if ok then old(issues)[id := old(issues)[id].(description := description)] else old(issues)
    {
      ok := *;
      if ok {
        issues := issues[id := issues[id].(description := description)];
      }
    }

    method LogDetachAudit(entry: AuditEntry) returns (ok: bool)
      modifies this`audit
      ensures audit == if ok then old(audit) + [entry] else old(audit)
    {
      ok := *;
      if ok {
        audit := audit + [entry];
      }
    }

    /** Replaces the whole attachment; only pinned beads accept one. */
    method AttachMolecule(id: string, molecule: string, now: Timestamp)
      returns (updated: Option<PinnedIssue>, error: Option<HandoffError>)
      modifies this`issues
      ensures error == None || error == Some(RefetchFailed) ==>
        && id in old(issues) && old(issues)[id].status == "pinned"
        && var issue := old(issues)[id];
           issues == old(issues)[id := issue.(description := SetAttachment(issue.description, Some(NewAttachment(molecule, now))))]
      ensures error.Some? && error != Some(RefetchFailed) ==> issues == old(issues)
      ensures error == Some(NotPinned) ==> id in old(issues) && old(issues)[id].status != "pinned"
      ensures error.None? ==> updated.Some? && updated.value == issues[id]
    {
      updated := None;
      var locked: bool := *;
      if !locked {
        return None, Some(LockFailed);
      }
      var issue := Show(id);
      if issue.None? {
        return None, Some(FetchFailed);
      }
      if issue.value.status != "pinned" {
        return None, Some(NotPinned);
      }
      var newDesc := SetAttachmentFields(Some(issue.value.description), Some(NewAttachment(molecule, now)));
      var ok := UpdateDescription(id, newDesc);
      if !ok {
        return None, Some(UpdateFailed);
      }
      updated := Show(id);
      error := if updated.Some? then None else Some(RefetchFailed);
    }

    /** Drops the attachment if there is one. */
    method DetachMolecule(id: string) returns (updated: Option<PinnedIssue>, error: Option<HandoffError>)
      modifies this`issues
      ensures error == None || error == Some(RefetchFailed) ==>
        && id in old(issues)
        && var issue := old(issues)[id];
           issues == if ParsedAttachment(issue.description).None? then old(issues)
                     else old(issues)[id := issue.(description := SetAttachment(issue.description, None))]
      ensures error.Some? && error != Some(RefetchFailed) ==> issues == old(issues)
    {
      updated := None;
      var locked: bool := *;
      if !locked {
        return None, Some(LockFailed);
      }
      var issue := Show(id);
      if issue.None? {
        return None, Some(FetchFailed);
      }
      var attachment := ParseAttachmentFields(issue.value.description);
      if attachment.None? {
        return issue, None;
      }
      var newDesc := SetAttachmentFields(Some(issue.value.description), None);
      var ok := UpdateDescription(id, newDesc);
      if !ok {
        return None, Some(UpdateFailed);
      }
      updated := Show(id);
      error := if updated.Some? then None else Some(RefetchFailed);
    }

    /** The same, with an audit entry naming the molecule attached just before.  A failing log is not an error. */
    method DetachMoleculeWithAudit(id: string, op: HandoffOp, now: Timestamp)
      returns (updated: Option<PinnedIssue>, error: Option<HandoffError>, logged: bool)
      requires op.AuditedDetach?
      modifies this
      ensures error == None || error == Some(RefetchFailed) ==>
        && id in old(issues)
        && var issue := old(issues)[id];
           issues == if ParsedAttachment(issue.description).None? then old(issues)
                     else old(issues)[id := issue.(description := SetAttachment(issue.description, None))]
      ensures error.Some? && error != Some(RefetchFailed) ==> issues == old(issues)
      ensures logged ==> id in old(issues) && ParsedAttachment(old(issues)[id].description).Some?
      ensures audit == if logged then old(audit) + [AuditFor(id, op, old(issues)[id], ParsedAttachment(old(issues)[id].description).value, now)] else old(audit)
    {
      updated, logged := None, false;
      var locked: bool := *;
      if !locked {
        return None, Some(LockFailed), false;
      }
      var issue := Show(id);
      if issue.None? {
        return None, Some(FetchFailed), false;
      }
      var attachment := ParseAttachmentFields(issue.value.description);
      if attachment.None? {
        return issue, None, false;
      }
      var operation := op.operation;
      if operation == "" {
        operation := "detach";
      }
      logged := LogDetachAudit(
        AuditEntry(now, operation, id, attachment.value.attachedMolecule, op.agent, op.reason, issue.value.status));
      var newDesc := SetAttachmentFields(Some(issue.value.description), None);
      var ok := UpdateDescription(id, newDesc);
      if !ok {
        return None, Some(UpdateFailed), logged;
      }
      updated := Show(id);
      error := if updated.Some? then None else Some(RefetchFailed);
    }
  }

  // ---------- The operations, interleaved ----------

  datatype Phase = Begin | Fetched(issue: PinnedIssue) | Logged(issue: PinnedIssue) | Written | Over

  /** effect: the attachment this section has set, if its update went through; entry: what it has logged. */
  datatype HandoffLocal = HandoffLocal(phase: Phase, effect: Option<Option<AttachmentFields>>, entry: Option<AuditEntry>)

  datatype Reply = Reply(ok: bool, now: Timestamp)

  type HandoffWorld = World<HandoffOp, HandoffLocal, Board, Reply>

  function StartHandoff(op: HandoffOp): HandoffLocal {
    HandoffLocal(Begin, None, None)
  }

  function OverHandoff(l: HandoffLocal): bool { l.phase.Over? }

  /** What some turns set, in order; failed and empty operations set nothing. */
  function Effects(ls: seq<HandoffLocal>): seq<Option<AttachmentFields>> {
    if ls == [] then []
    else
      var l := ls[|ls| - 1];
      Effects(ls[..|ls| - 1]) + if l.effect.Some? then [l.effect.value] else []
  }

  /** What some turns logged, in order. */
  function Entries(ls: seq<HandoffLocal>): seq<AuditEntry> {
    if ls == [] then []
    else
      var l := ls[|ls| - 1];
      Entries(ls[..|ls| - 1]) + if l.entry.Some? then [l.entry.value] else []
  }

  ghost predicate TookPart(w: HandoffWorld) {
    Took(w.processes, w.turns)
  }

  /** The local records of the processes that took the lock, in lock order. */
  ghost function Locals(w: HandoffWorld): (ls: seq<HandoffLocal>)
    requires TookPart(w)
    ensures |ls| == |w.turns| && forall k | 0 <= k < |ls| :: ls[k] == w.processes[w.turns[k]].local
  {
    seq(|w.turns|, k requires 0 <= k < |w.turns| => w.processes[w.turns[k]].local)
  }

  /** And their operations. */
  ghost function Ops(w: HandoffWorld): (ops: seq<HandoffOp>)
    requires TookPart(w)
    ensures |ops| == |w.turns| && forall k | 0 <= k < |ops| :: ops[k] == w.processes[w.turns[k]].op
  {
    seq(|w.turns|, k requires 0 <= k < |w.turns| => w.processes[w.turns[k]].op)
  }

  /** The sections use attachments only through reading and setting them; what runs of them do is proved for any
      such pair. */
  datatype Records = Records(
    parse: string -> Option<AttachmentFields>, put: (string, Option<AttachmentFields>) -> string)
  {
    /** One backend call per step: show, append to the log (audited detaches only), update, show again. */
    function StepHandoff(op: HandoffOp, l: HandoffLocal, b: Board, reply: Reply): (HandoffLocal, Board) {
      match l.phase
      case Begin =>
        if !reply.ok || b.issue.None? then (l.(phase := Over), b)
        else if op.Attach? && b.issue.value.status != "pinned" then (l.(phase := Over), b)
        else if !op.Attach? && parse(b.issue.value.description).None? then (l.(phase := Over), b)
        else (l.(phase := Fetched(b.issue.value)), b)
      case Fetched(issue) =>
        if op.AuditedDetach? && parse(issue.description).Some? then
          if reply.ok then
            (l.(phase := Logged(issue), entry := Some(AuditFor(b.id, op, issue, parse(issue.description).value, reply.now))),
             b.(audit := b.audit + [AuditFor(b.id, op, issue, parse(issue.description).value, reply.now)]))
          else (l.(phase := Logged(issue)), b)
        else Write(l, b, issue, if op.Attach? then Some(NewAttachment(op.molecule, reply.now)) else None, reply)
      case Logged(issue) => Write(l, b, issue, None, reply)
      case Written => (l.(phase := Over), b)
      case Over => (l, b)
    }

    function Write(l: HandoffLocal, b: Board, issue: PinnedIssue, fields: Option<AttachmentFields>, reply: Reply)
      : (HandoffLocal, Board)
    {
      if !reply.ok || b.issue.None? then (l.(phase := Over), b)
      else
        (l.(phase := Written, effect := Some(fields)),
         b.(issue := Some(b.issue.value.(description := put(issue.description, fields)))))
    }

    function Machine(): Section<HandoffOp, HandoffLocal, Board, Reply> {
      Section(StartHandoff, StepHandoff, OverHandoff)
    }

    /** The text after a section's effect. */
    function Affected(description: string, effect: Option<Option<AttachmentFields>>): string {
      if effect.None? then description else put(description, effect.value)
    }

    /** What an operation may set: an attach its molecule and some time, a detach nothing; and only over what allows it. */
    ghost predicate ProperEffect(op: HandoffOp, issue: PinnedIssue, effect: Option<Option<AttachmentFields>>) {
      effect.Some? ==>
        if op.Attach? then
          issue.status == "pinned" && exists now: Timestamp :: effect.value == Some(NewAttachment(op.molecule, now))
        else effect.value.None? && parse(issue.description).Some?
    }

    ghost predicate ProperEntry(id: string, op: HandoffOp, issue: PinnedIssue, entry: Option<AuditEntry>) {
      entry.Some? ==>
        op.AuditedDetach? && parse(issue.description).Some? && entry.value == AuditFor(id, op, issue, parse(issue.description).value, entry.value.timestamp)
    }

    /** A section alone does what its local record says, properly, and nothing else. */
    ghost predicate Proper(op: HandoffOp, before: Board, l: HandoffLocal, after: Board) {
      && after.id == before.id
      && (before.issue.None? ==> after == before && l.effect.None? && l.entry.None? && (l.phase.Begin? || l.phase.Over?))
      && (before.issue.Some? ==>
            && after.issue == Some(before.issue.value.(description := Affected(before.issue.value.description, l.effect)))
            && ProperEffect(op, before.issue.value, l.effect) && ProperEntry(before.id, op, before.issue.value, l.entry)
            && (l.phase.Begin? || l.phase.Fetched? || l.phase.Logged? ==> l.effect.None?)
            && (l.phase.Begin? || l.phase.Fetched? ==> l.entry.None?)
            && (l.phase.Fetched? || l.phase.Logged? ==> l.phase.issue == before.issue.value)
            && (l.phase.Fetched? && op.Attach? ==> before.issue.value.status == "pinned")
            && (l.phase.Fetched? && !op.Attach? ==> parse(before.issue.value.description).Some?)
            && (l.phase.Logged? ==> op.AuditedDetach? && parse(before.issue.value.description).Some?))
      && after.audit == before.audit + if l.entry.Some? then [l.entry.value] else []
    }

    lemma StepProper(op: HandoffOp, before: Board, l: HandoffLocal, b: Board, reply: Reply)
      requires Proper(op, before, l, b)
      ensures var (l', b') := StepHandoff(op, l, b, reply); Proper(op, before, l', b')
    {
    }

    lemma {:induction false} AloneIsProper(op: HandoffOp, before: Board, replies: seq<Reply>)
      ensures var (l, after) := Alone(Machine(), op, before, replies); Proper(op, before, l, after)
    {
      if replies != [] {
        var front := replies[..|replies| - 1];
        AloneIsProper(op, before, front);
        var (l, b) := Alone(Machine(), op, before, front);
        StepProper(op, before, l, b, replies[|replies| - 1]);
      }
    }

    /** The bead admits the operation: an attach needs a pinned one, a detach one with something attached. */
    predicate Admits(op: HandoffOp, issue: Option<PinnedIssue>) {
      issue.Some? && if op.Attach? then issue.value.status == "pinned" else parse(issue.value.description).Some?
    }

    /** What a section sets, by the bead it finds and the replies it gets -- to showing it, to logging for an audited
        detach, to updating it, to showing it again.  If showing and updating went well, an attach sets its molecule
        with the time of the update, a detach nothing. */
    function EffectOf(op: HandoffOp, issue: Option<PinnedIssue>, replies: seq<Reply>): Option<Option<AttachmentFields>> {
      var update := if op.AuditedDetach? then 2 else 1;
      if Admits(op, issue) && |replies| > update && replies[0].ok && replies[update].ok then
        Some(if op.Attach? then Some(NO_ATTACHMENT.(attachedMolecule := op.molecule, attachedAt := replies[update].now)) else None)
      else None
    }

    /** What it logs: who detached which molecule from which bead, how, why and in which state, if showing and logging
        went well. */
    function EntryOf(id: string, op: HandoffOp, issue: Option<PinnedIssue>, replies: seq<Reply>): Option<AuditEntry> {
      if op.AuditedDetach? && Admits(op, issue) && |replies| > 1 && replies[0].ok && replies[1].ok then
        Some(AuditEntry(
          replies[1].now, if op.operation == "" then "detach" else op.operation, id,
          parse(issue.value.description).value.attachedMolecule, op.agent, op.reason, issue.value.status))
      else None
    }

    /** Where it stands after these replies. */
    function PhaseOf(op: HandoffOp, issue: Option<PinnedIssue>, replies: seq<Reply>): Phase {
      var update := if op.AuditedDetach? then 2 else 1;
      if replies == [] then Begin
      else if !replies[0].ok || !Admits(op, issue) then Over
      else if |replies| == 1 then Fetched(issue.value)
      else if |replies| == 2 && op.AuditedDetach? then Logged(issue.value)
      else if |replies| == update + 1 && replies[update].ok then Written
      else Over
    }

    /** A section alone does exactly that: when it is effective and when it logs depends on the bead and the replies
        only, and in the way said. */
    lemma {:induction false} AloneExactly(op: HandoffOp, before: Board, replies: seq<Reply>)
      ensures Alone(Machine(), op, before, replies).0 == HandoffLocal(
        PhaseOf(op, before.issue, replies), EffectOf(op, before.issue, replies), EntryOf(before.id, op, before.issue, replies))
    {
      AloneIsProper(op, before, replies);
      if replies != [] {
        var n := |replies| - 1;
        var front, last := replies[..n], replies[n];
        AloneExactly(op, before, front);
        AloneIsProper(op, before, front);
        var (l, b) := Alone(Machine(), op, before, front);
        StepExactly(op, before, l, b, front, last);
        assert front + [last] == replies;
      }
    }

    lemma StepExactly(op: HandoffOp, before: Board, l: HandoffLocal, b: Board, replies: seq<Reply>, reply: Reply)
      requires Proper(op, before, l, b)
      requires l == HandoffLocal(
        PhaseOf(op, before.issue, replies), EffectOf(op, before.issue, replies), EntryOf(before.id, op, before.issue, replies))
      ensures var longer := replies + [reply];
        StepHandoff(op, l, b, reply).0 == HandoffLocal(
          PhaseOf(op, before.issue, longer), EffectOf(op, before.issue, longer), EntryOf(before.id, op, before.issue, longer))
    {
    }

    /** The text after some effects, one set after the other. */
    function PutAll(description: string, effects: seq<Option<AttachmentFields>>): string {
      if effects == [] then description else put(PutAll(description, effects[..|effects| - 1]), effects[|effects| - 1])
    }

    lemma TurnProper(w: HandoffWorld, b0: Board, n: nat)
      requires Inv(Machine(), b0, w) && 1 <= n <= |w.turns|
      ensures var p := w.processes[w.turns[n - 1]];
        Proper(p.op, Serial(Machine(), b0, w.processes, w.turns[..n - 1]), p.local,
               Serial(Machine(), b0, w.processes, w.turns[..n]))
    {
      var p := w.processes[w.turns[n - 1]];
      SerialTurn(Machine(), b0, w, n);
      AloneIsProper(p.op, Serial(Machine(), b0, w.processes, w.turns[..n - 1]), p.inputs);
    }

    /** The boards between the turns: each turn does properly what its process recorded. */
    ghost predicate Chronicle(ops: seq<HandoffOp>, ls: seq<HandoffLocal>, boards: seq<Board>) {
      |ops| == |ls| && |boards| == |ls| + 1 && forall k | 0 <= k < |ls| :: TurnDone(ops, ls, boards, k)
    }

    ghost predicate TurnDone(ops: seq<HandoffOp>, ls: seq<HandoffLocal>, boards: seq<Board>, k: nat)
      requires k < |ops| && k < |ls| && k + 1 < |boards|
    {
      Proper(ops[k], boards[k], ls[k], boards[k + 1])
    }

    lemma RunsHaveChronicles(w0: HandoffWorld, events: seq<Event<Reply>>) returns (boards: seq<Board>)
      requires Initial(w0) && Execute(Machine(), w0, events).Some?
      ensures var w := Execute(Machine(), w0, events).value;
        TookPart(w) && Chronicle(Ops(w), Locals(w), boards) && boards[0] == w0.shared && boards[|w.turns|] == w.shared
    {
      RunsAreSerial(Machine(), w0, events);
      boards := ChronicleOf(Execute(Machine(), w0, events).value, w0.shared);
    }

    lemma ChronicleOf(w: HandoffWorld, b0: Board) returns (boards: seq<Board>)
      requires Inv(Machine(), b0, w)
      ensures Chronicle(Ops(w), Locals(w), boards) && boards[0] == b0 && boards[|w.turns|] == w.shared
      ensures forall k | 0 <= k <= |w.turns| :: boards[k] == Serial(Machine(), b0, w.processes, w.turns[..k])
    {
      var n := |w.turns|;
      boards := seq(n + 1, k requires 0 <= k <= n => Serial(Machine(), b0, w.processes, w.turns[..k]));
      assert w.turns[..n] == w.turns && w.turns[..0] == [];
      forall k | 0 <= k < n ensures TurnDone(Ops(w), Locals(w), boards, k) {
        TurnProper(w, b0, k + 1);
      }
    }

    /** What some turns amount to. */
    ghost predicate Amounts(b0: Board, i0: PinnedIssue, b: Board, ls: seq<HandoffLocal>) {
      && b.id == b0.id && b.issue == Some(i0.(description := PutAll(i0.description, Effects(ls))))
      && b.audit == b0.audit + Entries(ls)
    }

    lemma NextAmounts(
      op: HandoffOp, before: Board, l: HandoffLocal, after: Board, b0: Board, i0: PinnedIssue, ls: seq<HandoffLocal>)
      requires Proper(op, before, l, after) && Amounts(b0, i0, before, ls)
      ensures Amounts(b0, i0, after, ls + [l])
    {
      NextEffects(i0.description, ls, l);
      NextEntries(ls, l);
      hide PutAll, Effects, Entries, ProperEffect, ProperEntry;
    }

    lemma NextEffects(d: string, ls: seq<HandoffLocal>, l: HandoffLocal)
      ensures PutAll(d, Effects(ls + [l])) == Affected(PutAll(d, Effects(ls)), l.effect)
    {
      assert (ls + [l])[..|ls|] == ls;
      if l.effect.Some? {
        assert (Effects(ls) + [l.effect.value])[..|Effects(ls)|] == Effects(ls);
      } else {
        assert Effects(ls) + [] == Effects(ls);
      }
    }

    lemma NextEntries(ls: seq<HandoffLocal>, l: HandoffLocal)
      ensures Entries(ls + [l]) == Entries(ls) + if l.entry.Some? then [l.entry.value] else []
    {
      assert (ls + [l])[..|ls|] == ls;
    }

    /** After n turns: the effects so far on the original text, and the entries so far. */
    lemma {:induction false} BoardAfter(
      ops: seq<HandoffOp>, ls: seq<HandoffLocal>, boards: seq<Board>, i0: PinnedIssue, n: nat)
      requires Chronicle(ops, ls, boards) && boards[0].issue == Some(i0) && n <= |ls|
      ensures Amounts(boards[0], i0, boards[n], ls[..n])
    {
      if n > 0 {
        BoardAfter(ops, ls, boards, i0, n - 1);
        assert TurnDone(ops, ls, boards, n - 1);
        assert ls[..n] == ls[..n - 1] + [ls[n - 1]];
        hide Proper, Amounts;
        NextAmounts(ops[n - 1], boards[n - 1], ls[n - 1], boards[n], boards[0], i0, ls[..n - 1]);
      }
    }

    /** The bead that turn k finds: the effects of the turns before it on the original text. */
    ghost function Found(w: HandoffWorld, i0: PinnedIssue, k: nat): PinnedIssue
      requires TookPart(w) && k <= |w.turns|
    {
      i0.(description := PutAll(i0.description, Effects(Locals(w)[..k])))
    }

    /** In every run each turn sets and logs exactly what its operation, the bead it finds and the replies it got
        determine; so every turn with good replies on a bead that admits it is effective. */
    lemma TurnExactly(w0: HandoffWorld, events: seq<Event<Reply>>, k: nat)
      requires Initial(w0) && Execute(Machine(), w0, events).Some? && w0.shared.issue.Some?
      ensures var w := Execute(Machine(), w0, events).value;
        TookPart(w) && (k < |w.turns| ==>
          var p, issue := w.processes[w.turns[k]], Some(Found(w, w0.shared.issue.value, k));
          p.local.effect == EffectOf(p.op, issue, p.inputs) && p.local.entry == EntryOf(w0.shared.id, p.op, issue, p.inputs))
    {
      RunsAreSerial(Machine(), w0, events);
      var w := Execute(Machine(), w0, events).value;
      if k < |w.turns| {
        var boards := ChronicleOf(w, w0.shared);
        BoardAfter(Ops(w), Locals(w), boards, w0.shared.issue.value, k);
        var p := w.processes[w.turns[k]];
        hide Execute, Serial, Proper, EffectOf, EntryOf, PhaseOf, Chronicle, PutAll, Effects, Entries;
        SerialTurn(Machine(), w0.shared, w, k + 1);
        AloneExactly(p.op, boards[k], p.inputs);
      }
    }
  }

  const STORED := Records(ParsedAttachment, SetAttachment)

  // ---------- What is left in the text ----------

  ghost predicate ContainedEffect(effect: Option<AttachmentFields>) {
    effect.Some? ==> ContainedAttachment(effect.value)
  }

  ghost predicate AllContained(effects: seq<Option<AttachmentFields>>) {
    forall e <- effects :: ContainedEffect(e)
  }

  lemma AllContainedSnoc(effects: seq<Option<AttachmentFields>>)
    requires effects != []
    ensures AllContained(effects) <==> AllContained(effects[..|effects| - 1]) && ContainedEffect(effects[|effects| - 1])
  {
    assert effects == effects[..|effects| - 1] + [effects[|effects| - 1]];
  }

  /** An attached molecule is contained when its later lines, if it has any, are attachment lines or blank. */
  lemma NewAttachmentContained(molecule: string, now: Timestamp)
    ensures ContainedAttachment(NewAttachment(molecule, now)) <==> ATTACHMENT.TailTaken(molecule)
  {
    var f := NewAttachment(molecule, now);
    SplitWhole(now, '\n');
    SplitWhole("", '\n');
    hide Split, Lens.Stray;
    assert AttachmentValue(f, Molecule) == molecule;
    forall s: AttachmentSlot | s != Molecule ensures ATTACHMENT.TailTaken(AttachmentValue(f, s)) {
      assert AttachmentValue(f, s) == if s == At then now else "";
    }
  }

  /** Some sets in a row keep the content exactly when each of them does. */
  lemma {:induction false} PutAllContent(d: string, effects: seq<Option<AttachmentFields>>)
    ensures ATTACHMENT.Content(STORED.PutAll(d, effects)) == ATTACHMENT.Content(d)
      <==> AllContained(effects)
    ensures ATTACHMENT.Strays(ATTACHMENT.Content(STORED.PutAll(d, effects))) >= ATTACHMENT.Strays(ATTACHMENT.Content(d))
    ensures !AllContained(effects) ==>
      ATTACHMENT.Strays(ATTACHMENT.Content(STORED.PutAll(d, effects))) > ATTACHMENT.Strays(ATTACHMENT.Content(d))
  {
    if effects != [] {
      var front, last := effects[..|effects| - 1], effects[|effects| - 1];
      var before := STORED.PutAll(d, front);
      assert STORED.PutAll(d, effects) == SetAttachment(before, last);
      PutAllContent(d, front);
      AttachmentKeepsContent(before, last);
      AttachmentStrays(before, last);
      AllContainedSnoc(effects);
      assert ContainedEffect(last) <==> (last.Some? ==> ContainedAttachment(last.value));
      hide *;
    }
  }

  /** After any interleaving of attaches and detaches the bead holds the effects in lock order on the original text, and
      the log has grown by the entries of the audited detaches that managed to log.  The text is as if only the last
      effect had happened exactly when every earlier one was contained, and its other lines are unchanged exactly when
      all were. */
  lemma LastEffectDecides(w0: HandoffWorld, events: seq<Event<Reply>>)
    requires Initial(w0) && Execute(STORED.Machine(), w0, events).Some? && w0.shared.issue.Some?
    ensures var w, i0 := Execute(STORED.Machine(), w0, events).value, w0.shared.issue.value;
      && TookPart(w)
      && w.shared.issue == Some(i0.(description := STORED.PutAll(i0.description, Effects(Locals(w)))))
      && w.shared.audit == w0.shared.audit + Entries(Locals(w))
    ensures var w, d := Execute(STORED.Machine(), w0, events).value, w0.shared.issue.value.description;
      var text, effects := w.shared.issue.value.description, Effects(Locals(w));
      && (ATTACHMENT.Content(text) == ATTACHMENT.Content(d) <==> AllContained(effects))
      && (effects != [] ==>
            (text == SetAttachment(d, effects[|effects| - 1])
             <==> AllContained(effects[..|effects| - 1])))
  {
    var w, i0 := Execute(STORED.Machine(), w0, events).value, w0.shared.issue.value;
    var boards := STORED.RunsHaveChronicles(w0, events);
    STORED.BoardAfter(Ops(w), Locals(w), boards, i0, |w.turns|);
    assert Locals(w)[..|w.turns|] == Locals(w);
    PutAllContent(i0.description, Effects(Locals(w)));
    PutAllLast(i0.description, Effects(Locals(w)));
    hide Execute, Initial, Lens.Content, SetAttachment, AllContained, Records.PutAll, Effects, Entries;
  }

  lemma PutAllLast(d: string, effects: seq<Option<AttachmentFields>>)
    ensures effects != [] ==>
      (STORED.PutAll(d, effects) == SetAttachment(d, effects[|effects| - 1])
       <==> AllContained(effects[..|effects| - 1]))
  {
    if effects != [] {
      var front := effects[..|effects| - 1];
      assert STORED.PutAll(d, effects) == SetAttachment(STORED.PutAll(d, front), effects[|effects| - 1]);
      PutAllContent(d, front);
      SameAfterSet(STORED.PutAll(d, front), d, effects[|effects| - 1]);
      hide Lens.Content, SetAttachment, AllContained, Records.PutAll;
    }
  }

  // ---------- What is attached in the end ----------

  /** What a text reads as after some sets is the last one, exactly when that reads back at all. */
  lemma AttachmentOfLastEffect(d: string, effects: seq<Option<AttachmentFields>>)
    requires effects != []
    ensures var e := effects[|effects| - 1];
      ParsedAttachment(STORED.PutAll(d, effects)) == e <==> (e.Some? ==> CleanAttachment(e.value) && e.value != NO_ATTACHMENT)
  {
    var e, before := effects[|effects| - 1], STORED.PutAll(d, effects[..|effects| - 1]);
    assert STORED.PutAll(d, effects) == SetAttachment(before, e);
    hide ParsedAttachment, SetAttachment, Records.PutAll;
    if e.Some? {
      AttachmentPutGet(before, e.value);
    } else {
      AttachmentCleared(before);
    }
  }

  lemma NewAttachmentReadsBack(molecule: string, now: Timestamp)
    ensures (CleanAttachment(NewAttachment(molecule, now)) <==> Clean(molecule)) && NewAttachment(molecule, now) != NO_ATTACHMENT
  {
  }

  /** The last turn that set something; -1 for none. */
  ghost predicate LastEffective(ls: seq<HandoffLocal>, k: int) {
    && -1 <= k < |ls| && (k >= 0 ==> ls[k].effect.Some?)
    && forall j | k < j < |ls| :: ls[j].effect.None?
  }

  lemma {:induction false} LastEffectAt(ls: seq<HandoffLocal>, k: int)
    requires LastEffective(ls, k)
    ensures if k == -1 then Effects(ls) == [] else Effects(ls) != [] && Effects(ls)[|Effects(ls)| - 1] == ls[k].effect.value
    decreases |ls|
  {
    if ls != [] && k < |ls| - 1 {
      LastEffectAt(ls[..|ls| - 1], k);
      assert Effects(ls[..|ls| - 1]) + [] == Effects(ls[..|ls| - 1]);
    }
  }

  /** What the operation of a turn may have set. */
  ghost predicate SetBy(op: HandoffOp, effect: Option<AttachmentFields>) {
    if op.Attach? then
      effect.Some? && effect.value.attachedAt != "" && Clean(effect.value.attachedAt)
      && effect.value == NewAttachment(op.molecule, effect.value.attachedAt)
    else effect.None?
  }

  lemma EffectOfTurn(w0: HandoffWorld, events: seq<Event<Reply>>, k: nat)
    requires Initial(w0) && Execute(STORED.Machine(), w0, events).Some? && w0.shared.issue.Some?
    ensures var w := Execute(STORED.Machine(), w0, events).value;
      TookPart(w) && (k < |w.turns| && Locals(w)[k].effect.Some? ==> SetBy(Ops(w)[k], Locals(w)[k].effect.value))
  {
    var w := Execute(STORED.Machine(), w0, events).value;
    var boards := STORED.RunsHaveChronicles(w0, events);
    if k < |w.turns| && Locals(w)[k].effect.Some? {
      assert STORED.TurnDone(Ops(w), Locals(w), boards, k);
      hide Execute, Initial;
    }
  }

  lemma LastReads(d: string, ls: seq<HandoffLocal>, k: int, op: HandoffOp)
    requires LastEffective(ls, k) && (k >= 0 ==> SetBy(op, ls[k].effect.value))
    ensures var attached := ParsedAttachment(STORED.PutAll(d, Effects(ls)));
      if k == -1 then attached == ParsedAttachment(d)
      else attached == ls[k].effect.value <==> (op.Attach? ==> Clean(op.molecule))
  {
    LastEffectAt(ls, k);
    if k >= 0 {
      var e := ls[k].effect.value;
      AttachmentOfLastEffect(d, Effects(ls));
      if op.Attach? { NewAttachmentReadsBack(op.molecule, e.value.attachedAt); }
      hide ParsedAttachment, Records.PutAll, Effects, Clean, CleanAttachment;
    }
  }

  /** So after any interleaving the bead says what the last effective turn's operation attached -- its molecule and time,
      or nothing after a detach -- exactly when an attached molecule is one trimmed line.  With no effective turn it
      says what it said. */
  lemma AttachedInTheEnd(w0: HandoffWorld, events: seq<Event<Reply>>, k: int)
    requires Initial(w0) && Execute(STORED.Machine(), w0, events).Some? && w0.shared.issue.Some?
    requires var w := Execute(STORED.Machine(), w0, events).value; TookPart(w) && LastEffective(Locals(w), k)
    ensures var w := Execute(STORED.Machine(), w0, events).value;
      && w.shared.issue.Some?
      && var attached := ParsedAttachment(w.shared.issue.value.description);
         if k == -1 then attached == ParsedAttachment(w0.shared.issue.value.description)
         else
           && SetBy(Ops(w)[k], Locals(w)[k].effect.value)
           && (attached == Locals(w)[k].effect.value <==> (Ops(w)[k].Attach? ==> Clean(Ops(w)[k].molecule)))
  {
    var w := Execute(STORED.Machine(), w0, events).value;
    LastEffectDecides(w0, events);
    if k >= 0 { EffectOfTurn(w0, events, k); }
    hide Execute, Initial, ParsedAttachment, SetAttachment, SetBy, Records.PutAll, Effects, Entries, Clean, LastEffective, AllContained;
    LastReads(w0.shared.issue.value.description, Locals(w), k, if k >= 0 then Ops(w)[k] else Detach);
  }

  /** And each log entry says who detached what from which bead: the molecule is the one the effects before its section
      left attached, the rest is the operation's, the bead's and the time of logging. */
  lemma EntriesNameTheAttached(w0: HandoffWorld, events: seq<Event<Reply>>, k: nat)
    requires Initial(w0) && Execute(STORED.Machine(), w0, events).Some? && w0.shared.issue.Some?
    ensures var w := Execute(STORED.Machine(), w0, events).value;
      TookPart(w) && (k < |w.turns| && Locals(w)[k].entry.Some? ==>
        var entry, op, i0 := Locals(w)[k].entry.value, Ops(w)[k], w0.shared.issue.value;
        var attached := ParsedAttachment(STORED.PutAll(i0.description, Effects(Locals(w)[..k])));
        && op.AuditedDetach? && attached.Some? && entry.detachedMolecule == attached.value.attachedMolecule
        && entry.pinnedBeadID == w0.shared.id && entry.previousState == i0.status
        && entry.detachedBy == op.agent && entry.reason == op.reason
        && entry.operation == (if op.operation == "" then "detach" else op.operation)
        && |w.processes[w.turns[k]].inputs| > 1 && entry.timestamp == w.processes[w.turns[k]].inputs[1].now)
  {
    STORED.TurnExactly(w0, events, k);
    hide Execute, Initial, ParsedAttachment, SetAttachment, Records.PutAll, Effects;
  }
}
