/** The keys of the attachment and merge-request records, which may stand in one description.
    (internal/beads/fields.go) */
module FieldKeys {
  import opened Text
  import opened KeyLines

  datatype AttachmentSlot = Molecule | At | Args | By | NoMerge | Mode | Convoy | Strategy

  /** The canonical key of each slot, as the formatter writes it. */
  function AttachmentName(s: AttachmentSlot): string {
    match s
    case Molecule => "attached_molecule"
    case At => "attached_at"
    case Args => "attached_args"
    case By => "dispatched_by"
    case NoMerge => "no_merge"
    case Mode => "mode"
    case Convoy => "convoy_id"
    case Strategy => "merge_strategy"
  }

  /** The lower-case keys recognised for each slot. */
  function AttachmentKey(key: string): Option<AttachmentSlot> {
    if key == "attached_molecule" || key == "attached-molecule" || key == "attachedmolecule" then Some(Molecule)
    else if key == "attached_at" || key == "attached-at" || key == "attachedat" then Some(At)
    else if key == "attached_args" || key == "attached-args" || key == "attachedargs" then Some(Args)
    else if key == "dispatched_by" || key == "dispatched-by" || key == "dispatchedby" then Some(By)
    else if key == "no_merge" || key == "no-merge" || key == "nomerge" then Some(NoMerge)
    else if key == "mode" then Some(Mode)
    else if key == "convoy_id" || key == "convoy-id" || key == "convoyid" || key == "convoy" then Some(Convoy)
    else if key == "merge_strategy" || key == "merge-strategy" || key == "mergestrategy" then Some(Strategy)
    else None
  }

  datatype MRSlot =
    | Branch | Target | SourceIssue | Worker | Rig | MergeCommit | CloseReason | AgentBead | RetryCount
    | LastConflictSHA | ConflictTask | MRConvoy | ConvoyCreated

  function MRName(s: MRSlot): string {
    match s
    case Branch => "branch"
    case Target => "target"
    case SourceIssue => "source_issue"
    case Worker => "worker"
    case Rig => "rig"
    case MergeCommit => "merge_commit"
    case CloseReason => "close_reason"
    case AgentBead => "agent_bead"
    case RetryCount => "retry_count"
    case LastConflictSHA => "last_conflict_sha"
    case ConflictTask => "conflict_task_id"
    case MRConvoy => "convoy_id"
    case ConvoyCreated => "convoy_created_at"
  }

  /** The lower-case keys recognised for each slot. */
  function MRKey(key: string): Option<MRSlot> {
    if EarlyMRKey(key).Some? then EarlyMRKey(key) else LateMRKey(key)
  }

  function EarlyMRKey(key: string): Option<MRSlot> {
    if key == "branch" then Some(Branch)
    else if key == "target" then Some(Target)
    else if key == "source_issue" || key == "source-issue" || key == "sourceissue" then Some(SourceIssue)
    else if key == "worker" then Some(Worker)
    else if key == "rig" then Some(Rig)
    else if key == "merge_commit" || key == "merge-commit" || key == "mergecommit" then Some(MergeCommit)
    else if key == "close_reason" || key == "close-reason" || key == "closereason" then Some(CloseReason)
    else None
  }

  function LateMRKey(key: string): Option<MRSlot> {
    if key == "agent_bead" || key == "agent-bead" || key == "agentbead" then Some(AgentBead)
    else if key == "retry_count" || key == "retry-count" || key == "retrycount" then Some(RetryCount)
    else if key == "last_conflict_sha" || key == "last-conflict-sha" || key == "lastconflictsha" then Some(LastConflictSHA)
    else if key == "conflict_task_id" || key == "conflict-task-id" || key == "conflicttaskid" then Some(ConflictTask)
    else if key == "convoy_id" || key == "convoy-id" || key == "convoyid" || key == "convoy" then Some(MRConvoy)
    else if key == "convoy_created_at" || key == "convoy-created-at" || key == "convoycreatedat" then Some(ConvoyCreated)
    else None
  }

  // The facts about the key strings, in portions the solver digests easily.

  lemma AttachmentNamesPlain(s: AttachmentSlot)
    ensures PlainKey(AttachmentName(s))
  {
  }

  predicate EarlySlot(s: MRSlot) {
    s.Branch? || s.Target? || s.SourceIssue? || s.Worker? || s.Rig? || s.MergeCommit? || s.CloseReason?
  }

  lemma MRNamesPlain(s: MRSlot)
    ensures PlainKey(MRName(s))
  {
    if EarlySlot(s) { EarlyNamesPlain(s); }
  }

  lemma EarlyNamesPlain(s: MRSlot)
    requires EarlySlot(s)
    ensures PlainKey(MRName(s))
  {
  }

  /** Every canonical key is recognised for its own slot. */
  lemma AttachmentNamesRead(s: AttachmentSlot)
    ensures AttachmentKey(AttachmentName(s)) == Some(s)
  {
  }

  lemma MRNamesRead(s: MRSlot)
    ensures MRKey(MRName(s)) == Some(s)
  {
    if EarlySlot(s) {
      EarlyNamesRead(s);
    } else {
      LateNamesRead(s);
      LateNamesNotEarly(s);
    }
  }

  lemma EarlyNamesRead(s: MRSlot)
    requires EarlySlot(s)
    ensures EarlyMRKey(MRName(s)) == Some(s)
  {
  }

  lemma LateNamesRead(s: MRSlot)
    requires !EarlySlot(s)
    ensures LateMRKey(MRName(s)) == Some(s)
  {
  }

  lemma LateNamesNotEarly(s: MRSlot)
    requires !EarlySlot(s)
    ensures EarlyMRKey(MRName(s)) == None
  {
  }

  /** And the two records share only the convoy key. */
  lemma AttachmentNamesForeign(s: AttachmentSlot)
    ensures MRKey(AttachmentName(s)) == if s == Convoy then Some(MRConvoy) else None
  {
    NoneEarly(s);
    if s.Convoy? { ConvoyIsShared(); } else { NoneLate(s); }
  }

  lemma NoneEarly(s: AttachmentSlot)
    ensures EarlyMRKey(AttachmentName(s)) == None
  {
  }

  lemma NoneLate(s: AttachmentSlot)
    requires !s.Convoy?
    ensures LateMRKey(AttachmentName(s)) == None
  {
  }

  lemma ConvoyIsShared()
    ensures LateMRKey(AttachmentName(Convoy)) == Some(MRConvoy)
  {
  }

  lemma MRNamesForeign(s: MRSlot)
    ensures AttachmentKey(MRName(s)) == if s == MRConvoy then Some(Convoy) else None
  {
    if EarlySlot(s) { EarlyNamesForeign(s); } else { LateNamesForeign(s); }
  }

  lemma EarlyNamesForeign(s: MRSlot)
    requires EarlySlot(s)
    ensures AttachmentKey(MRName(s)) == None
  {
  }

  lemma LateNamesForeign(s: MRSlot)
    requires !EarlySlot(s)
    ensures AttachmentKey(MRName(s)) == if s == MRConvoy then Some(Convoy) else None
  {
  }
}
