# Verified model of the beads core

This Dafny project models the self-contained algorithms and state machines under the `gt` command line
and proves what they are for. It covers five groups:

1. **Molecule workflows** (`MoleculeSteps`, `WrittenSteps`, `Backoff`, `StepGraph`, `Molecule`, `Instantiate`, `Hanoi`). A molecule text is
   parsed into steps with needs; validation runs a three-colour depth-first search; instantiation copies the graph
   onto fresh issues in two passes. The search is proved sound and complete with a cycle witness. Steps with distinct
   refs and known needs can be closed to the end, each ready when it is closed, exactly when they pass validation.
   The generated Towers of Hanoi moves are proved legal and, for every number of disks, no sequence of legal moves
   that solves the puzzle is shorter; the formula has one order.
2. **Agent ids** (`AgentIds`, `AgentIdForms`). A printer, a right-to-left parser and an independent validator over a grammar in
   which the hyphen is both separator and ordinary character. Round trips hold under exact conditions.
3. **Records in free text** (`KeyLines`, `FieldKeys`, `Fields`, `MRRecord`, `SharedDescription`, `AgentBeads`,
   `Integration`, `BranchDetection`), and the locked read-modify-write on them (`LockedSections`, `AgentUpdates`, `Handoff`).
   The setters are lenses: put-get, put-put and "everything else stays" as exact strings, each with its exact condition. A generic transition system
   of critical sections under one file lock, with processes that may die anywhere inside, is proved serializable;
   the agent-bead and pinned-bead operations are instances of it.
4. **Approvals** (`Approvals`, `ApprovalOutcomes`). Requests with lazy expiry; runs with failing transactions, compared with a store
   that expires eagerly.
5. **Redirects** (`Redirect`). The depth-bounded chain follower against the unbounded chain, and the calculator
   that shortens the chain.

The code that updates state is modelled as methods with loops and as classes; each method is proved against a
specification function, and the lemmas are about those functions. Outside calls (`bd`, locking, file writes, the
remote of git) may fail at any time: where a failure changes what happens next, the model leaves the choice open and
the proofs cover both outcomes.

## What the proofs found

- `ParseAgentBeadID` drops every segment after `witness` or `refinery`, so two ids can parse alike
  (`AgentIds.SuffixAfterSingletonDropped`); `AgentIds.ReencodeExactly` and `AgentIds.ReencodeWellSegmented` say
  exactly when re-encoding gives the id back.
- Worker names may contain more keywords than the parser's comment suggests: a name of several segments parses back
  if its first segment is not `crew` or `polecat` and no later one is `crew`, `polecat`, `witness` or `refinery`;
  the first one may be `witness` (`AgentIds.NamedRoundTrip`, in both directions).
- `ValidateMolecule` has an "empty ref" error that cannot occur: the header expression only matches a non-empty word
  (`Molecule.ValidateMolecule`, `MoleculeSteps.StepsAreHeaders`).
- `ValidateAgentID` accepts a dog without a name (`gt-dog-`) and a witness or refinery id with a hyphen too many
  (`gt-rig-witness-`). With these two exceptions it accepts exactly the documented patterns of acceptable identities
  (`AgentIdForms.ValidatorExactly`).
- `ResetAgentBeadForReuse` is documented as clearing all mutable fields, but keeps the notification level and the mode
  (`AgentUpdates.ResetReads`).
- `MarkExecuted` is documented as marking an approved request, but also executes a pending one. It succeeds exactly on
  approved requests and on pending ones that are not overdue (`ApprovalOutcomes.MarkExecutedSucceeds`), and an executed
  request carries a decision exactly when it was not pending at that moment (`Approvals.ExecutedWithDecision`). The
  model follows the code.
- Creating, deciding and executing read the clock before they take the lock, so readings can be out of lock order; a
  request that a reader has already seen expired can then still be approved (`Approvals.OldClockResurrects`). Exactly
  the clock sequences in order make lazy expiry invisible (`Approvals.LazyIsEagerInOrder`).
- The computed redirect starts from the wrong directory exactly when the worktree lies at least two levels outside the
  town (`Redirect.UpwardsIsRigRoot`). It then still leads to the right place only if the rig has a redirect that climbs
  to the root of the disk (`Redirect.FirstHopLands`, `Redirect.FarWorktreeMissesRig`).
- Skipping the rig's directory shortens the redirect chain by one hop with the same end, except when the rig's redirect
  leads back to the rig's own beads directory or to this worktree's (`Redirect.ChainIsOneShorter`). Both are accepted
  by the set-up; in the second case the worktree is told to redirect to itself (`Redirect.RigRedirectsToWorktree`).
- The setters promise to keep other content. They do exactly when every line of a value after its first is one of the
  record's own lines or blank (`Fields.AttachmentKeepsContent`, `MRRecord.MRKeepsContent`). Arguments of several lines,
  which can be attached from standard input, lose their later lines to the description, and the next set keeps them
  there (`Fields.ArgumentsLeak`).
- An attachment and a merge-request record in one description are meant to interact through the convoy id only. They
  do exactly when neither parser finds more than that id in the other record's text (`SharedDescription.MRUnderAttachment`,
  `SharedDescription.AttachmentUnderMR`). Arguments with a second line `target: prod` fail this: over a text without a
  merge request they make one with that target (`SharedDescription.ArgumentsSetTarget`).
- A `mode:` line in the title of an agent bead shows through when the record has no mode (`AgentBeads.FormatParse`).
  After any run the mode is the only field this can change, exactly when the operations leave it empty and the title
  has one (`AgentUpdates.InterleavedFields`, `AgentUpdates.TitleModeReturns`).
- `InstantiateMolecule` is documented as creating all issues or none. A failed copy leaves none behind exactly when the
  very first issue was refused; a later refusal leaves the issues created before it, closed but not deleted, and a
  refused dependency leaves all of them open (`Instantiate.NotAtomic`).

## Model

| member | source | states |
|---|---|---|
| Backoff.ParseBackoffConfig | internal/beads/molecule.go:180-221 | the loop over comma-separated settings: unknown keys and bad numbers change nothing, and without a base there is no configuration |
| Backoff.DocumentedFormReads | internal/beads/molecule.go:176-178 | a configuration written as documented parses back to itself |
| Backoff.BaseAlone | internal/beads/molecule.go:176-186 | a base alone parses with multiplier 2 and no maximum |
| Backoff.OthersIgnored | internal/beads/molecule.go:187-215 | a part without "=", with another key in any case, or with a multiplier that is no whole number changes nothing |
| MoleculeSteps.FinalizeStep | internal/beads/molecule.go:78-149 | the step made of a header and the lines under it: needs, tier, waits, type and backoff collected line by line, other lines kept as instructions, the first of them (or the ref) as title |
| MoleculeSteps.ParseMoleculeSteps | internal/beads/molecule.go:67-175 | the loop over lines with its open step computes exactly the sections that the headers open, each turned into a step |
| MoleculeSteps.StepSays | internal/beads/molecule.go:78-149 | of the lines under a header: the title is the first prose line that is not blank, trimmed, or else the ref; instructions are trimmed and empty exactly without such a line; needs and waits are exactly the entries of the needs and waits lines |
| MoleculeSteps.StepsAreClean | internal/beads/molecule.go:67-175 | of any text: titles are one non-empty line, instructions trimmed, every need and wait trimmed, non-empty and without a comma, the tier one of the three, the type a word |
| WrittenSteps.WrittenStepsParse | internal/beads/molecule.go:31-66 | steps written in the documented format -- "## Step: ref", the prose, then "Needs: a, b", "WaitsFor: ", "Tier: ", "Type: " and "Backoff: " lines -- parse back to the same steps, with the keywords in any case |
| WrittenSteps.HeaderExactly | internal/beads/molecule.go:31-32 | a line is a step header with a ref exactly when it is "##", white space, "step:" in any case, white space, that word and white space |
| WrittenSteps.ProseExactly | internal/beads/molecule.go:34-53 | a trimmed content line is prose exactly when none of the five expressions matches it |
| MoleculeSteps.StepsAreHeaders | internal/beads/molecule.go:31-32 | the steps are the header lines in order, and every ref is one non-empty word |
| MoleculeSteps.DescriptionsCompose | internal/beads/molecule.go:67-175 | a text that opens with a header, appended to another, adds its steps and leaves the others as they were |
| StepGraph.DepsAreNeeds | internal/beads/molecule.go:515-518 | with distinct refs the adjacency map holds exactly each step's needs |
| StepGraph.EnterNode | internal/beads/molecule.go:520-546 | entering an unvisited node keeps: visiting means on the path in order, visited means finished after all needs |
| StepGraph.LeaveNode | internal/beads/molecule.go:520-558 | leaving a node whose needs are all visited keeps the same, and the finished nodes stay topologically ordered |
| StepGraph.BackEdgeClosesCycle | internal/beads/molecule.go:527-537 | the path from the revisited node, closed by the edge back to it, is a cycle of real edges |
| StepGraph.CycleSearch.PathFrom | internal/beads/molecule.go:527-537 | the index scan always finds the node on the path, and what is reported is a cycle |
| StepGraph.CycleSearch.Dfs | internal/beads/molecule.go:521-558 | terminates; returns a real cycle, or finishes the node, restores the path, and keeps the state of every node visited before |
| StepGraph.TopologicalBlocksCycle | internal/beads/molecule.go:513-568 | no cycle passes through a set of finished nodes each of which has its needs before it |
| StepGraph.DetectCycles | internal/beads/molecule.go:513-568 | reports nothing exactly when the needs graph has no cycle, and reports only a real cycle |
| Molecule.ValidateMolecule | internal/beads/molecule.go:461-509 | accepts exactly the molecules with steps, distinct refs, known needs and no cycle; every error names a real problem |
| Molecule.ValidateSteps | internal/beads/molecule.go:474-508 | the same for a list of steps with non-empty refs |
| Molecule.Progress | scripts/gen_hanoi.py:46-50 | in an acyclic graph, from any set of closed steps that leaves one open, some open step has all its needs closed |
| Molecule.StuckRunIsComplete | scripts/gen_hanoi.py:46-55 | a run that cannot close another step has closed them all, from whatever state it resumed |
| Molecule.RunClosesOnce | scripts/gen_hanoi.py:46-55 | no run closes a step twice or one that was closed, so a run is never longer than the open steps |
| Molecule.RunIsTopological | scripts/gen_hanoi.py:46-50 | a complete order is one in which each step comes after its needs |
| Molecule.CompletableIffAcyclic | internal/beads/molecule.go:503-506 | the steps can be closed to the end, each ready when closed, if and only if there is no cycle |
| Molecule.WellFormedIffCompletable | internal/beads/molecule.go:461-509 | the accepted step lists are exactly the non-empty ones with distinct refs and known needs that can be closed to the end |
| Molecule.CloseReadySteps | scripts/gen_hanoi.py:46-55 | for a validated molecule the close-a-ready-step loop ends after exactly the open steps, from any closed set, with all closed |
| Instantiate.WiredIsImage | internal/beads/molecule.go:432-447 | with distinct keys a dependency is wired between two issues exactly when it is the image of an inner need |
| Instantiate.CopyStaysAcyclic | internal/beads/molecule.go:432-447 | the created issues never wait for each other in a circle when the steps did not |
| Instantiate.ValidatedCopyIsAcyclic | internal/beads/molecule.go:363-450 | a validated molecule instantiates to acyclic issues |
| Instantiate.CreateAll | internal/beads/molecule.go:389-430 | one fresh issue per step in order; on a refusal every issue already created is closed and nothing else |
| Instantiate.WireAll | internal/beads/molecule.go:432-447 | adds all inner dependencies in order, or those before the first refused one |
| Instantiate.CopyGraph | internal/beads/molecule.go:296-360 | both passes together: what each outcome leaves in the backend; a failed create has added no dependency |
| Instantiate.NotAtomic | internal/beads/molecule.go:265-447 | against the documented all-or-none: a failed copy leaves no issue exactly when the first one was refused; otherwise those before the refused one stay, exactly the closed ones, or after a refused dependency all stay and none is closed |
| Instantiate.SecondRefused | internal/beads/molecule.go:402-430 | an outcome of that kind |
| Instantiate.FindUnknownNeed | internal/beads/molecule.go:374-387 | finds a need that names no step, if there is one |
| Instantiate.InstantiateFromMarkdown | internal/beads/molecule.go:363-450 | an unknown need or an empty molecule creates nothing; otherwise the steps are copied |
| Instantiate.StepBecomes | internal/beads/molecule.go:392-417 | what is created for a step: type task, its title, the priority of the parent, which it is placed under, the expanded instructions followed by the lines that name the molecule, the step and the tier; and it waits for what the step needs |
| Instantiate.TemplateBecomes | internal/beads/molecule.go:301-328 | what is created for a template child: the same with its own type, or task, and its own dependencies |
| Instantiate.InstantiateFromChildren | internal/beads/molecule.go:296-360 | child templates are copied the same way, with dependencies inside the template set only |
| Instantiate.InstantiateMolecule | internal/beads/molecule.go:267-293 | children decide if there are any, the text otherwise; a missing issue changes nothing |
| Hanoi.MoveList.Solve | scripts/gen_hanoi.py:26-32 | the nested closure appends exactly the recursive solution to the shared list |
| Hanoi.HanoiMoves | scripts/gen_hanoi.py:23-34 | returns the solution for any pegs and any number of disks from one up |
| Hanoi.SolutionLength | scripts/gen_hanoi.py:38-41 | there are 2^n - 1 moves |
| Hanoi.SolveMovesTower | scripts/gen_hanoi.py:26-32 | on any board with room, the moves are legal and carry the tower to the target, leaving all else in place |
| Hanoi.AllMovesLegal | scripts/gen_hanoi.py:98 | from all disks on A every move is legal and the end is all disks on C |
| Hanoi.TakesAsMany | scripts/gen_hanoi.py:23-34 | any legal way to take the n smallest disks from one peg to another takes at least 2^n - 1 moves, whatever larger disks do meanwhile |
| Hanoi.NoShorterSolution | scripts/gen_hanoi.py:23-34 | no sequence of legal moves that solves the puzzle is shorter than the generated one |
| Hanoi.GenerateFormula | scripts/gen_hanoi.py:79-99 | setup, one step per move in order with its disk, pegs and number, verify; a chain with distinct refs |
| Hanoi.MoveRefsDistinct | scripts/gen_hanoi.py:85-92 | the generated step ids are pairwise distinct |
| Hanoi.NextInChain | scripts/gen_hanoi.py:86-92 | after the first k steps only step k is ready |
| Hanoi.OnlyOneOrder | scripts/gen_hanoi.py:85-99 | whatever ready steps are closed, the order is the printed one |
| Hanoi.ChainCompletes | scripts/gen_hanoi.py:85-99 | the printed order runs, so every generated formula is a valid molecule |
| AgentIds.ParseAgentBeadID | internal/beads/agent_ids.go:391-457 | the index loop with early returns equals the recursive scan |
| AgentIds.ValidateAgentID | internal/beads/agent_ids.go:184-307 | accepts exactly the ids whose rightmost role splits them into parts that fit that role, and any problem it reports is one the id has |
| AgentIds.CheckParts | internal/beads/agent_ids.go:199-307 | the same for the segments after the prefix, by their number |
| AgentIdForms.ValidatorExactly | internal/beads/agent_ids.go:169-307 | an id is accepted as an identity exactly when it is that identity printed in the documented pattern of its role and the identity is acceptable -- its rig and name fit the role and no segment of them is taken for another role -- or it is a dog with an empty name or a witness or refinery id with one hyphen too many |
| AgentIdForms.PrintedAccepted | internal/beads/agent_ids.go:169-307 | of the ids printed from an identity that fits its role exactly the acceptable ones are accepted as it |
| AgentIdForms.AcceptedFits | internal/beads/agent_ids.go:169-307 | everything accepted has the rig and name its role takes, but for a dog with an empty name |
| AgentIds.TownRoundTrip | internal/beads/agent_ids.go:327-331 | town-level ids parse back for every role without a hyphen |
| AgentIds.DogRoundTrip | internal/beads/agent_ids.go:35-37 | dog ids parse back for every name |
| AgentIds.Vocabulary.NamedScan | internal/beads/agent_ids.go:413-450 | for any keywords: the scan splits at the role exactly when the name segments are readable |
| AgentIds.NamedRoundTrip | internal/beads/agent_ids.go:327-457 | crew and polecat ids parse back if and only if the rig does not start with dog and the name is readable |
| AgentIds.SingletonRoundTrip | internal/beads/agent_ids.go:327-457 | witness and refinery ids parse back if and only if the rig does not start with dog and, with several segments, does not end in crew or polecat |
| AgentIds.ReencodeExactly | internal/beads/agent_ids.go:391-457 | re-encoding a parsed id with its prefix gives it back exactly when it has one segment, or a rig and either a name or nothing after the role |
| AgentIds.ReencodeWellSegmented | internal/beads/agent_ids.go:391-457 | for ids without empty segments only named dogs and ids with dropped segments do not come back |
| AgentIds.ReencodeBySegments | internal/beads/agent_ids.go:391-457 | by the segments alone: it comes back exactly when there is one, or they do not start with dog and hold no witness or refinery, without crew or polecat before it, that is followed by plain segments only |
| AgentIds.ParsingInjective | internal/beads/agent_ids.go:391-457 | re-encodable ids with one prefix that parse alike are equal |
| AgentIds.SuffixAfterSingletonDropped | internal/beads/agent_ids.go:427-437 | a witness or refinery id and the same id with a further plain segment parse alike |
| AgentIds.Vocabulary.ScansAgree | internal/beads/agent_ids.go:233-260 | for any keywords: validator and parser settle on the same role except where a multi-segment name starts with a named role |
| AgentIds.ValidatorAndParserAgree | internal/beads/agent_ids.go:184-307 | what the validator accepts is an agent session bead iff its prefix has 2 or 3 characters, and the parser then agrees except for rigs that start with dog and names that start with crew or polecat |
| KeyLines.FieldLineReads | internal/beads/fields.go:40-56 | a printed "key: value" line reads back as the key and the trimmed value |
| KeyLines.LineReads | internal/beads/fields.go:40-56 | any line is cut at its first colon, both sides trimmed and the key lower-cased, however it is spaced |
| KeyLines.NoColonSaysNothing | internal/beads/fields.go:48-52 | a line without a colon says nothing |
| KeyLines.Lens.OtherContent | internal/beads/fields.go:139-191 | the loops keep the lines that are not the record's and cut blank lines at both ends |
| KeyLines.Lens.Assemble | internal/beads/fields.go:193-208 | the record's lines, an empty line, the rest; either part may be empty |
| KeyLines.Lens.PutGet | internal/beads/fields.go:134-208 | for any record kind and values of any number of lines: a written text says what the lines of its record text say |
| KeyLines.Lens.PutContent | internal/beads/fields.go:131-208 | for any record kind: writing keeps everything that is not the record's exactly when no line of the record's text is stray, and adds the stray ones otherwise |
| KeyLines.Lens.PutPut | internal/beads/fields.go:131-208 | for any record kind: a later write replaces an earlier one completely exactly when the earlier left nothing stray |
| KeyLines.Lens.DropIsIdentity | internal/beads/fields.go:134-208 | for any record kind: dropping it changes nothing exactly when no line is the record's and no edge line is blank |
| KeyLines.Lens.GetAfterBothPuts | internal/beads/fields.go:134-208 | for any two record kinds and values of any number of lines: after the second is written over the first, the first reads what the second text says and what the second leaves of the first |
| Fields.ParseAttachmentFields | internal/beads/fields.go:33-92 | the loop computes the record that the lines collect to, none when no line sets a field |
| Fields.FormatAttachmentFields | internal/beads/fields.go:96-129 | the non-empty fields as lines, in order |
| Fields.AttachmentLinesWritten | internal/beads/fields.go:96-129 | the keys as they are written, in order |
| Fields.SetAttachmentFields | internal/beads/fields.go:134-208 | the new description as the lens gives it, for an issue or none |
| Fields.AttachmentPutGet | internal/beads/fields.go:33-208 | what is set parses back if and only if it is a non-empty record of trimmed one-line values |
| Fields.AttachmentKeepsContent | internal/beads/fields.go:131-208 | the other lines stay, blank edges aside, if and only if every value's later lines are attachment lines or blank |
| Fields.AttachmentPutPut | internal/beads/fields.go:131-208 | setting twice is setting the second, as exact strings, under the same condition on the first record, in both directions |
| Fields.OneLineContained | internal/beads/fields.go:131-208 | records of one-line values meet that condition |
| Fields.ArgumentsLeak | internal/cmd/sling_helpers.go:265-287 | attached arguments whose second line has no colon change the rest of every description, and no later set undoes it |
| Fields.ReviewArgumentsLeak | internal/cmd/sling_helpers.go:265-287 | an input of that kind |
| Fields.AttachmentCleared | internal/beads/fields.go:134-208 | after clearing there is no attachment |
| Fields.AttachmentClearIsIdentity | internal/beads/fields.go:134-208 | clearing gives the text back if and only if it has no attachment line and no blank edge line |
| Fields.AttachThenDetach | internal/beads/handoff.go:171-240 | attaching and then detaching gives the text back if and only if it had no attachment line and no blank edge line and the values leave no line behind |
| MRRecord.ParseMRFields | internal/beads/fields.go:235-318 | the loop computes the merge-request record the lines collect to, numbers scanned as fmt.Sscanf does |
| MRRecord.FormatMRFields | internal/beads/fields.go:322-369 | the non-empty fields as lines, in order, the count when positive |
| MRRecord.MRLinesWritten | internal/beads/fields.go:322-369 | the keys as they are written, in order |
| MRRecord.SetMRFields | internal/beads/fields.go:375-462 | the new description as the lens gives it |
| MRRecord.MRPutGet | internal/beads/fields.go:235-462 | what is set parses back if and only if it is a non-empty record of trimmed one-line values whose count is not negative and fits 64 bits |
| MRRecord.MRKeepsContent | internal/beads/fields.go:375-462 | the other lines stay, blank edges aside, if and only if every value's later lines are merge-request lines or blank |
| MRRecord.MRPutPut | internal/beads/fields.go:375-462 | setting twice is setting the second, as exact strings, under the same condition on the first record, in both directions |
| SharedDescription.AttachmentUnderMR | internal/beads/fields.go:131-462 | a merge-request record set over an attachment replaces its convoy id and nothing else, in every text and for every attachment, exactly when the attachment parser reads only a convoy id in the record's own text |
| SharedDescription.MRUnderAttachment | internal/beads/fields.go:131-462 | an attachment set over a merge-request record replaces its convoy id and nothing else, in every text and for every record, exactly when the merge-request parser reads only a convoy id in the attachment's own text |
| SharedDescription.OneLineAttachmentApart | internal/beads/fields.go:131-208 | attachments of one-line values with a trimmed convoy id meet that condition |
| SharedDescription.OneLineMRApart | internal/beads/fields.go:375-462 | and so do merge-request records |
| SharedDescription.ArgumentsMakeMR | internal/cmd/sling_helpers.go:265-287 | attached arguments whose second line is any merge-request field do not: over an empty text they make a merge-request record with that field |
| SharedDescription.ArgumentsSetTarget | internal/cmd/sling_helpers.go:265-287 | an input of that kind |
| SharedDescription.CloseReasonMakesAttachment | internal/beads/fields.go:375-462 | a close reason whose second line is any attachment field makes an attachment in the same way |
| LockedSections.RunsAreSerial | internal/beads/beads_agent.go:21-32 | for any sections under one lock: every interleaving, deaths included, ends as the sections run whole in lock order, and each process saw what it would have seen then |
| LockedSections.MutualExclusion | internal/beads/handoff.go:158-165 | at most one process is inside |
| LockedSections.NobodyBlocked | internal/beads/beads_agent.go:21-32 | in every reachable world a waiting process can take a free lock, and a holder can step or release and may die; once it is out, either way, every waiting process can take the lock |
| LockedSections.SerialTurn | internal/beads/beads_agent.go:21-32 | each turn of the serial run is that process's section alone on what the turns before it left |
| AgentBeads.ParseAgentFields | internal/beads/beads_agent.go:109-152 | the loop computes the fields the lines collect to, "null" read as empty |
| AgentBeads.FormatAgentDescription | internal/beads/beads_agent.go:57-106 | title, empty line, the fields in order, the mode only when set |
| AgentBeads.AgentLinesWritten | internal/beads/beads_agent.go:57-106 | the keys as they are written, in order, with null for empty values of all but role type and state |
| AgentBeads.FormattedValues | internal/beads/beads_agent.go:57-152 | what each field of a formatted description reads as, for every title of any number of lines |
| AgentBeads.FormatParse | internal/beads/beads_agent.go:57-152 | the fields come back if and only if each value is one line, trimmed and not "null", and the title has no mode that the fields leave empty |
| AgentBeads.ParsedIsStorable | internal/beads/beads_agent.go:109-152 | whatever the text, parsed values can be stored again |
| AgentUpdates.AgentStore.UpdateAgentDescriptionFields | internal/beads/beads_agent.go:474-514 | rewrites exactly one bead by the given updates, or fails and leaves all beads alone; a bad level is refused first |
| AgentUpdates.AgentStore.ResetAgentBeadForReuse | internal/beads/beads_agent.go:331-373 | empties hook, merge request and cleanup status, sets the state to nuked, keeps the rest, or leaves all alone |
| AgentUpdates.AloneWritesOrNot | internal/beads/beads_agent.go:474-514 | the step-by-step section, run alone with any replies, writes the rewritten bead or nothing |
| AgentUpdates.AloneEnds | internal/beads/beads_agent.go:331-514 | and it has written exactly when the bead was there and the show and the update answered, for every operation |
| AgentUpdates.TurnWrites | internal/beads/beads_agent.go:331-514 | in every run the processes that wrote are exactly those whose show and update answered |
| AgentUpdates.InterleavingsSerialize | internal/beads/beads_agent.go:331-514 | every interleaving ends with the bead that the operations that wrote leave one after the other in lock order |
| AgentUpdates.RewriteApplies | internal/beads/beads_agent.go:474-514 | for every bead: rewriting the text is updating the parsed fields exactly when a mode is left or the title has none |
| AgentUpdates.UpdateReads | internal/beads/beads_agent.go:474-514 | an update sets what it names and keeps the other fields and the title |
| AgentUpdates.ResetReads | internal/beads/beads_agent.go:331-373 | a reset clears hook, merge request and cleanup status, sets the state to nuked, and keeps role type and rig, and also notification level and mode |
| AgentUpdates.RespawnReads | internal/beads/beads_agent.go:242-320 | a respawn replaces title and fields, whatever the bead said |
| AgentUpdates.RewriteAllApplies | internal/beads/beads_agent.go:331-514 | the same for any number of operations one after the other; with none there is nothing to differ |
| AgentUpdates.InterleavedFields | internal/beads/beads_agent.go:331-514 | every interleaving ends with the fields that those operations give when applied in that order to the fields at the start: always for every field but the mode, and for all exactly when there was none, a mode is left or the title has none |
| AgentUpdates.TitleModeReturns | internal/beads/beads_agent.go:57-106 | a bead titled with a mode line: setting the mode to nothing brings the title's mode back |
| AgentUpdates.LastTouchSurvives | internal/beads/beads_agent.go:470-473 | each field ends with what the last operation touching it wrote, so concurrent updates to different fields all survive |
| AgentUpdates.LostWithoutLock | internal/beads/beads_agent.go:481-483 | without the lock two overlapping updates of different fields lose one of them |
| Handoff.PinnedBeads.AttachMolecule | internal/beads/handoff.go:171-207 | replaces the attachment of a pinned bead; every other outcome leaves all beads alone |
| Handoff.PinnedBeads.DetachMolecule | internal/beads/handoff.go:211-240 | drops the attachment if there is one; every failure leaves all beads alone |
| Handoff.PinnedBeads.DetachMoleculeWithAudit | internal/beads/audit.go:32-81 | the same, and appends at most one entry, naming the pinned bead and the molecule attached just before |
| Handoff.Records.AloneIsProper | internal/beads/handoff.go:171-240 | a section alone changes the bead by what it recorded and the log by its entry, and only where the operation allows it |
| Handoff.Records.AloneExactly | internal/beads/handoff.go:171-240 | a section alone sets its molecule (attach) or nothing (detach) exactly when the bead admits it -- pinned, or with something attached -- and the show and the update answered; an audited detach logs exactly when the show and the log answered, with bead, molecule, agent, reason, operation, previous state and time |
| Handoff.Records.RunsHaveChronicles | internal/beads/handoff.go:158-240 | every interleaving is a sequence of such whole turns in lock order |
| Handoff.Records.TurnExactly | internal/beads/handoff.go:158-240 | in every run each turn sets and logs exactly what its operation, the bead left by the effects before it and the replies it got determine, so a turn with good replies on a bead that admits it is effective |
| Handoff.LastEffectDecides | internal/beads/handoff.go:158-240 | after any interleaving the bead holds the effects in lock order on the original text and the log has grown by the logged entries; the text is as if only the last effect had happened exactly when each earlier one left nothing behind, and the other lines are unchanged exactly when all did |
| Handoff.NewAttachmentContained | internal/beads/handoff.go:171-207 | an attach leaves nothing behind exactly when the later lines of its molecule, if any, are attachment lines or blank |
| Handoff.EffectOfTurn | internal/beads/handoff.go:171-240 | what a turn set is its operation's: the molecule of the attach with some time, or nothing for a detach |
| Handoff.AttachedInTheEnd | internal/beads/handoff.go:158-240 | after any interleaving what is attached is what the last effective turn's operation set, exactly when an attached molecule is one trimmed line; with no effective turn it is what was attached |
| Handoff.AttachmentOfLastEffect | internal/beads/handoff.go:171-240 | what a text reads as after some sets is the last of them, exactly when that one reads back at all |
| Handoff.EntriesNameTheAttached | internal/beads/audit.go:53-66 | each entry names the pinned bead, the molecule that the effective operations before its section left attached, the agent, the reason, the operation or "detach", the status of the bead and the time of logging |
| Integration.SanitizeBranchSegment | internal/beads/integration.go:25-38 | returns the words of the lower-cased input joined by single hyphens and cut at 60, in normal form, empty exactly without a letter or digit, and the input itself exactly when that was in normal form |
| Integration.SanitizedIsNormal | internal/beads/integration.go:25-38 | only a-z, 0-9 and single hyphens, none at the edges, at most 60 characters; empty exactly without a letter or digit |
| Integration.SanitizedFixedPoints | internal/beads/integration.go:28-38 | the texts left unchanged are exactly the normal ones, and sanitizing is idempotent |
| Integration.SanitizedIsWords | internal/beads/integration.go:25-38 | the result is the words of the lower-cased input joined by single hyphens, cut at 60 characters without a trailing hyphen |
| Integration.GetMetadataField | internal/beads/integration.go:67-84 | the loop returns the value of the first matching line |
| Integration.MetadataIsFirst | internal/beads/integration.go:67-84 | the value is that of the first matching line, empty without one |
| Integration.AnyCaseMatches | internal/beads/integration.go:65-84 | a line matches whatever the case of its key and the space around it |
| Integration.AddMetadataField | internal/beads/integration.go:98-126 | every matching line is replaced, or one is put in front |
| Integration.OtherLinesStay | internal/beads/integration.go:98-126 | every matching line becomes the field line and every other line stays in place; without one the field line is put in front of them all |
| Integration.AddedFieldReadsBack | internal/beads/integration.go:67-126 | put-get: a one-line value reads back trimmed |
| Integration.AddedTwice | internal/beads/integration.go:98-126 | put-put, as exact strings |
| Integration.OtherFieldUnchanged | internal/beads/integration.go:67-126 | adding one field leaves a field of a distinct key as it was |
| Integration.BranchFieldsIndependent | internal/beads/integration.go:53-95 | the integration and base branch keys are such keys |
| BranchDetection.DetectIntegrationBranch | internal/beads/integration.go:184-243 | the loop with its mutable id equals the walk over at most ten issues |
| BranchDetection.BranchOfEpic | internal/beads/integration.go:190-231 | the branch of an epic is the recorded one if it exists; with none recorded the one of its title if that exists, else the legacy one |
| BranchDetection.ExistsWhere | internal/beads/integration.go:202-212 | a branch exists when the remote has it, or, when the remote does not answer, locally |
| BranchDetection.World.WalkFindsNearest | internal/beads/integration.go:179-243 | a branch is found if and only if it is that of the nearest ancestor that has one, within the bound |
| BranchDetection.World.WalkFailsAtMissing | internal/beads/integration.go:184-243 | the walk fails exactly at the missing ancestor that is reached within the bound with no branch before it |
| BranchDetection.World.WalkFindsNothing | internal/beads/integration.go:184-243 | it answers that there is no branch exactly when no ancestor within the bound is missing or has one |
| BranchDetection.AddedBranchDecides | internal/beads/integration.go:88-234 | adding the field to an epic pins its branch whatever it was called before |
| Approvals.Store.ExpireLocked | internal/approvals/store.go:298-304 | the in-place loop expires exactly the overdue pending requests |
| Approvals.Store.CreateRequest | internal/approvals/store.go:97-129 | appends the new request to the expired list and writes it, or leaves the file alone |
| ApprovalOutcomes.CreateSucceeds | internal/approvals/store.go:97-129 | creating succeeds exactly for a command that is not blank: a pending request with that command, its hash, requester or "system", and a deadline after the given time or 15 minutes is appended to the expired list |
| Approvals.Store.DecideRequest | internal/approvals/store.go:174-204 | decides the first request of that id if it is pending after expiry; a refusal or failure writes nothing |
| ApprovalOutcomes.DecideSucceeds | internal/approvals/store.go:174-204 | deciding succeeds exactly when the decision is approved or denied and the first request of the id is pending and not overdue; that request then has that status, the trimmed approver or "operator", the trimmed rationale and the time, nothing else of it changes, every other request is its expired self, and each refusal has its cause and changes nothing |
| Approvals.Store.MarkRequestExecuted | internal/approvals/store.go:207-233 | executes it if it is approved or pending after expiry; a refusal or failure writes nothing |
| Approvals.Store.GetRequest | internal/approvals/store.go:156-171 | answers from its own expired copy |
| ApprovalOutcomes.GetFindsFirst | internal/approvals/store.go:156-171 | reading succeeds exactly when the id occurs, with the first such request, expired if overdue, and changes nothing |
| Approvals.Store.ListRequests | internal/approvals/store.go:132-153 | lists from its own expired copy, filtered, newest first |
| ApprovalOutcomes.ListsMatching | internal/approvals/store.go:132-153 | a listing holds exactly the requests of the wanted status after expiry, newest first, those of one moment in file order, and changes nothing |
| Approvals.NewestFirstIsStableSort | internal/approvals/store.go:149-151 | sorted by creation, the same requests, and stable among equal times |
| Approvals.EagerIsPrompt | internal/approvals/store.go:298-304 | the eager store never holds an overdue pending request |
| Approvals.LazyRefinesEager | internal/approvals/store.go:97-273 | with clock readings non-decreasing in lock order every answer of every run, failures included, is the eager store's |
| Approvals.LazyIsEagerInOrder | internal/approvals/store.go:97-273 | the clock sequences for which every run answers as the eager store are exactly those in order |
| Approvals.OldClockResurrects | internal/approvals/store.go:174-204 | for every two readings out of order with a deadline between them, anywhere in a run: the decision with the older reading approves a request the eager store refuses as expired |
| Approvals.RunsOnlyMoveForward | internal/approvals/store.go:97-304 | over any run requests are only appended, denied, expired and executed are final, approved only becomes executed, and the identifying fields never change |
| Approvals.RunsStaySound | internal/approvals/store.go:97-304 | over any run every request carries the hash of its command, a deadline after its creation, and a decision no later than the deadline |
| ApprovalOutcomes.MarkExecutedSucceeds | internal/approvals/store.go:206-233 | executing succeeds exactly when the first request of the id is approved, or pending and not overdue; it changes the status, and the run when one is named, and nothing else of that request; every other request is its expired self, and each refusal has its cause and changes nothing |
| Approvals.ExecutedBySome | internal/approvals/store.go:206-233 | over any run a request is executed in the end exactly when some event executed it |
| Approvals.ExecutedWithDecision | internal/approvals/store.go:206-233 | and it carries a decision exactly when it was not pending, after expiry, at that event |
| ApprovalOutcomes.DecidedBySome | internal/approvals/store.go:174-204 | over any run a request carries a decision in the end exactly when some event decided it |
| ApprovalOutcomes.VerdictStands | internal/approvals/store.go:174-233 | and it carries that verdict, by whom, why and when, to the end; only an approved request can leave it, by being executed |
| Redirect.FileSystem.ResolveWithDepth | internal/beads/beads_redirect.go:72-102 | the recursion equals the bounded follower, for any depth |
| Redirect.FileSystem.ResolveBeadsDir | internal/beads/beads_redirect.go:25-68 | follows at most four hops, and deletes at most the starting directory's redirect to itself |
| Redirect.EitherWay | internal/beads/beads_redirect.go:25-32 | the beads directory and the directory that holds it resolve alike |
| Redirect.FollowFindsEnd | internal/beads/beads_redirect.go:72-102 | when the unbounded chain ends within the hops, the follower returns its end |
| Redirect.FollowStops | internal/beads/beads_redirect.go:72-102 | otherwise it returns the directory exactly that many hops along |
| Redirect.EndsOnce | internal/beads/beads_redirect.go:72-102 | a chain ends at one place after one number of hops |
| Redirect.CirclesNeverEnd | internal/beads/beads_redirect.go:72-102 | a directory reached again ends no chain |
| Redirect.DeletingIgnoredIsInvisible | internal/beads/beads_redirect.go:50-60 | deleting an ignored redirect changes no resolution from anywhere |
| Redirect.ComputeRedirectTarget | internal/beads/beads_redirect.go:155-241 | the flags and rebuilt path give the target of the case analysis, with each error in its case |
| Redirect.WorktreeRefused | internal/beads/beads_redirect.go:155-217 | it is refused exactly when it lies less than two levels below the town, when one of the first two components is mayor, or when the rig has no beads directory and the mayor's clone certainly has none |
| Redirect.WorktreeLands | internal/beads/beads_redirect.go:180-241 | otherwise it is sent to the mayor's clone exactly when the rig's directory is missing or holds neither dolt nor redirect and the clone's may exist, else along the rig's redirect if that is not blank, else to the rig's directory, which is there; it arrives exactly when it is at most one level outside the town or that redirect climbs to the root |
| Redirect.EmptyRigGivesWay | internal/beads/beads_redirect.go:188-211 | for any names: such a rig gives "../../mayor/rig/.beads" |
| Redirect.SetupRedirect | internal/beads/beads_redirect.go:257-308 | without a target nothing changes; with one the redirect file holds it, or cleaning or writing failed and the worktree is left with its old redirect, none, or a part of the new one; no other redirect is touched |
| Redirect.UpwardsIsRigRoot | internal/beads/beads_redirect.go:164-205 | going up the relative depth arrives at the rig root if and only if the worktree is at most one level outside the town |
| Redirect.WrittenTextReadsBack | internal/beads/beads_redirect.go:293-304 | the written file trims back to the computed text |
| Redirect.FirstHopLands | internal/beads/beads_redirect.go:155-308 | from any accepted worktree at any depth, inside the town or not, the first hop lands where the case analysis chose, if and only if the worktree is at most one level outside the town or the rig's own redirect climbs to the root |
| Redirect.FarWorktreeMissesRig | internal/beads/beads_redirect.go:164-205 | worktrees that are sent to the root of the disk instead of the rig, for any names |
| Redirect.ChainIsOneShorter | internal/beads/beads_redirect.go:207-241 | in the redirect case the worktree's chain ends where the rig's does and is one hop shorter than through the rig, if and only if the rig's redirect leads neither to the rig's own beads directory nor to the worktree's |
| Redirect.RigRedirectsToItself | internal/beads/beads_redirect.go:54-62 | a rig redirect of .beads to itself: the worktree's chain is as long as through the rig |
| Redirect.RigRedirectsToWorktree | internal/beads/beads_redirect.go:227-241 | a rig redirect to the worktree: the worktree keeps its own beads directory, and through the rig it would run in a circle |
| Redirect.ErrantRedirects | internal/beads/beads_redirect.go:207-241 | both kinds of rigs exist, for any names |
| Redirect.DetourIsOneLonger | internal/beads/beads_redirect.go:207-241 | pointing at the rig's own beads directory instead would take one hop more to the same end |

## Left out

- Strings are sequences of Unicode scalars, not bytes, so lengths and prefixes count characters.
- Lower-casing is exact where the result is ASCII; other letters are left as they are.
- Backoff intervals are kept as written, as in the code; nothing there parses them.
- Template variables of molecule steps and of branch names, and the digest behind the command hash, are function parameters.
- The text of error messages and the printing of cycles are not modelled; which error is reported is.
- AgentUpdates.InterleavedFields: the respawn operation is the show-and-rewrite part of CreateOrReopenAgentBead; its create, reopen, type and slot calls do not touch the description.
- AgentUpdates.AgentStore.UpdateAgentDescriptionFields: an invalid notification level returns before the lock, so it takes no part in the interleavings.
- LockedSections.RunsAreSerial: one bead and its one lock; locks are per bead, so beads do not interact. The lock is the kernel's exclusive lock, dropped when a process dies.
- Handoff.LastEffectDecides: deletion of a bead during a run is not modelled.
- Approvals.LazyRefinesEager: creation times and deadlines do not overflow, and a failed load and a failed write are one failure.
- The decision class and policy fields of requests, JSON and file handling of the store: carried along unchanged by every operation.
- Redirect.SetupRedirect: cleaning of the other runtime files, a stale file in place of the directory, symbolic links and relative working directories; making the directory fails as writing does.
- Hanoi.HanoiMoves: zero disks, for which the script recurses without end.
- Routing of show and update to other rigs, hook slots and agent state changes, which the backend holds outside the description.
- The boot marker lock, message queues, convoys, sessions, the command layer and the cost report.
