/** The merge-request record, stored in the same descriptions as attachments.  (internal/beads/fields.go) */
module MRRecord {
  import opened Text
  import opened KeyLines
  import opened FieldKeys
  import opened Fields

  datatype MRFields = MRFields(
    branch: string, target: string, sourceIssue: string, worker: string, rig: string, mergeCommit: string,
    closeReason: string, agentBead: string, retryCount: int, lastConflictSHA: string, conflictTaskID: string,
    convoyID: string, convoyCreatedAt: string)

  const NO_MR := MRFields("", "", "", "", "", "", "", "", 0, "", "", "", "")

  function ReadMR(line: string): map<MRSlot, string> {
    ReadWith(MRKey, SetsMR, line)
  }

  /** An empty value, or a retry count that is not a number, sets nothing. */
  predicate SetsMR(s: MRSlot, value: string) {
    value != "" && (s == RetryCount ==> ScanInt(value).Some?)
  }

  predicate OwnsMR(line: string) {
    OwnedBy(MRKey, line)
  }

  const MR := Lens(ReadMR, OwnsMR, Blank)

  function Count(text: string): int {
    var n := ScanInt(text);
    if n.Some? then n.value else 0
  }

  function MROf(m: map<MRSlot, string>): MRFields {
    MRFields(Get(m, Branch), Get(m, Target), Get(m, SourceIssue), Get(m, Worker), Get(m, Rig),
             Get(m, MergeCommit), Get(m, CloseReason), Get(m, AgentBead), Count(Get(m, RetryCount)),
             Get(m, LastConflictSHA), Get(m, ConflictTask), Get(m, MRConvoy), Get(m, ConvoyCreated))
  }

  function ParsedMR(description: string): Option<MRFields> {
    var m := MR.Collect(Split(description, '\n'));
    if m == map[] then None else Some(MROf(m))
  }

  /** The switch on the key. */
  function AssignMR(f: MRFields, s: MRSlot, value: string): MRFields {
    match s
    case Branch => f.(branch := value)
    case Target => f.(target := value)
    case SourceIssue => f.(sourceIssue := value)
    case Worker => f.(worker := value)
    case Rig => f.(rig := value)
    case MergeCommit => f.(mergeCommit := value)
    case CloseReason => f.(closeReason := value)
    case AgentBead => f.(agentBead := value)
    case RetryCount => f.(retryCount := Count(value))
    case LastConflictSHA => f.(lastConflictSHA := value)
    case ConflictTask => f.(conflictTaskID := value)
    case MRConvoy => f.(convoyID := value)
    case ConvoyCreated => f.(convoyCreatedAt := value)
  }

  lemma AssignMRStep(m: map<MRSlot, string>, s: MRSlot, value: string)
    ensures MROf(m[s := value]) == AssignMR(MROf(m), s, value)
  {
  }

  method ParseMRFields(description: string) returns (r: Option<MRFields>)
    ensures r == ParsedMR(description)
  {
    var lines := Split(description, '\n');
    var fields, hasFields := NO_MR, false;
    assert MROf(map[]) == NO_MR;
    hide MROf, AssignMR, ReadWith, MRKey, SetsMR, Split;
    for i := 0 to |lines|
      invariant fields == MROf(MR.Collect(lines[..i]))
      invariant hasFields <==> MR.Collect(lines[..i]) != map[]
    {
      var slot, value := ReadLine(MRKey, SetsMR, lines[i]);
      MR.CollectStep(lines, i, slot, value);
      if slot.Some? {
        AssignMRStep(MR.Collect(lines[..i]), slot.value, value);
        fields := AssignMR(fields, slot.value, value);
        hasFields := true;
        assert slot.value in MR.Collect(lines[..i + 1]);
      }
    }
    assert lines[..|lines|] == lines;
    r := if hasFields then Some(fields) else None;
  }

  const MR_ORDER: seq<MRSlot> :=
    [Branch, Target, SourceIssue, Worker, Rig, MergeCommit, CloseReason, AgentBead, RetryCount, LastConflictSHA,
     ConflictTask, MRConvoy, ConvoyCreated]

  function MRValue(f: MRFields, s: MRSlot): string {
    match s
    case Branch => f.branch
    case Target => f.target
    case SourceIssue => f.sourceIssue
    case Worker => f.worker
    case Rig => f.rig
    case MergeCommit => f.mergeCommit
    case CloseReason => f.closeReason
    case AgentBead => f.agentBead
    case RetryCount => if f.retryCount > 0 then Itoa(f.retryCount) else ""
    case LastConflictSHA => f.lastConflictSHA
    case ConflictTask => f.conflictTaskID
    case MRConvoy => f.convoyID
    case ConvoyCreated => f.convoyCreatedAt
  }

  function MRTexts(f: MRFields): MRSlot -> string {
    s => if MRValue(f, s) == "" then "" else FieldLine(MRName(s), MRValue(f, s))
  }

  function MRLines(fields: Option<MRFields>): seq<string> {
    if fields.None? then [] else SlotLines(MR_ORDER, MRTexts(fields.value))
  }

  lemma MRLinesWritten(f: MRFields)
    ensures SlotLines(MR_ORDER, MRTexts(f)) ==
      OptField("branch", f.branch) + OptField("target", f.target) + OptField("source_issue", f.sourceIssue)
      + OptField("worker", f.worker) + OptField("rig", f.rig) + OptField("merge_commit", f.mergeCommit)
      + OptField("close_reason", f.closeReason) + OptField("agent_bead", f.agentBead)
      + OptField("retry_count", if f.retryCount > 0 then Itoa(f.retryCount) else "")
      + OptField("last_conflict_sha", f.lastConflictSHA) + OptField("conflict_task_id", f.conflictTaskID)
      + OptField("convoy_id", f.convoyID) + OptField("convoy_created_at", f.convoyCreatedAt)
  {
    hide SlotLines, Lines, OptField, Itoa, MRTexts;
    SlotLines13(MR_ORDER, MRTexts(f));
    assert MR_ORDER[..13] == MR_ORDER;
    MRLineAt(f, 0, Branch);
    MRLineAt(f, 1, Target);
    MRLineAt(f, 2, SourceIssue);
    MRLineAt(f, 3, Worker);
    MRLineAt(f, 4, Rig);
    MRLineAt(f, 5, MergeCommit);
    MRLineAt(f, 6, CloseReason);
    MRLineAt(f, 7, AgentBead);
    MRLineAt(f, 8, RetryCount);
    MRLineAt(f, 9, LastConflictSHA);
    MRLineAt(f, 10, ConflictTask);
    MRLineAt(f, 11, MRConvoy);
    MRLineAt(f, 12, ConvoyCreated);
  }

  lemma MRLineAt(f: MRFields, i: nat, s: MRSlot)
    requires i < 13 && MR_ORDER[i] == s
    ensures Lines(MR_ORDER, MRTexts(f), i) == OptField(MRName(s), MRValue(f, s))
  {
  }

  method FormatMRFields(fields: Option<MRFields>) returns (text: string)
    ensures text == Join(MRLines(fields), '\n')
  {
    if fields.None? {
      return "";
    }
    var f := fields.value;
    var lines := OptField("branch", f.branch);
    lines := lines + OptField("target", f.target);
    lines := lines + OptField("source_issue", f.sourceIssue);
    lines := lines + OptField("worker", f.worker);
    lines := lines + OptField("rig", f.rig);
    lines := lines + OptField("merge_commit", f.mergeCommit);
    lines := lines + OptField("close_reason", f.closeReason);
    lines := lines + OptField("agent_bead", f.agentBead);
    lines := lines + if f.retryCount > 0 then [FieldLine("retry_count", Itoa(f.retryCount))] else [];
    lines := lines + OptField("last_conflict_sha", f.lastConflictSHA);
    lines := lines + OptField("conflict_task_id", f.conflictTaskID);
    lines := lines + OptField("convoy_id", f.convoyID);
    lines := lines + OptField("convoy_created_at", f.convoyCreatedAt);
    MRLinesWritten(f);
    text := Join(lines, '\n');
  }

  function SetMR(description: string, fields: Option<MRFields>): string {
    MR.Put(MRLines(fields), MR.Content(description))
  }

  method SetMRFields(issue: Option<string>, fields: Option<MRFields>) returns (text: string)
    ensures text == SetMR(if issue.None? then "" else issue.value, fields)
  {
    var formatted := FormatMRFields(fields);
    if issue.None? {
      return formatted;
    }
    var otherLines := MR.OtherContent(issue.value);
    if fields.Some? {
      SlotLinesMembers(MR_ORDER, MRTexts(fields.value));
    }
    text := MR.Assemble(MRLines(fields), otherLines, formatted);
  }

  // ---------- Laws ----------

  lemma MRSound()
    ensures MR.Sound()
  {
    assert Blank("");
    forall line | Blank(line) ensures !OwnsMR(line) { ReadBlankLine(MRKey, SetsMR, line); }
  }

  predicate CleanMR(f: MRFields) {
    && Clean(f.branch) && Clean(f.target) && Clean(f.sourceIssue) && Clean(f.worker) && Clean(f.rig)
    && Clean(f.mergeCommit) && Clean(f.closeReason) && Clean(f.agentBead) && 0 <= f.retryCount <= MAX_INT64
    && Clean(f.lastConflictSHA) && Clean(f.conflictTaskID) && Clean(f.convoyID) && Clean(f.convoyCreatedAt)
  }

  predicate OneLineMR(f: MRFields) {
    forall s: MRSlot :: '\n' !in MRValue(f, s)
  }

  lemma MRTextReads(f: MRFields, s: MRSlot)
    ensures var v := Trim(MRValue(f, s));
      ReadMR(MRTexts(f)(s)) == if SetsMR(s, v) then map[s := v] else map[]
    ensures MRTexts(f)(s) != "" ==> OwnsMR(MRTexts(f)(s))
    ensures '\n' !in MRValue(f, s) ==> '\n' !in MRTexts(f)(s)
  {
    if MRValue(f, s) == "" {
      ReadBlankLine(MRKey, SetsMR, "");
    } else {
      MRNamesPlain(s);
      MRNamesRead(s);
      ReadFieldLine(MRKey, SetsMR, MRName(s), Some(s), MRValue(f, s));
    }
  }

  /** A count that fits prints as a number that scans. */
  lemma ValuesSet(f: MRFields, s: MRSlot)
    requires f.retryCount <= MAX_INT64
    ensures SetsMR(s, Trim(MRValue(f, s))) <==> Trim(MRValue(f, s)) != ""
  {
    if s == RetryCount && f.retryCount > 0 {
      CleanNumber(f.retryCount);
      ScanItoa(f.retryCount);
    }
  }

  lemma CleanNumber(n: nat)
    ensures Clean(Itoa(n)) && Trim(Itoa(n)) == Itoa(n)
  {
    TrimFixed(Itoa(n));
  }

  lemma MRLinesOwned(fields: Option<MRFields>)
    requires fields.Some? ==> OneLineMR(fields.value)
    ensures forall line <- MRLines(fields) :: '\n' !in line && OwnsMR(line)
  {
    if fields.Some? {
      SlotLinesMembers(MR_ORDER, MRTexts(fields.value));
      forall line | line in MRLines(fields) ensures '\n' !in line && OwnsMR(line) {
        var s :| s in MR_ORDER && MRTexts(fields.value)(s) == line;
        MRTextReads(fields.value, s);
      }
    }
  }

  lemma AllMRSlots(s: MRSlot)
    ensures s in MR_ORDER
  {
    var o := MR_ORDER;
    assert o[0] == Branch && o[1] == Target && o[2] == SourceIssue && o[3] == Worker && o[4] == Rig && o[5] == MergeCommit
      && o[6] == CloseReason && o[7] == AgentBead && o[8] == RetryCount && o[9] == LastConflictSHA
      && o[10] == ConflictTask && o[11] == MRConvoy && o[12] == ConvoyCreated;
  }

  lemma MRLinesRead(f: MRFields)
    requires f.retryCount <= MAX_INT64
    ensures var m := MR.Collect(MRLines(Some(f)));
      forall s: MRSlot :: Get(m, s) == Trim(MRValue(f, s)) && (s in m ==> m[s] != "")
  {
    MRSound();
    var text := MRTexts(f);
    forall s | s in MR_ORDER ensures ReadMR(text(s)).Keys <= {s} { MRTextReads(f, s); }
    MR.CollectSlots(MR_ORDER, text);
    var m := MR.Collect(MRLines(Some(f)));
    forall s: MRSlot ensures Get(m, s) == Trim(MRValue(f, s)) && (s in m ==> m[s] != "") {
      MRTextReads(f, s);
      ValuesSet(f, s);
      assert s in MR_ORDER by { AllMRSlots(s); }
      if s in m { assert m[s] == ReadMR(text(s))[s]; }
    }
  }

  lemma CollectedMRClean(lines: seq<string>)
    requires forall line <- lines :: '\n' !in line
    ensures forall s <- MR.Collect(lines) :: Clean(MR.Collect(lines)[s])
  {
    forall line | line in lines ensures forall s <- ReadMR(line) :: Clean(ReadMR(line)[s]) {
      ReadIsClean(MRKey, SetsMR, line);
    }
    MR.CollectClean(lines);
  }

  lemma MRFromSlots(m: map<MRSlot, string>, f: MRFields)
    requires 0 <= f.retryCount <= MAX_INT64
    requires forall s: MRSlot :: Get(m, s) == MRValue(f, s)
    ensures MROf(m) == f
  {
    assert Get(m, Branch) == f.branch && Get(m, Target) == f.target && Get(m, SourceIssue) == f.sourceIssue;
    assert Get(m, Worker) == f.worker && Get(m, Rig) == f.rig && Get(m, MergeCommit) == f.mergeCommit;
    assert Get(m, CloseReason) == f.closeReason && Get(m, AgentBead) == f.agentBead;
    assert Get(m, LastConflictSHA) == f.lastConflictSHA && Get(m, ConflictTask) == f.conflictTaskID;
    assert Get(m, MRConvoy) == f.convoyID && Get(m, ConvoyCreated) == f.convoyCreatedAt;
    assert Get(m, RetryCount) == MRValue(f, RetryCount);
    CountReads(f.retryCount);
  }

  lemma CountReads(n: int)
    requires 0 <= n <= MAX_INT64
    ensures Count(if n > 0 then Itoa(n) else "") == n
  {
    ScanItoa(n);
  }

  lemma CleanMRValues(f: MRFields)
    requires CleanMR(f)
    ensures OneLineMR(f) && forall s: MRSlot :: Trim(MRValue(f, s)) == MRValue(f, s)
  {
    forall s: MRSlot ensures '\n' !in MRValue(f, s) && Trim(MRValue(f, s)) == MRValue(f, s) {
      if s == RetryCount && f.retryCount > 0 { CleanNumber(f.retryCount); }
      TrimFixed(MRValue(f, s));
    }
  }

  lemma MRLinesParse(f: MRFields)
    requires CleanMR(f)
    ensures var m := MR.Collect(MRLines(Some(f))); MROf(m) == f && (m == map[] <==> f == NO_MR)
  {
    CleanMRValues(f);
    MRLinesRead(f);
    var m := MR.Collect(MRLines(Some(f)));
    assert MROf(m) == f by { MRFromSlots(m, f); }
    MREmptiness(m, f);
  }

  lemma MREmptiness(m: map<MRSlot, string>, f: MRFields)
    requires forall s: MRSlot :: Get(m, s) == MRValue(f, s) && (s in m ==> m[s] != "")
    requires f.retryCount >= 0
    ensures m == map[] <==> f == NO_MR
  {
    if f == NO_MR {
      forall s: MRSlot ensures s !in m { assert Get(m, s) == MRValue(f, s) == ""; }
      assert m == map[];
    }
    if m == map[] {
      forall s: MRSlot ensures MRValue(f, s) == "" { assert Get(m, s) == ""; }
      assert MRValue(f, Branch) == MRValue(f, Target) == MRValue(f, SourceIssue) == MRValue(f, Worker) == MRValue(f, Rig)
        == MRValue(f, MergeCommit) == MRValue(f, CloseReason) == MRValue(f, AgentBead) == MRValue(f, RetryCount)
        == MRValue(f, LastConflictSHA) == MRValue(f, ConflictTask) == MRValue(f, MRConvoy)
        == MRValue(f, ConvoyCreated) == "";
    }
  }

  /** Put-get, exactly: what is set parses back if and only if the record is not empty, its values are trimmed lines,
      and its count is not negative and fits 64 bits. */
  lemma MRPutGet(d: string, f: MRFields)
    ensures ParsedMR(SetMR(d, Some(f))) == Some(f) <==> CleanMR(f) && f != NO_MR
  {
    if CleanMR(f) {
      CleanMRValues(f);
      OneLineCollects(d, f);
      MRLinesParse(f);
    } else if ParsedMR(SetMR(d, Some(f))) == Some(f) {
      ParsedMRIsClean(d, f);
    }
  }

  /** What parses back had clean values all along; a negative count is not written, so it does not come back. */
  lemma ParsedMRIsClean(d: string, f: MRFields)
    requires ParsedMR(SetMR(d, Some(f))) == Some(f)
    ensures CleanMR(f)
  {
    CollectedMRClean(Split(SetMR(d, Some(f)), '\n'));
    CleanFieldsOf(MR.Collect(Split(SetMR(d, Some(f)), '\n')));
    if f.retryCount < 0 {
      hide MROf;
      NegativeOneLine(f);
      OneLineCollects(d, f);
      NegativeCountLost(f);
    }
  }

  lemma NegativeOneLine(f: MRFields)
    requires f.retryCount < 0 && CleanMR(f.(retryCount := 0))
    ensures OneLineMR(f)
  {
    CleanMRValues(f.(retryCount := 0));
    assert forall s: MRSlot :: MRValue(f, s) == MRValue(f.(retryCount := 0), s);
  }

  lemma OneLineCollects(d: string, f: MRFields)
    requires OneLineMR(f)
    ensures MR.Collect(Split(SetMR(d, Some(f)), '\n')) == MR.Collect(MRLines(Some(f)))
  {
    MRSound();
    MR.ContentSettled(d);
    MRLinesOwned(Some(f));
    SpreadOneLine(MRLines(Some(f)));
    MR.PutGet(MRLines(Some(f)), MR.Content(d));
  }

  lemma NegativeCountLost(f: MRFields)
    requires f.retryCount < 0
    ensures MROf(MR.Collect(MRLines(Some(f)))).retryCount == 0
  {
    NegativeCountRead(f);
    CountOfNothing(MR.Collect(MRLines(Some(f))));
    hide *;
  }

  lemma NegativeCountRead(f: MRFields)
    requires f.retryCount < 0
    ensures Get(MR.Collect(MRLines(Some(f))), RetryCount) == ""
  {
    MRLinesRead(f);
    assert MRValue(f, RetryCount) == "";
  }

  lemma CountOfNothing(m: map<MRSlot, string>)
    requires Get(m, RetryCount) == ""
    ensures MROf(m).retryCount == 0
  {
  }

  lemma CleanFieldsOf(m: map<MRSlot, string>)
    requires forall s <- m :: Clean(m[s])
    ensures CleanMR(MROf(m).(retryCount := 0)) && -MAX_INT64 - 1 <= MROf(m).retryCount <= MAX_INT64
  {
    forall s: MRSlot ensures Clean(Get(m, s)) {}
  }

  /** Every line of a value after its first is a merge-request line itself, or blank. */
  ghost predicate ContainedMR(f: MRFields) {
    forall s: MRSlot :: MR.TailTaken(MRValue(f, s))
  }

  lemma MRFieldOwned(s: MRSlot)
    ensures '\n' !in MRName(s) && forall v: string :: OwnsMR(FieldLine(MRName(s), v))
  {
    MRNamesPlain(s);
    MRNamesRead(s);
    hide MRName, MRKey;
    forall v: string ensures OwnsMR(FieldLine(MRName(s), v)) {
      ReadFieldLine(MRKey, SetsMR, MRName(s), Some(s), v);
    }
  }

  lemma MRContainedSlots(f: MRFields)
    ensures MR.Contained(SlotLines(MR_ORDER, MRTexts(f))) <==> forall s <- MR_ORDER :: MR.TailTaken(MRValue(f, s))
  {
    forall s: MRSlot ensures '\n' !in MRName(s) && forall v: string :: MR.owns(FieldLine(MRName(s), v)) {
      MRFieldOwned(s);
    }
    hide MRName, MRValue, FieldLine, SlotLines, Lens.Contained, Lens.TailTaken;
    MR.RecordContained(MR_ORDER, MRTexts(f), MRName, (s: MRSlot) => MRValue(f, s));
  }

  lemma MRContained(fields: Option<MRFields>)
    ensures MR.Contained(MRLines(fields)) <==> (fields.Some? ==> ContainedMR(fields.value))
  {
    if fields.Some? {
      MRContainedSlots(fields.value);
      forall s: MRSlot ensures s in MR_ORDER { AllMRSlots(s); }
      hide SlotLines, Lens.Contained, Lens.TailTaken, MRValue;
    }
  }

  /** Setting a record leaves everything else in place exactly when every line of a value after its first is a
      merge-request line too, or blank. */
  lemma MRKeepsContent(d: string, fields: Option<MRFields>)
    ensures MR.Content(SetMR(d, fields)) == MR.Content(d) <==> (fields.Some? ==> ContainedMR(fields.value))
  {
    MRSound();
    MR.ContentSettled(d);
    MRContained(fields);
    MR.PutContent(MRLines(fields), MR.Content(d));
  }

  /** Put-put, as exact strings, under the same condition. */
  lemma MRPutPut(d: string, f1: Option<MRFields>, f2: Option<MRFields>)
    ensures SetMR(SetMR(d, f1), f2) == SetMR(d, f2) <==> (f1.Some? ==> ContainedMR(f1.value))
  {
    MRSound();
    MRContained(f1);
    MR.PutPut(MRLines(f1), MRLines(f2), d);
  }
}
