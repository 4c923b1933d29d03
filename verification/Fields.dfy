/** The attachment record stored in issue descriptions.  (internal/beads/fields.go) */
module Fields {
  import opened Text
  import opened KeyLines
  import opened FieldKeys

  datatype AttachmentFields = AttachmentFields(
    attachedMolecule: string, attachedAt: string, attachedArgs: string, dispatchedBy: string, noMerge: bool,
    mode: string, convoyID: string, mergeStrategy: string)

  const NO_ATTACHMENT := AttachmentFields("", "", "", "", false, "", "", "")

  /** A line with a known key and a non-empty value sets that field. */
  function ReadAttachment(line: string): map<AttachmentSlot, string> {
    ReadWith(AttachmentKey, SetsAttachment, line)
  }

  predicate SetsAttachment(s: AttachmentSlot, value: string) {
    value != ""
  }

  predicate OwnsAttachment(line: string) {
    OwnedBy(AttachmentKey, line)
  }

  const ATTACHMENT := Lens(ReadAttachment, OwnsAttachment, Blank)

  function AttachmentOf(m: map<AttachmentSlot, string>): AttachmentFields {
    AttachmentFields(Get(m, Molecule), Get(m, At), Get(m, Args), Get(m, By), Lower(Get(m, NoMerge)) == "true",
                     Get(m, Mode), Get(m, Convoy), Get(m, Strategy))
  }

  /** The record a text holds, none when no attachment line sets a field. */
  function ParsedAttachment(description: string): Option<AttachmentFields> {
    var m := ATTACHMENT.Collect(Split(description, '\n'));
    if m == map[] then None else Some(AttachmentOf(m))
  }

  /** The switch on the key. */
  function AssignAttachment(f: AttachmentFields, s: AttachmentSlot, value: string): AttachmentFields {
    match s
    case Molecule => f.(attachedMolecule := value)
    case At => f.(attachedAt := value)
    case Args => f.(attachedArgs := value)
    case By => f.(dispatchedBy := value)
    case NoMerge => f.(noMerge := Lower(value) == "true")
    case Mode => f.(mode := value)
    case Convoy => f.(convoyID := value)
    case Strategy => f.(mergeStrategy := value)
  }

  lemma AssignAttachmentStep(m: map<AttachmentSlot, string>, s: AttachmentSlot, value: string)
    ensures AttachmentOf(m[s := value]) == AssignAttachment(AttachmentOf(m), s, value)
  {
  }

  method ParseAttachmentFields(description: string) returns (r: Option<AttachmentFields>)
    ensures r == ParsedAttachment(description)
  {
    var lines := Split(description, '\n');
    var fields, hasFields := NO_ATTACHMENT, false;
    for i := 0 to |lines|
      invariant fields == AttachmentOf(ATTACHMENT.Collect(lines[..i]))
      invariant hasFields <==> ATTACHMENT.Collect(lines[..i]) != map[]
    {
      var slot, value := ReadLine(AttachmentKey, SetsAttachment, lines[i]);
      ATTACHMENT.CollectStep(lines, i, slot, value);
      if slot.Some? {
        AssignAttachmentStep(ATTACHMENT.Collect(lines[..i]), slot.value, value);
        fields := AssignAttachment(fields, slot.value, value);
        hasFields := true;
        assert slot.value in ATTACHMENT.Collect(lines[..i + 1]);
      }
    }
    assert lines[..|lines|] == lines;
    r := if hasFields then Some(fields) else None;
  }

  const ATTACHMENT_ORDER: seq<AttachmentSlot> := [Molecule, At, Args, By, NoMerge, Mode, Convoy, Strategy]

  function AttachmentValue(f: AttachmentFields, s: AttachmentSlot): string {
    match s
    case Molecule => f.attachedMolecule
    case At => f.attachedAt
    case Args => f.attachedArgs
    case By => f.dispatchedBy
    case NoMerge => if f.noMerge then "true" else ""
    case Mode => f.mode
    case Convoy => f.convoyID
    case Strategy => f.mergeStrategy
  }

  function AttachmentTexts(f: AttachmentFields): AttachmentSlot -> string {
    s => if AttachmentValue(f, s) == "" then "" else FieldLine(AttachmentName(s), AttachmentValue(f, s))
  }

  /** The record's lines: the non-empty fields in a fixed order. */
  function AttachmentLines(fields: Option<AttachmentFields>): seq<string> {
    if fields.None? then [] else SlotLines(ATTACHMENT_ORDER, AttachmentTexts(fields.value))
  }

  /** A field's line, if the field is set. */
  function OptField(key: string, value: string): seq<string> {
    if value == "" then [] else [FieldLine(key, value)]
  }

  lemma AttachmentLinesWritten(f: AttachmentFields)
    ensures SlotLines(ATTACHMENT_ORDER, AttachmentTexts(f)) ==
      OptField("attached_molecule", f.attachedMolecule) + OptField("attached_at", f.attachedAt)
      + OptField("attached_args", f.attachedArgs) + OptField("dispatched_by", f.dispatchedBy)
      + OptField("no_merge", if f.noMerge then "true" else "") + OptField("mode", f.mode)
      + OptField("convoy_id", f.convoyID) + OptField("merge_strategy", f.mergeStrategy)
  {
    SlotLines8(ATTACHMENT_ORDER, AttachmentTexts(f));
    assert ATTACHMENT_ORDER[..8] == ATTACHMENT_ORDER;
    forall i | 0 <= i < 8 ensures Lines(ATTACHMENT_ORDER, AttachmentTexts(f), i)
      == OptField(AttachmentName(ATTACHMENT_ORDER[i]), AttachmentValue(f, ATTACHMENT_ORDER[i])) {
      AttachmentNamesPlain(ATTACHMENT_ORDER[i]);
    }
  }

  method FormatAttachmentFields(fields: Option<AttachmentFields>) returns (text: string)
    ensures text == Join(AttachmentLines(fields), '\n')
  {
    if fields.None? {
      return "";
    }
    var f := fields.value;
    var lines := OptField("attached_molecule", f.attachedMolecule);
    lines := lines + OptField("attached_at", f.attachedAt);
    lines := lines + OptField("attached_args", f.attachedArgs);
    lines := lines + OptField("dispatched_by", f.dispatchedBy);
    lines := lines + if f.noMerge then [FieldLine("no_merge", "true")] else [];
    lines := lines + OptField("mode", f.mode);
    lines := lines + OptField("convoy_id", f.convoyID);
    lines := lines + OptField("merge_strategy", f.mergeStrategy);
    AttachmentLinesWritten(f);
    text := Join(lines, '\n');
  }

  /** The new description: the record's lines, then everything that was not the record's. */
  function SetAttachment(description: string, fields: Option<AttachmentFields>): string {
    ATTACHMENT.Put(AttachmentLines(fields), ATTACHMENT.Content(description))
  }

  method SetAttachmentFields(issue: Option<string>, fields: Option<AttachmentFields>) returns (text: string)
    ensures text == SetAttachment(if issue.None? then "" else issue.value, fields)
  {
    var otherLines: seq<string> := [];
    if issue.Some? {
      otherLines := ATTACHMENT.OtherContent(issue.value);
    }
    var formatted := FormatAttachmentFields(fields);
    if fields.Some? {
      SlotLinesMembers(ATTACHMENT_ORDER, AttachmentTexts(fields.value));
    }
    text := ATTACHMENT.Assemble(AttachmentLines(fields), otherLines, formatted);
  }

  // ---------- Laws of the attachment record ----------

  lemma AttachmentSound()
    ensures ATTACHMENT.Sound()
  {
    assert Blank("");
    forall line | Blank(line) ensures !OwnsAttachment(line) { ReadBlankLine(AttachmentKey, SetsAttachment, line); }
  }

  predicate CleanAttachment(f: AttachmentFields) {
    && Clean(f.attachedMolecule) && Clean(f.attachedAt) && Clean(f.attachedArgs) && Clean(f.dispatchedBy)
    && Clean(f.mode) && Clean(f.convoyID) && Clean(f.mergeStrategy)
  }

  /** No value spans lines. */
  predicate OneLineAttachment(f: AttachmentFields) {
    forall s: AttachmentSlot :: '\n' !in AttachmentValue(f, s)
  }

  lemma AttachmentTextReads(f: AttachmentFields, s: AttachmentSlot)
    ensures var v := Trim(AttachmentValue(f, s));
      ReadAttachment(AttachmentTexts(f)(s)) == if v == "" then map[] else map[s := v]
    ensures AttachmentTexts(f)(s) != "" ==> OwnsAttachment(AttachmentTexts(f)(s))
    ensures '\n' !in AttachmentValue(f, s) ==> '\n' !in AttachmentTexts(f)(s)
  {
    if AttachmentValue(f, s) == "" {
      ReadBlankLine(AttachmentKey, SetsAttachment, "");
    } else {
      AttachmentNamesPlain(s);
      AttachmentNamesRead(s);
      ReadFieldLine(AttachmentKey, SetsAttachment, AttachmentName(s), Some(s), AttachmentValue(f, s));
    }
  }

  lemma AttachmentLinesOwned(fields: Option<AttachmentFields>)
    requires fields.Some? ==> OneLineAttachment(fields.value)
    ensures forall line <- AttachmentLines(fields) :: '\n' !in line && OwnsAttachment(line)
  {
    if fields.Some? {
      SlotLinesMembers(ATTACHMENT_ORDER, AttachmentTexts(fields.value));
      forall line | line in AttachmentLines(fields) ensures '\n' !in line && OwnsAttachment(line) {
        var s :| s in ATTACHMENT_ORDER && AttachmentTexts(fields.value)(s) == line;
        AttachmentTextReads(fields.value, s);
      }
    }
  }

  /** The lines of a record read back as the trimmed values. */
  lemma AttachmentLinesRead(f: AttachmentFields)
    ensures var m := ATTACHMENT.Collect(AttachmentLines(Some(f)));
      forall s: AttachmentSlot :: Get(m, s) == Trim(AttachmentValue(f, s)) && (s in m ==> m[s] != "")
  {
    AttachmentSound();
    var text := AttachmentTexts(f);
    forall s | s in ATTACHMENT_ORDER ensures ReadAttachment(text(s)).Keys <= {s} { AttachmentTextReads(f, s); }
    ATTACHMENT.CollectSlots(ATTACHMENT_ORDER, text);
    var m := ATTACHMENT.Collect(AttachmentLines(Some(f)));
    forall s: AttachmentSlot ensures Get(m, s) == Trim(AttachmentValue(f, s)) && (s in m ==> m[s] != "") {
      AttachmentTextReads(f, s);
      assert s in ATTACHMENT_ORDER by { AllAttachmentSlots(s); }
      if s in m { assert m[s] == ReadAttachment(text(s))[s]; }
    }
  }

  lemma AllAttachmentSlots(s: AttachmentSlot)
    ensures s in ATTACHMENT_ORDER
  {
    var o := ATTACHMENT_ORDER;
    assert o[0] == Molecule && o[1] == At && o[2] == Args && o[3] == By && o[4] == NoMerge && o[5] == Mode
      && o[6] == Convoy && o[7] == Strategy;
  }

  /** Whatever the text, parsed values are clean. */
  lemma CollectedAttachmentClean(lines: seq<string>)
    requires forall line <- lines :: '\n' !in line
    ensures forall s <- ATTACHMENT.Collect(lines) :: Clean(ATTACHMENT.Collect(lines)[s])
  {
    forall line | line in lines ensures forall s <- ReadAttachment(line) :: Clean(ReadAttachment(line)[s]) {
      ReadIsClean(AttachmentKey, SetsAttachment, line);
    }
    ATTACHMENT.CollectClean(lines);
  }

  lemma ParsedAttachmentClean(description: string)
    ensures ParsedAttachment(description).Some? ==> CleanAttachment(ParsedAttachment(description).value)
  {
    CollectedAttachmentClean(Split(description, '\n'));
  }

  /** The record a map of clean values stands for, slot by slot. */
  lemma AttachmentFromSlots(m: map<AttachmentSlot, string>, f: AttachmentFields)
    requires forall s: AttachmentSlot :: Get(m, s) == AttachmentValue(f, s)
    ensures AttachmentOf(m) == f
  {
    assert Get(m, Molecule) == f.attachedMolecule && Get(m, At) == f.attachedAt && Get(m, Args) == f.attachedArgs;
    assert Get(m, By) == f.dispatchedBy && Get(m, Mode) == f.mode && Get(m, Convoy) == f.convoyID;
    assert Get(m, Strategy) == f.mergeStrategy;
    assert Get(m, NoMerge) == if f.noMerge then "true" else "";
    LowerFixed("true");
  }

  lemma CleanValues(f: AttachmentFields)
    requires CleanAttachment(f)
    ensures OneLineAttachment(f) && forall s: AttachmentSlot :: Trim(AttachmentValue(f, s)) == AttachmentValue(f, s)
  {
    forall s: AttachmentSlot
      ensures '\n' !in AttachmentValue(f, s) && Trim(AttachmentValue(f, s)) == AttachmentValue(f, s)
    {
      if s == NoMerge { assert Clean("true"); }
      TrimFixed(AttachmentValue(f, s));
    }
  }

  /** The record's own lines parse back to it. */
  lemma AttachmentLinesParse(f: AttachmentFields)
    requires CleanAttachment(f)
    ensures var m := ATTACHMENT.Collect(AttachmentLines(Some(f)));
      AttachmentOf(m) == f && (m == map[] <==> f == NO_ATTACHMENT)
  {
    CleanValues(f);
    AttachmentLinesRead(f);
    var m := ATTACHMENT.Collect(AttachmentLines(Some(f)));
    AttachmentFromSlots(m, f);
    AttachmentEmptiness(m, f);
  }

  lemma AttachmentEmptiness(m: map<AttachmentSlot, string>, f: AttachmentFields)
    requires forall s: AttachmentSlot :: Get(m, s) == AttachmentValue(f, s) && (s in m ==> m[s] != "")
    ensures m == map[] <==> f == NO_ATTACHMENT
  {
    if f == NO_ATTACHMENT {
      forall s: AttachmentSlot ensures s !in m { assert Get(m, s) == AttachmentValue(f, s) == ""; }
      assert m == map[];
    }
    if m == map[] {
      AttachmentFromSlots(m, f);
      assert AttachmentOf(map[]) == NO_ATTACHMENT;
    }
  }

  /** Put-get, exactly: what is set parses back if and only if it is a non-empty record of trimmed one-line values. */
  lemma AttachmentPutGet(d: string, f: AttachmentFields)
    ensures ParsedAttachment(SetAttachment(d, Some(f))) == Some(f) <==> CleanAttachment(f) && f != NO_ATTACHMENT
  {
    AttachmentSound();
    ATTACHMENT.ContentSettled(d);
    ParsedAttachmentClean(SetAttachment(d, Some(f)));
    if CleanAttachment(f) {
      CleanValues(f);
      AttachmentLinesOwned(Some(f));
      SpreadOneLine(AttachmentLines(Some(f)));
      ATTACHMENT.PutGet(AttachmentLines(Some(f)), ATTACHMENT.Content(d));
      AttachmentLinesParse(f);
    }
  }

  /** Every line of a value after its first is an attachment line itself, or blank. */
  ghost predicate ContainedAttachment(f: AttachmentFields) {
    forall s: AttachmentSlot :: ATTACHMENT.TailTaken(AttachmentValue(f, s))
  }

  lemma AttachmentFieldOwned(s: AttachmentSlot)
    ensures '\n' !in AttachmentName(s) && forall v: string :: OwnsAttachment(FieldLine(AttachmentName(s), v))
  {
    AttachmentNamesPlain(s);
    AttachmentNamesRead(s);
    hide AttachmentName, AttachmentKey;
    forall v: string ensures OwnsAttachment(FieldLine(AttachmentName(s), v)) {
      ReadFieldLine(AttachmentKey, SetsAttachment, AttachmentName(s), Some(s), v);
    }
  }

  lemma AttachmentContainedSlots(f: AttachmentFields)
    ensures ATTACHMENT.Contained(SlotLines(ATTACHMENT_ORDER, AttachmentTexts(f))) <==> forall s <- ATTACHMENT_ORDER :: ATTACHMENT.TailTaken(AttachmentValue(f, s))
  {
    forall s: AttachmentSlot ensures '\n' !in AttachmentName(s) && forall v: string :: ATTACHMENT.owns(FieldLine(AttachmentName(s), v)) {
      AttachmentFieldOwned(s);
    }
    hide AttachmentName, AttachmentValue, FieldLine, SlotLines, Lens.Contained, Lens.TailTaken;
    ATTACHMENT.RecordContained(ATTACHMENT_ORDER, AttachmentTexts(f), AttachmentName, (s: AttachmentSlot) => AttachmentValue(f, s));
  }

  lemma AttachmentContained(fields: Option<AttachmentFields>)
    ensures ATTACHMENT.Contained(AttachmentLines(fields)) <==> (fields.Some? ==> ContainedAttachment(fields.value))
  {
    if fields.Some? {
      AttachmentContainedSlots(fields.value);
      forall s: AttachmentSlot ensures s in ATTACHMENT_ORDER { AllAttachmentSlots(s); }
      hide SlotLines, Lens.Contained, Lens.TailTaken, AttachmentValue;
    }
  }

  lemma OneLineContained(f: AttachmentFields)
    requires OneLineAttachment(f)
    ensures ContainedAttachment(f)
  {
    forall s: AttachmentSlot ensures ATTACHMENT.TailTaken(AttachmentValue(f, s)) {
      SplitWhole(AttachmentValue(f, s), '\n');
    }
  }

  /** Setting a record leaves everything else in place exactly when every line of a value after its first is an
      attachment line too, or blank. */
  lemma AttachmentKeepsContent(d: string, fields: Option<AttachmentFields>)
    ensures ATTACHMENT.Content(SetAttachment(d, fields)) == ATTACHMENT.Content(d)
      <==> (fields.Some? ==> ContainedAttachment(fields.value))
  {
    AttachmentSound();
    ATTACHMENT.ContentSettled(d);
    AttachmentContained(fields);
    ATTACHMENT.PutContent(AttachmentLines(fields), ATTACHMENT.Content(d));
  }

  /** What does not keep the content adds to it. */
  lemma AttachmentStrays(d: string, fields: Option<AttachmentFields>)
    ensures ATTACHMENT.Strays(ATTACHMENT.Content(SetAttachment(d, fields))) >= ATTACHMENT.Strays(ATTACHMENT.Content(d))
    ensures fields.Some? && !ContainedAttachment(fields.value) ==>
      ATTACHMENT.Strays(ATTACHMENT.Content(SetAttachment(d, fields))) > ATTACHMENT.Strays(ATTACHMENT.Content(d))
  {
    AttachmentSound();
    ATTACHMENT.ContentSettled(d);
    AttachmentContained(fields);
    ATTACHMENT.PutContent(AttachmentLines(fields), ATTACHMENT.Content(d));
    ATTACHMENT.NoStrays(Spread(AttachmentLines(fields)));
    hide Lens.Content, Lens.Strays, Lens.Stray, Lens.Put, AttachmentLines, Split, Join;
  }

  /** Two texts look alike after a set exactly when their contents are the same. */
  lemma SameAfterSet(d1: string, d2: string, fields: Option<AttachmentFields>)
    ensures SetAttachment(d1, fields) == SetAttachment(d2, fields) <==> ATTACHMENT.Content(d1) == ATTACHMENT.Content(d2)
  {
    AttachmentSound();
    ATTACHMENT.ContentSettled(d1);
    ATTACHMENT.ContentSettled(d2);
    hide Lens.Content, Lens.Put, Lens.Sound, Lens.Settled, AttachmentLines;
    if SetAttachment(d1, fields) == SetAttachment(d2, fields) {
      ATTACHMENT.PutInjective(AttachmentLines(fields), ATTACHMENT.Content(d1), ATTACHMENT.Content(d2));
    }
  }

  /** Put-put, as exact strings: the later record replaces the earlier one completely under the same condition. */
  lemma AttachmentPutPut(d: string, f1: Option<AttachmentFields>, f2: Option<AttachmentFields>)
    ensures SetAttachment(SetAttachment(d, f1), f2) == SetAttachment(d, f2)
      <==> (f1.Some? ==> ContainedAttachment(f1.value))
  {
    AttachmentSound();
    AttachmentContained(f1);
    ATTACHMENT.PutPut(AttachmentLines(f1), AttachmentLines(f2), d);
  }

  /** Clearing leaves no attachment. */
  lemma AttachmentCleared(d: string)
    ensures ParsedAttachment(SetAttachment(d, None)) == None
  {
    AttachmentSound();
    ATTACHMENT.ContentSettled(d);
    ATTACHMENT.PutGet([], ATTACHMENT.Content(d));
  }

  /** Clearing changes nothing exactly when there was nothing to clear: no attachment line, no blank edge line. */
  lemma AttachmentClearIsIdentity(d: string)
    ensures SetAttachment(d, None) == d <==> ATTACHMENT.Free(d)
  {
    AttachmentSound();
    ATTACHMENT.DropIsIdentity(d);
  }

  /** So attaching and detaching gives a text back exactly when there was nothing to clear and nothing is left over. */
  lemma AttachThenDetach(d: string, f: AttachmentFields)
    ensures SetAttachment(SetAttachment(d, Some(f)), None) == d <==> ContainedAttachment(f) && ATTACHMENT.Free(d)
  {
    AttachmentSound();
    AttachmentContained(Some(f));
    ATTACHMENT.PutThenDrop(AttachmentLines(Some(f)), d);
  }

  // ---------- Arguments of several lines ----------

  /** A line without a colon is nobody's. */
  lemma NoColonStray(line: string)
    requires ':' !in line && Trimmed(line) && line != ""
    ensures ATTACHMENT.Stray(line)
  {
    TrimFixed(line);
  }

  lemma LaterLineStrays(first: string, later: string)
    requires '\n' !in first && '\n' !in later && ':' !in later && Trimmed(later) && later != ""
    ensures !ATTACHMENT.TailTaken(first + ['\n'] + later)
  {
    SplitAppend(first, later, '\n');
    SplitWhole(first, '\n');
    SplitWhole(later, '\n');
    NoColonStray(later);
    hide Split, Lens.Stray;
    assert ([first] + [later])[1..] == [later];
  }

  /** Arguments given on several lines lose a later line without a colon to the text: every description changes, and
      the next set, whatever it sets, keeps the line as content. */
  lemma ArgumentsLeak(d: string, f: AttachmentFields, first: string, later: string, next: Option<AttachmentFields>)
    requires '\n' !in first && '\n' !in later && ':' !in later && Trimmed(later) && later != ""
    requires f.attachedArgs == first + ['\n'] + later
    ensures ATTACHMENT.Content(SetAttachment(d, Some(f))) != ATTACHMENT.Content(d)
    ensures SetAttachment(SetAttachment(d, Some(f)), next) != SetAttachment(d, next)
  {
    LaterLineNotContained(f, first, later);
    AttachmentKeepsContent(d, Some(f));
    AttachmentPutPut(d, Some(f), next);
    hide *;
  }

  lemma LaterLineNotContained(f: AttachmentFields, first: string, later: string)
    requires '\n' !in first && '\n' !in later && ':' !in later && Trimmed(later) && later != ""
    requires f.attachedArgs == first + ['\n'] + later
    ensures !ContainedAttachment(f)
  {
    LaterLineStrays(first, later);
    hide Lens.TailTaken, Trimmed;
    assert AttachmentValue(f, Args) == first + ['\n'] + later;
  }

  /** For instance these. */
  lemma ReviewArgumentsLeak(d: string)
    ensures var f := NO_ATTACHMENT.(attachedArgs := "Review:" + ['\n'] + "1. SQL");
      ATTACHMENT.Content(SetAttachment(d, Some(f))) != ATTACHMENT.Content(d)
  {
    var first, later := "Review:", "1. SQL";
    assert '\n' !in first && '\n' !in later && ':' !in later && Trimmed(later);
    hide SetAttachment, Lens.Content, Trimmed;
    ArgumentsLeak(d, NO_ATTACHMENT.(attachedArgs := first + ['\n'] + later), first, later, None);
  }
}
