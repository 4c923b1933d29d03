/** An attachment record and a merge-request record in one description: exactly when they interact through the convoy
    id only.  (internal/beads/fields.go) */
module SharedDescription {
  import opened Text
  import opened KeyLines
  import opened FieldKeys
  import opened Fields
  import opened MRRecord

  /** The attachment parser sees only the convoy line of a merge-request record, and owns it. */
  lemma MRLineForAttachment(f: MRFields, s: MRSlot)
    ensures ReadAttachment(MRTexts(f)(s)) ==
      if s == MRConvoy then Single(Convoy, Trim(f.convoyID)) else map[]
    ensures OwnsAttachment(MRTexts(f)(s)) <==> s == MRConvoy && f.convoyID != ""
  {
    if MRValue(f, s) == "" {
      ReadBlankLine(AttachmentKey, SetsAttachment, "");
    } else {
      MRNamesPlain(s);
      MRNamesForeign(s);
      ReadFieldLine(AttachmentKey, SetsAttachment, MRName(s), if s == MRConvoy then Some(Convoy) else None, MRValue(f, s));
    }
  }

  /** And the merge-request parser only the convoy line of an attachment. */
  lemma AttachmentLineForMR(f: AttachmentFields, s: AttachmentSlot)
    ensures ReadMR(AttachmentTexts(f)(s)) ==
      if s == Convoy then Single(MRConvoy, Trim(f.convoyID)) else map[]
    ensures OwnsMR(AttachmentTexts(f)(s)) <==> s == Convoy && f.convoyID != ""
  {
    if AttachmentValue(f, s) == "" {
      ReadBlankLine(MRKey, SetsMR, "");
    } else {
      AttachmentNamesPlain(s);
      AttachmentNamesForeign(s);
      ReadFieldLine(MRKey, SetsMR, AttachmentName(s), if s == Convoy then Some(MRConvoy) else None, AttachmentValue(f, s));
    }
  }

  lemma KeptAttachmentText(a: AttachmentFields, s: AttachmentSlot)
    ensures AttachmentTexts(a.(convoyID := ""))(s) == if OwnsMR(AttachmentTexts(a)(s)) then "" else AttachmentTexts(a)(s)
  {
    AttachmentLineForMR(a, s);
  }

  lemma AttachmentLinesAfterMR(a: AttachmentFields)
    ensures MR.Others(AttachmentLines(Some(a))) == AttachmentLines(Some(a.(convoyID := "")))
  {
    MRSound();
    forall s: AttachmentSlot { KeptAttachmentText(a, s); }
    MR.OthersOfSlots(ATTACHMENT_ORDER, AttachmentTexts(a), AttachmentTexts(a.(convoyID := "")));
  }

  lemma KeptMRText(m: MRFields, s: MRSlot)
    ensures MRTexts(m.(convoyID := ""))(s) == if OwnsAttachment(MRTexts(m)(s)) then "" else MRTexts(m)(s)
  {
    MRLineForAttachment(m, s);
  }

  lemma MRLinesAfterAttachment(m: MRFields)
    ensures ATTACHMENT.Others(MRLines(Some(m))) == MRLines(Some(m.(convoyID := "")))
  {
    AttachmentSound();
    forall s: MRSlot { KeptMRText(m, s); }
    ATTACHMENT.OthersOfSlots(MR_ORDER, MRTexts(m), MRTexts(m.(convoyID := "")));
  }

  lemma ConvoySeenByAttachment(m: MRFields)
    ensures ATTACHMENT.Collect(MRLines(Some(m))) == Single(Convoy, Trim(m.convoyID))
  {
    AttachmentSound();
    forall s | s in MR_ORDER && s != MRConvoy ensures ATTACHMENT.read(MRTexts(m)(s)) == map[] { MRLineForAttachment(m, s); }
    ATTACHMENT.CollectForeign(MR_ORDER, MRTexts(m), MRConvoy);
    MRLineForAttachment(m, MRConvoy);
    AllMRSlots(MRConvoy);
  }

  lemma ConvoySeenByMR(a: AttachmentFields)
    ensures MR.Collect(AttachmentLines(Some(a))) == Single(MRConvoy, Trim(a.convoyID))
  {
    MRSound();
    forall s | s in ATTACHMENT_ORDER && s != Convoy ensures MR.read(AttachmentTexts(a)(s)) == map[] {
      AttachmentLineForMR(a, s);
    }
    MR.CollectForeign(ATTACHMENT_ORDER, AttachmentTexts(a), Convoy);
    AttachmentLineForMR(a, Convoy);
    AllAttachmentSlots(Convoy);
  }

  // ---------- What one parser sees of the other record's text ----------

  /** What each parser collects from the text of the other's record. */
  function SeenByMR(a: AttachmentFields): map<MRSlot, string> {
    MR.Collect(Spread(AttachmentLines(Some(a))))
  }

  function SeenByAttachment(m: MRFields): map<AttachmentSlot, string> {
    ATTACHMENT.Collect(Spread(MRLines(Some(m))))
  }

  lemma SeenIsParsedMR(a: AttachmentFields)
    ensures MR.Collect(Split(Join(AttachmentLines(Some(a)), '\n'), '\n')) == SeenByMR(a)
  {
    MRSound();
    MR.CollectNothing([""]);
    hide AttachmentLines, Split, Lens.Collect;
    assert MR.Collect([]) == map[] && Split("", '\n') == [""] by { SplitWhole("", '\n'); EmptyCollects(); }
  }

  lemma SeenIsParsedAttachment(m: MRFields)
    ensures ATTACHMENT.Collect(Split(Join(MRLines(Some(m)), '\n'), '\n')) == SeenByAttachment(m)
  {
    AttachmentSound();
    ATTACHMENT.CollectNothing([""]);
    hide MRLines, Split, Lens.Collect;
    assert ATTACHMENT.Collect([]) == map[] && Split("", '\n') == [""] by { SplitWhole("", '\n'); EmptyCollects(); }
  }

  lemma EmptyCollects()
    ensures MR.Collect([]) == map[] && ATTACHMENT.Collect([]) == map[]
  {
  }

  /** A record with its convoy id replaced, none if nothing is in it. */
  function WithConvoy(a: AttachmentFields, convoy: string): Option<AttachmentFields> {
    var f := a.(convoyID := convoy);
    if f == NO_ATTACHMENT then None else Some(f)
  }

  function MRWithConvoy(m: MRFields, convoy: string): Option<MRFields> {
    var f := m.(convoyID := convoy);
    if f == NO_MR then None else Some(f)
  }

  /** The merge-request parser reads the attachment's own text as its convoy id and nothing else. */
  predicate AttachmentApart(a: AttachmentFields) {
    ParsedMR(Join(AttachmentLines(Some(a)), '\n')) == MRWithConvoy(NO_MR, a.convoyID)
  }

  /** The attachment parser reads the merge-request record's own text as its convoy id and nothing else. */
  predicate MRApart(m: MRFields) {
    ParsedAttachment(Join(MRLines(Some(m)), '\n')) == WithConvoy(NO_ATTACHMENT, m.convoyID)
  }

  /** Records that read back but for their convoy id, which is one line. */
  predicate ReadsBesideConvoy(a: AttachmentFields) {
    CleanAttachment(a.(convoyID := "")) && '\n' !in a.convoyID
  }

  predicate MRReadsBesideConvoy(m: MRFields) {
    CleanMR(m.(convoyID := "")) && '\n' !in m.convoyID
  }

  // ---------- An attachment over a merge-request record ----------

  lemma MergedMR(m: MRFields, seen: map<MRSlot, string>, convoy: string)
    requires CleanMR(m.(convoyID := ""))
    requires (if seen == map[] then None else Some(MROf(seen))) == MRWithConvoy(NO_MR, convoy)
    ensures var c := seen + MR.Collect(MRLines(Some(m.(convoyID := ""))));
      (if c == map[] then None else Some(MROf(c))) == MRWithConvoy(m, convoy)
  {
    var bare := m.(convoyID := "");
    var own := MR.Collect(MRLines(Some(bare)));
    MRLinesRead(bare);
    CleanMRValues(bare);
    MREmptiness(own, bare);
    OverlaidMR(seen, own, bare, convoy);
    hide MRLines, Lens.Collect, MROf;
    NothingMerged(seen, own);
  }

  lemma OverlaidMR(seen: map<MRSlot, string>, own: map<MRSlot, string>, bare: MRFields, convoy: string)
    requires bare.convoyID == "" && 0 <= bare.retryCount <= MAX_INT64
    requires forall s: MRSlot :: Get(own, s) == MRValue(bare, s) && (s in own ==> own[s] != "")
    requires MROf(seen) == NO_MR.(convoyID := convoy) || (seen == map[] && convoy == "")
    ensures MROf(seen + own) == bare.(convoyID := convoy)
  {
    var c := seen + own;
    NothingSeen(seen, convoy);
    OverlaidCount(seen, own, bare);
    assert MRValue(bare, MRConvoy) == "";
    hide MROf, Count, Get, MRValue;
    forall s: MRSlot | s != RetryCount ensures Get(c, s) == if s == MRConvoy then convoy else MRValue(bare, s) {
      OverlayGet(seen, own, s);
    }
    hide *;
    MRFromOverlay(c, bare, convoy);
  }

  lemma OverlaidCount(seen: map<MRSlot, string>, own: map<MRSlot, string>, bare: MRFields)
    requires 0 <= bare.retryCount <= MAX_INT64 && Count(Get(seen, RetryCount)) == 0
    requires Get(own, RetryCount) == MRValue(bare, RetryCount) && (RetryCount in own ==> own[RetryCount] != "")
    ensures Count(Get(seen + own, RetryCount)) == bare.retryCount
  {
    OverlayGet(seen, own, RetryCount);
    CountReads(bare.retryCount);
    hide Count, Get;
    assert MRValue(bare, RetryCount) == if bare.retryCount > 0 then Itoa(bare.retryCount) else "";
  }

  lemma NothingSeen(seen: map<MRSlot, string>, convoy: string)
    requires MROf(seen) == NO_MR.(convoyID := convoy) || (seen == map[] && convoy == "")
    ensures forall s: MRSlot | s != MRConvoy && s != RetryCount :: Get(seen, s) == ""
    ensures Get(seen, MRConvoy) == convoy && Count(Get(seen, RetryCount)) == 0
  {
    assert Count("") == 0;
    hide Count;
  }

  lemma MRFromOverlay(c: map<MRSlot, string>, bare: MRFields, convoy: string)
    requires Count(Get(c, RetryCount)) == bare.retryCount && Get(c, MRConvoy) == convoy
    requires forall s: MRSlot | s != MRConvoy && s != RetryCount :: Get(c, s) == MRValue(bare, s)
    ensures MROf(c) == bare.(convoyID := convoy)
  {
    assert Get(c, Branch) == bare.branch && Get(c, Target) == bare.target && Get(c, SourceIssue) == bare.sourceIssue;
    assert Get(c, Worker) == bare.worker && Get(c, Rig) == bare.rig && Get(c, MergeCommit) == bare.mergeCommit;
    assert Get(c, CloseReason) == bare.closeReason && Get(c, AgentBead) == bare.agentBead;
    assert Get(c, LastConflictSHA) == bare.lastConflictSHA && Get(c, ConflictTask) == bare.conflictTaskID;
    assert Get(c, ConvoyCreated) == bare.convoyCreatedAt;
  }

  /** What the merge-request parser reads after both sets. */
  lemma ReadByMR(d: string, m: MRFields, a: AttachmentFields)
    requires OneLineMR(m)
    ensures MR.Collect(Split(SetAttachment(SetMR(d, Some(m)), Some(a)), '\n'))
      == SeenByMR(a) + MR.Collect(MRLines(Some(m.(convoyID := ""))))
  {
    AttachmentSound();
    MRSound();
    MRLinesOwned(Some(m));
    SpreadOneLine(MRLines(Some(m)));
    MRLinesAfterAttachment(m);
    MR.GetAfterBothPuts(ATTACHMENT, MRLines(Some(m)), AttachmentLines(Some(a)), d);
    hide AttachmentLines, MRLines, Lens.Collect, Lens.Others, Lens.Content, Lens.Put, Split;
  }

  lemma MROneLine(m: MRFields)
    requires MRReadsBesideConvoy(m)
    ensures OneLineMR(m)
  {
    CleanMRValues(m.(convoyID := ""));
    forall s: MRSlot ensures '\n' !in MRValue(m, s) {
      assert s != MRConvoy ==> MRValue(m, s) == MRValue(m.(convoyID := ""), s);
    }
  }

  /** An attachment that is apart changes a merge-request record in one field: the convoy id becomes the attachment's. */
  lemma MRUnderApart(d: string, m: MRFields, a: AttachmentFields)
    requires AttachmentApart(a) && MRReadsBesideConvoy(m)
    ensures ParsedMR(SetAttachment(SetMR(d, Some(m)), Some(a))) == MRWithConvoy(m, a.convoyID)
  {
    MROneLine(m);
    ReadByMR(d, m, a);
    SeenIsParsedMR(a);
    hide AttachmentLines, MRLines, Lens.Collect, SetAttachment, SetMR, Split, MROf, SeenByMR;
    MergedMR(m, SeenByMR(a), a.convoyID);
  }

  /** Exactly the attachments whose own text the merge-request parser reads as their convoy id and nothing else leave
      every merge-request record in every description as it was, but for the convoy id. */
  lemma MRUnderAttachment(a: AttachmentFields)
    ensures AttachmentApart(a) <==> forall d, m | MRReadsBesideConvoy(m) ::
      ParsedMR(SetAttachment(SetMR(d, Some(m)), Some(a))) == MRWithConvoy(m, a.convoyID)
  {
    if AttachmentApart(a) {
      forall d, m | MRReadsBesideConvoy(m)
        ensures ParsedMR(SetAttachment(SetMR(d, Some(m)), Some(a))) == MRWithConvoy(m, a.convoyID)
      {
        MRUnderApart(d, m, a);
      }
    } else {
      NotApartShows(a);
    }
  }

  lemma NotApartShows(a: AttachmentFields)
    requires !AttachmentApart(a)
    ensures MRReadsBesideConvoy(NO_MR)
    ensures ParsedMR(SetAttachment(SetMR("", Some(NO_MR)), Some(a))) != MRWithConvoy(NO_MR, a.convoyID)
  {
    NoMRReads();
    hide AttachmentLines, MRLines, Lens.Collect, SetAttachment, SetMR, Split, MROf, SeenByMR, MRReadsBesideConvoy, OneLineMR,
      MRWithConvoy, Join;
    MROneLine(NO_MR);
    ReadByMR("", NO_MR, a);
    SeenIsParsedMR(a);
    NoMRCollects();
    assert SeenByMR(a) + map[] == SeenByMR(a);
  }

  lemma NoMRReads()
    ensures MRReadsBesideConvoy(NO_MR) && NO_MR.(convoyID := "") == NO_MR
  {
  }

  lemma NoMRCollects()
    ensures MR.Collect(MRLines(Some(NO_MR))) == map[]
  {
    CleanMRValues(NO_MR);
    MRLinesRead(NO_MR);
    hide MRLines, Lens.Collect;
    MREmptiness(MR.Collect(MRLines(Some(NO_MR))), NO_MR);
  }

  lemma SingleMR(convoy: string)
    ensures (if Single(MRConvoy, convoy) == map[] then None else Some(MROf(Single(MRConvoy, convoy)))) == MRWithConvoy(NO_MR, convoy)
  {
    var m := Single(MRConvoy, convoy);
    assert forall s: MRSlot | s != MRConvoy :: Get(m, s) == "";
    assert Count("") == 0;
    hide Count;
    if convoy != "" { assert MRConvoy in m; }
  }

  /** Among them are the attachments of one-line values with a trimmed convoy id. */
  lemma OneLineAttachmentApart(a: AttachmentFields)
    requires OneLineAttachment(a) && Clean(a.convoyID)
    ensures AttachmentApart(a)
  {
    AttachmentLinesOwned(Some(a));
    SpreadOneLine(AttachmentLines(Some(a)));
    ConvoySeenByMR(a);
    SeenIsParsedMR(a);
    TrimFixed(a.convoyID);
    SingleMR(a.convoyID);
    hide AttachmentLines, Lens.Collect, Split, MROf, MRWithConvoy, Clean, OneLineAttachment, Trim, Single;
  }

  // ---------- A merge-request record over an attachment ----------

  lemma MergedAttachment(a: AttachmentFields, seen: map<AttachmentSlot, string>, convoy: string)
    requires CleanAttachment(a.(convoyID := ""))
    requires (if seen == map[] then None else Some(AttachmentOf(seen))) == WithConvoy(NO_ATTACHMENT, convoy)
    ensures var c := seen + ATTACHMENT.Collect(AttachmentLines(Some(a.(convoyID := ""))));
      (if c == map[] then None else Some(AttachmentOf(c))) == WithConvoy(a, convoy)
  {
    var bare := a.(convoyID := "");
    var own := ATTACHMENT.Collect(AttachmentLines(Some(bare)));
    AttachmentLinesRead(bare);
    CleanValues(bare);
    AttachmentEmptiness(own, bare);
    OverlaidAttachment(seen, own, bare, convoy);
    hide AttachmentLines, Lens.Collect, AttachmentOf;
    NothingMerged(seen, own);
  }

  lemma OverlaidAttachment(
    seen: map<AttachmentSlot, string>, own: map<AttachmentSlot, string>, bare: AttachmentFields, convoy: string)
    requires bare.convoyID == ""
    requires forall s: AttachmentSlot :: Get(own, s) == AttachmentValue(bare, s) && (s in own ==> own[s] != "")
    requires AttachmentOf(seen) == NO_ATTACHMENT.(convoyID := convoy) || (seen == map[] && convoy == "")
    ensures AttachmentOf(seen + own) == bare.(convoyID := convoy)
  {
    var c := seen + own;
    LowerFixed("true");
    assert AttachmentOf(map[]) == NO_ATTACHMENT;
    forall s: AttachmentSlot ensures Get(c, s) == if AttachmentValue(bare, s) == "" then Get(seen, s) else AttachmentValue(bare, s) {
      assert Get(own, s) == AttachmentValue(bare, s);
    }
    forall s: AttachmentSlot | s != Convoy && s != NoMerge ensures Get(c, s) == AttachmentValue(bare, s) {
      assert Get(seen, s) == "";
    }
    AttachmentFromOverlay(c, bare, convoy);
  }

  lemma AttachmentFromOverlay(c: map<AttachmentSlot, string>, bare: AttachmentFields, convoy: string)
    requires (Lower(Get(c, NoMerge)) == "true") == bare.noMerge && Get(c, Convoy) == convoy
    requires forall s: AttachmentSlot | s != Convoy && s != NoMerge :: Get(c, s) == AttachmentValue(bare, s)
    ensures AttachmentOf(c) == bare.(convoyID := convoy)
  {
    assert Get(c, Molecule) == bare.attachedMolecule && Get(c, At) == bare.attachedAt && Get(c, Args) == bare.attachedArgs;
    assert Get(c, By) == bare.dispatchedBy && Get(c, Mode) == bare.mode && Get(c, Strategy) == bare.mergeStrategy;
  }

  /** What the attachment parser reads after both sets. */
  lemma ReadByAttachment(d: string, a: AttachmentFields, m: MRFields)
    requires OneLineAttachment(a)
    ensures ATTACHMENT.Collect(Split(SetMR(SetAttachment(d, Some(a)), Some(m)), '\n'))
      == SeenByAttachment(m) + ATTACHMENT.Collect(AttachmentLines(Some(a.(convoyID := ""))))
  {
    AttachmentSound();
    MRSound();
    AttachmentLinesOwned(Some(a));
    SpreadOneLine(AttachmentLines(Some(a)));
    AttachmentLinesAfterMR(a);
    ATTACHMENT.GetAfterBothPuts(MR, AttachmentLines(Some(a)), MRLines(Some(m)), d);
    hide AttachmentLines, MRLines, Lens.Collect, Lens.Others, Lens.Content, Lens.Put, Split;
  }

  lemma AttachmentOneLine(a: AttachmentFields)
    requires ReadsBesideConvoy(a)
    ensures OneLineAttachment(a)
  {
    CleanValues(a.(convoyID := ""));
    forall s: AttachmentSlot ensures '\n' !in AttachmentValue(a, s) {
      assert s != Convoy ==> AttachmentValue(a, s) == AttachmentValue(a.(convoyID := ""), s);
    }
  }

  /** A merge-request record that is apart changes an attachment in one field. */
  lemma AttachmentUnderApart(d: string, a: AttachmentFields, m: MRFields)
    requires MRApart(m) && ReadsBesideConvoy(a)
    ensures ParsedAttachment(SetMR(SetAttachment(d, Some(a)), Some(m))) == WithConvoy(a, m.convoyID)
  {
    AttachmentOneLine(a);
    ReadByAttachment(d, a, m);
    SeenIsParsedAttachment(m);
    hide AttachmentLines, MRLines, Lens.Collect, SetAttachment, SetMR, Split, AttachmentOf, SeenByAttachment;
    MergedAttachment(a, SeenByAttachment(m), m.convoyID);
  }

  /** And the other way round: exactly the merge-request records whose own text the attachment parser reads as their
      convoy id and nothing else leave every attachment as it was, but for the convoy id. */
  lemma AttachmentUnderMR(m: MRFields)
    ensures MRApart(m) <==> forall d, a | ReadsBesideConvoy(a) ::
      ParsedAttachment(SetMR(SetAttachment(d, Some(a)), Some(m))) == WithConvoy(a, m.convoyID)
  {
    if MRApart(m) {
      forall d, a | ReadsBesideConvoy(a)
        ensures ParsedAttachment(SetMR(SetAttachment(d, Some(a)), Some(m))) == WithConvoy(a, m.convoyID)
      {
        AttachmentUnderApart(d, a, m);
      }
    } else {
      MRNotApartShows(m);
    }
  }

  lemma MRNotApartShows(m: MRFields)
    requires !MRApart(m)
    ensures ReadsBesideConvoy(NO_ATTACHMENT)
    ensures ParsedAttachment(SetMR(SetAttachment("", Some(NO_ATTACHMENT)), Some(m))) != WithConvoy(NO_ATTACHMENT, m.convoyID)
  {
    NoAttachmentReads();
    hide AttachmentLines, MRLines, Lens.Collect, SetAttachment, SetMR, Split, AttachmentOf, SeenByAttachment,
      ReadsBesideConvoy, OneLineAttachment, WithConvoy, Join;
    AttachmentOneLine(NO_ATTACHMENT);
    ReadByAttachment("", NO_ATTACHMENT, m);
    SeenIsParsedAttachment(m);
    NoAttachmentCollects();
    assert SeenByAttachment(m) + map[] == SeenByAttachment(m);
  }

  lemma NoAttachmentReads()
    ensures ReadsBesideConvoy(NO_ATTACHMENT) && NO_ATTACHMENT.(convoyID := "") == NO_ATTACHMENT
  {
  }

  lemma NoAttachmentCollects()
    ensures ATTACHMENT.Collect(AttachmentLines(Some(NO_ATTACHMENT))) == map[]
  {
    CleanValues(NO_ATTACHMENT);
    AttachmentLinesRead(NO_ATTACHMENT);
    hide AttachmentLines, Lens.Collect;
    AttachmentEmptiness(ATTACHMENT.Collect(AttachmentLines(Some(NO_ATTACHMENT))), NO_ATTACHMENT);
  }

  lemma SingleAttachment(convoy: string)
    ensures (if Single(Convoy, convoy) == map[] then None else Some(AttachmentOf(Single(Convoy, convoy)))) == WithConvoy(NO_ATTACHMENT, convoy)
  {
    var m := Single(Convoy, convoy);
    assert forall s: AttachmentSlot | s != Convoy :: Get(m, s) == "";
    if convoy != "" { assert Convoy in m; }
  }

  /** Among them are the records of one-line values with a trimmed convoy id. */
  lemma OneLineMRApart(m: MRFields)
    requires OneLineMR(m) && Clean(m.convoyID)
    ensures MRApart(m)
  {
    MRLinesOwned(Some(m));
    SpreadOneLine(MRLines(Some(m)));
    ConvoySeenByAttachment(m);
    SeenIsParsedAttachment(m);
    TrimFixed(m.convoyID);
    SingleAttachment(m.convoyID);
    hide MRLines, Lens.Collect, Split, AttachmentOf, WithConvoy, Clean, OneLineMR, Trim, Single;
  }

  // ---------- Values of several lines that are not apart ----------

  /** The two lines of a field whose value goes on with another field's line. */
  lemma TwoFieldLines(name: string, first: string, other: string, value: string)
    requires '\n' !in name && '\n' !in first && '\n' !in other && '\n' !in value
    ensures Spread([FieldLine(name, first + ['\n'] + FieldLine(other, value))]) == [FieldLine(name, first), FieldLine(other, value)]
  {
    var whole, rest := FieldLine(name, first + ['\n'] + FieldLine(other, value)), FieldLine(other, value);
    assert whole == FieldLine(name, first) + ['\n'] + rest;
    SplitAppend(FieldLine(name, first), rest, '\n');
    SplitWhole(FieldLine(name, first), '\n');
    SplitWhole(rest, '\n');
    hide Split;
    assert [FieldLine(name, first)] + [rest] == [FieldLine(name, first), rest];
  }

  /** Arguments whose second line is a merge-request field: over a text without either record they make one, with that
      field. */
  lemma ArgumentsMakeMR(first: string, s: MRSlot, value: string)
    requires '\n' !in first && '\n' !in value && s != MRConvoy && SetsMR(s, Trim(value))
    ensures var a := NO_ATTACHMENT.(attachedArgs := first + ['\n'] + FieldLine(MRName(s), value));
      !AttachmentApart(a) && ParsedMR(SetAttachment("", Some(a))) == Some(MROf(map[s := Trim(value)]))
  {
    var a := NO_ATTACHMENT.(attachedArgs := first + ['\n'] + FieldLine(MRName(s), value));
    ArgumentsSeen(a, first, s, value);
    SeenIsParsedMR(a);
    SetOverNothing(a);
    hide Lens.Collect, Split, SetAttachment, SeenByMR, AttachmentLines, FieldLine, MRName, MROf, SetsMR, Trim;
    assert s in map[s := Trim(value)];
  }

  lemma MRReadsForeign(s: AttachmentSlot, value: string)
    requires s != Convoy
    ensures ReadMR(FieldLine(AttachmentName(s), value)) == map[]
  {
    AttachmentNamesPlain(s);
    AttachmentNamesForeign(s);
    hide AttachmentName, MRKey;
    ReadFieldLine(MRKey, SetsMR, AttachmentName(s), None, value);
  }

  lemma MRReadsOwn(s: MRSlot, value: string)
    requires SetsMR(s, Trim(value))
    ensures ReadMR(FieldLine(MRName(s), value)) == map[s := Trim(value)]
  {
    MRNamesPlain(s);
    MRNamesRead(s);
    hide MRName, MRKey, Trim, SetsMR;
    ReadFieldLine(MRKey, SetsMR, MRName(s), Some(s), value);
  }

  lemma ArgumentsSeen(a: AttachmentFields, first: string, s: MRSlot, value: string)
    requires '\n' !in first && '\n' !in value && s != MRConvoy && SetsMR(s, Trim(value))
    requires a == NO_ATTACHMENT.(attachedArgs := first + ['\n'] + FieldLine(MRName(s), value))
    ensures SeenByMR(a) == map[s := Trim(value)]
  {
    ArgumentsLines(a, first + ['\n'] + FieldLine(MRName(s), value));
    MRNamesPlain(s);
    AttachmentNamesPlain(Args);
    hide MRName, MRKey, SetsMR, Trim, AttachmentName, AttachmentLines;
    var x, y := FieldLine(AttachmentName(Args), first), FieldLine(MRName(s), value);
    MRReadsForeign(Args, first);
    MRReadsOwn(s, value);
    assert Spread(AttachmentLines(Some(a))) == [x, y] by { TwoFieldLines(AttachmentName(Args), first, MRName(s), value); }
    MR.CollectSecond(x, y);
    hide FieldLine, Lens.Collect, Spread, ReadMR, PlainKey;
  }

  lemma ArgumentsLines(a: AttachmentFields, args: string)
    requires a == NO_ATTACHMENT.(attachedArgs := args) && args != ""
    ensures AttachmentLines(Some(a)) == [FieldLine(AttachmentName(Args), args)]
  {
    assert |FieldLine(AttachmentName(Args), args)| > 0;
    hide SlotLines, FieldLine, AttachmentName;
    OneSlot(ATTACHMENT_ORDER, AttachmentTexts(a), 2);
  }

  lemma SetOverNothing(a: AttachmentFields)
    ensures SetAttachment("", Some(a)) == Join(AttachmentLines(Some(a)), '\n')
  {
    hide AttachmentLines;
  }

  /** For instance "target: prod" on the second line. */
  lemma ArgumentsSetTarget()
    ensures var a := NO_ATTACHMENT.(attachedArgs := "Review:" + ['\n'] + FieldLine("target", "prod"));
      ParsedMR(SetAttachment("", Some(a))) == Some(NO_MR.(target := "prod"))
  {
    var name, value := MRName(Target), "prod";
    TrimFixed(value);
    assert '\n' !in "Review:" && '\n' !in value && SetsMR(Target, value);
    ArgumentsMakeMR("Review:", Target, value);
    assert MROf(map[Target := value]) == NO_MR.(target := value) by { assert Count("") == 0; }
    hide SetAttachment, MROf, FieldLine;
  }

  /** A close reason whose second line is an attachment field: over a text without either record it makes an
      attachment. */
  lemma CloseReasonMakesAttachment(first: string, s: AttachmentSlot, value: string)
    requires '\n' !in first && '\n' !in value && s != Convoy && Trim(value) != ""
    ensures var m := NO_MR.(closeReason := first + ['\n'] + FieldLine(AttachmentName(s), value));
      !MRApart(m) && ParsedAttachment(SetMR("", Some(m))) == Some(AttachmentOf(map[s := Trim(value)]))
  {
    var m := NO_MR.(closeReason := first + ['\n'] + FieldLine(AttachmentName(s), value));
    ReasonSeen(m, first, s, value);
    SeenIsParsedAttachment(m);
    SetMROverNothing(m);
    hide Lens.Collect, Split, SetMR, SeenByAttachment, MRLines, FieldLine, AttachmentName, AttachmentOf, Trim;
    assert s in map[s := Trim(value)];
  }

  lemma AttachmentReadsForeign(s: MRSlot, value: string)
    requires s != MRConvoy
    ensures ReadAttachment(FieldLine(MRName(s), value)) == map[]
  {
    MRNamesPlain(s);
    MRNamesForeign(s);
    hide MRName, AttachmentKey;
    ReadFieldLine(AttachmentKey, SetsAttachment, MRName(s), None, value);
  }

  lemma AttachmentReadsOwn(s: AttachmentSlot, value: string)
    requires Trim(value) != ""
    ensures ReadAttachment(FieldLine(AttachmentName(s), value)) == map[s := Trim(value)]
  {
    AttachmentNamesPlain(s);
    AttachmentNamesRead(s);
    hide AttachmentName, AttachmentKey, Trim;
    ReadFieldLine(AttachmentKey, SetsAttachment, AttachmentName(s), Some(s), value);
  }

  lemma ReasonSeen(m: MRFields, first: string, s: AttachmentSlot, value: string)
    requires '\n' !in first && '\n' !in value && s != Convoy && Trim(value) != ""
    requires m == NO_MR.(closeReason := first + ['\n'] + FieldLine(AttachmentName(s), value))
    ensures SeenByAttachment(m) == map[s := Trim(value)]
  {
    ReasonLines(m, first + ['\n'] + FieldLine(AttachmentName(s), value));
    AttachmentNamesPlain(s);
    MRNamesPlain(CloseReason);
    hide AttachmentName, AttachmentKey, Trim, MRName, MRLines;
    var x, y := FieldLine(MRName(CloseReason), first), FieldLine(AttachmentName(s), value);
    AttachmentReadsForeign(CloseReason, first);
    AttachmentReadsOwn(s, value);
    assert Spread(MRLines(Some(m))) == [x, y] by { TwoFieldLines(MRName(CloseReason), first, AttachmentName(s), value); }
    ATTACHMENT.CollectSecond(x, y);
    hide FieldLine, Lens.Collect, Spread, ReadAttachment, PlainKey;
  }

  lemma ReasonLines(m: MRFields, reason: string)
    requires m == NO_MR.(closeReason := reason) && reason != ""
    ensures MRLines(Some(m)) == [FieldLine(MRName(CloseReason), reason)]
  {
    assert |FieldLine(MRName(CloseReason), reason)| > 0;
    hide SlotLines, FieldLine, MRName;
    OneSlot(MR_ORDER, MRTexts(m), 6);
  }

  lemma SetMROverNothing(m: MRFields)
    ensures SetMR("", Some(m)) == Join(MRLines(Some(m)), '\n')
  {
    hide MRLines;
  }
}
