/** Agent beads: fields kept in the description, and the locked read-modify-write operations on them.
    (internal/beads/beads_agent.go) */
module AgentBeads {
  import opened Text
  import opened KeyLines

  // ---------- The fields ----------

  datatype AgentSlot = RoleType | Rig | AgentState | HookBead | CleanupStatus | ActiveMR | NotificationLevel | Mode

  function AgentName(s: AgentSlot): string {
    match s
    case RoleType => "role_type"
    case Rig => "rig"
    case AgentState => "agent_state"
    case HookBead => "hook_bead"
    case CleanupStatus => "cleanup_status"
    case ActiveMR => "active_mr"
    case NotificationLevel => "notification_level"
    case Mode => "mode"
  }

  function AgentKey(key: string): Option<AgentSlot> {
    if key == "role_type" then Some(RoleType)
    else if key == "rig" then Some(Rig)
    else if key == "agent_state" then Some(AgentState)
    else if key == "hook_bead" then Some(HookBead)
    else if key == "cleanup_status" then Some(CleanupStatus)
    else if key == "active_mr" then Some(ActiveMR)
    else if key == "notification_level" then Some(NotificationLevel)
    else if key == "mode" then Some(Mode)
    else None
  }

  lemma AgentNamesRead(s: AgentSlot)
    ensures PlainKey(AgentName(s)) && AgentKey(AgentName(s)) == Some(s)
  {
    AgentNamesPlain(s);
    hide PlainKey;
  }

  lemma AgentNamesPlain(s: AgentSlot)
    ensures PlainKey(AgentName(s))
  {
  }

  datatype AgentFields = AgentFields(
    roleType: string, rig: string, agentState: string, hookBead: string, cleanupStatus: string, activeMR: string,
    notificationLevel: string, mode: string)

  const NO_FIELDS := AgentFields("", "", "", "", "", "", "", "")

  function AgentValue(f: AgentFields, s: AgentSlot): string {
    match s
    case RoleType => f.roleType
    case Rig => f.rig
    case AgentState => f.agentState
    case HookBead => f.hookBead
    case CleanupStatus => f.cleanupStatus
    case ActiveMR => f.activeMR
    case NotificationLevel => f.notificationLevel
    case Mode => f.mode
  }

  function Assign(f: AgentFields, s: AgentSlot, value: string): AgentFields {
    match s
    case RoleType => f.(roleType := value)
    case Rig => f.(rig := value)
    case AgentState => f.(agentState := value)
    case HookBead => f.(hookBead := value)
    case CleanupStatus => f.(cleanupStatus := value)
    case ActiveMR => f.(activeMR := value)
    case NotificationLevel => f.(notificationLevel := value)
    case Mode => f.(mode := value)
  }

  lemma SameFields(f: AgentFields, g: AgentFields)
    requires forall s: AgentSlot :: AgentValue(f, s) == AgentValue(g, s)
    ensures f == g
  {
    assert AgentValue(f, RoleType) == g.roleType && AgentValue(f, Rig) == g.rig && AgentValue(f, AgentState) == g.agentState;
    assert AgentValue(f, HookBead) == g.hookBead && AgentValue(f, CleanupStatus) == g.cleanupStatus;
    assert AgentValue(f, ActiveMR) == g.activeMR && AgentValue(f, NotificationLevel) == g.notificationLevel;
    assert AgentValue(f, Mode) == g.mode;
  }

  // ---------- Parsing ----------

  predicate Anything(s: AgentSlot, value: string) { true }

  function ReadAgent(line: string): map<AgentSlot, string> {
    ReadWith(AgentKey, Anything, line)
  }

  predicate OwnsAgent(line: string) {
    OwnedBy(AgentKey, line)
  }

  const AGENT := Lens(ReadAgent, OwnsAgent, Blank)

  /** "null" stands for the empty value. */
  function Denull(value: string): string {
    if value == "null" then "" else value
  }

  function AgentOf(m: map<AgentSlot, string>): AgentFields {
    AgentFields(Denull(Get(m, RoleType)), Denull(Get(m, Rig)), Denull(Get(m, AgentState)), Denull(Get(m, HookBead)),
                Denull(Get(m, CleanupStatus)), Denull(Get(m, ActiveMR)), Denull(Get(m, NotificationLevel)), Denull(Get(m, Mode)))
  }

  function ParsedAgent(description: string): AgentFields {
    AgentOf(AGENT.Collect(Split(description, '\n')))
  }

  lemma AgentOfValue(m: map<AgentSlot, string>, s: AgentSlot)
    ensures AgentValue(AgentOf(m), s) == Denull(Get(m, s))
  {
  }

  lemma AssignStep(m: map<AgentSlot, string>, s: AgentSlot, value: string)
    ensures AgentOf(m[s := value]) == Assign(AgentOf(m), s, Denull(value))
  {
  }

  method ParseAgentFields(description: string) returns (fields: AgentFields)
    ensures fields == ParsedAgent(description)
  {
    var lines := Split(description, '\n');
    fields := NO_FIELDS;
    for i := 0 to |lines|
      invariant fields == AgentOf(AGENT.Collect(lines[..i]))
    {
      var slot, value := ReadLine(AgentKey, Anything, lines[i]);
      AGENT.CollectStep(lines, i, slot, value);
      if slot.Some? {
        AssignStep(AGENT.Collect(lines[..i]), slot.value, value);
        fields := Assign(fields, slot.value, if value == "null" || value == "" then "" else value);
      }
    }
    assert lines[..|lines|] == lines;
  }

  // ---------- Formatting ----------

  const AGENT_ORDER: seq<AgentSlot> :=
    [RoleType, Rig, AgentState, HookBead, CleanupStatus, ActiveMR, NotificationLevel, Mode]

  function OrNull(value: string): string {
    if value == "" then "null" else value
  }

  /** What is written for a field: role type and state as they are, the others with null for empty; an empty mode is
      not written at all. */
  function Shown(f: AgentFields, s: AgentSlot): string {
    if s == RoleType || s == AgentState then AgentValue(f, s) else OrNull(AgentValue(f, s))
  }

  function AgentTexts(f: AgentFields): AgentSlot -> string {
    s => if s == Mode && f.mode == "" then "" else FieldLine(AgentName(s), Shown(f, s))
  }

  function AgentLines(f: AgentFields): seq<string> {
    SlotLines(AGENT_ORDER, AgentTexts(f))
  }

  function Formatted(title: string, fields: Option<AgentFields>): string {
    if fields.None? then title else Join([title, ""] + AgentLines(fields.value), '\n')
  }

  method FormatAgentDescription(title: string, fields: Option<AgentFields>) returns (text: string)
    ensures text == Formatted(title, fields)
  {
    if fields.None? {
      return title;
    }
    var f := fields.value;
    var lines := [FieldLine("role_type", f.roleType)];
    lines := lines + [FieldLine("rig", OrNull(f.rig))];
    lines := lines + [FieldLine("agent_state", f.agentState)];
    lines := lines + [FieldLine("hook_bead", OrNull(f.hookBead))];
    lines := lines + [FieldLine("cleanup_status", OrNull(f.cleanupStatus))];
    lines := lines + [FieldLine("active_mr", OrNull(f.activeMR))];
    lines := lines + [FieldLine("notification_level", OrNull(f.notificationLevel))];
    lines := lines + if f.mode != "" then [FieldLine("mode", f.mode)] else [];
    AgentLinesWritten(f);
    text := Join([title, ""] + lines, '\n');
  }

  lemma AgentLinesWritten(f: AgentFields)
    ensures AgentLines(f) ==
      [FieldLine("role_type", f.roleType)] + [FieldLine("rig", OrNull(f.rig))] + [FieldLine("agent_state", f.agentState)]
      + [FieldLine("hook_bead", OrNull(f.hookBead))] + [FieldLine("cleanup_status", OrNull(f.cleanupStatus))]
      + [FieldLine("active_mr", OrNull(f.activeMR))] + [FieldLine("notification_level", OrNull(f.notificationLevel))]
      + (if f.mode != "" then [FieldLine("mode", f.mode)] else [])
  {
    SlotLines8(AGENT_ORDER, AgentTexts(f));
    assert AGENT_ORDER[..8] == AGENT_ORDER;
    AgentLineAt(f, 0, RoleType);
    AgentLineAt(f, 1, Rig);
    AgentLineAt(f, 2, AgentState);
    AgentLineAt(f, 3, HookBead);
    AgentLineAt(f, 4, CleanupStatus);
    AgentLineAt(f, 5, ActiveMR);
    AgentLineAt(f, 6, NotificationLevel);
  }

  lemma AgentLineAt(f: AgentFields, i: nat, s: AgentSlot)
    requires i < 7 && AGENT_ORDER[i] == s
    ensures Lines(AGENT_ORDER, AgentTexts(f), i) == [FieldLine(AgentName(s), Shown(f, s))]
  {
  }

  // ---------- Format, then parse ----------

  lemma AgentSound()
    ensures AGENT.Sound()
  {
    assert Blank("");
    forall line | Blank(line) ensures !OwnsAgent(line) { ReadBlankLine(AgentKey, Anything, line); }
  }

  /** A value that reads back as itself: one line, trimmed, and not the word null. */
  predicate Storable(value: string) {
    Clean(value) && value != "null"
  }

  ghost predicate StorableFields(f: AgentFields) {
    forall s: AgentSlot :: Storable(AgentValue(f, s))
  }

  lemma ParsedIsStorable(description: string)
    ensures StorableFields(ParsedAgent(description))
  {
    var lines := Split(description, '\n');
    forall line | line in lines ensures forall s <- ReadAgent(line) :: Clean(ReadAgent(line)[s]) {
      ReadIsClean(AgentKey, Anything, line);
    }
    AGENT.CollectClean(lines);
    forall s: AgentSlot ensures Storable(AgentValue(ParsedAgent(description), s)) {
      AgentOfValue(AGENT.Collect(lines), s);
    }
  }

  lemma AgentTextReads(f: AgentFields, s: AgentSlot)
    ensures ReadAgent(AgentTexts(f)(s)) == if s == Mode && f.mode == "" then map[] else map[s := Trim(Shown(f, s))]
    ensures '\n' !in AgentValue(f, s) ==> '\n' !in AgentTexts(f)(s)
  {
    if s == Mode && f.mode == "" {
      ReadBlankLine(AgentKey, Anything, "");
    } else {
      AgentNamesRead(s);
      ReadFieldLine(AgentKey, Anything, AgentName(s), Some(s), Shown(f, s));
      ShownKeepsLine(f, s);
      hide AgentKey, AgentName, PlainKey, FieldLine, Shown, ReadWith;
    }
  }

  lemma ShownKeepsLine(f: AgentFields, s: AgentSlot)
    ensures '\n' !in AgentValue(f, s) ==> '\n' !in Shown(f, s)
  {
    hide AgentValue;
  }

  lemma AllAgentSlots(s: AgentSlot)
    ensures s in AGENT_ORDER
  {
    var o := AGENT_ORDER;
    assert o[0] == RoleType && o[1] == Rig && o[2] == AgentState && o[3] == HookBead && o[4] == CleanupStatus
      && o[5] == ActiveMR && o[6] == NotificationLevel && o[7] == Mode;
  }

  lemma AgentLinesRead(f: AgentFields)
    ensures var m := AGENT.Collect(AgentLines(f));
      forall s: AgentSlot :: if s == Mode && f.mode == "" then s !in m else s in m && m[s] == Trim(Shown(f, s))
  {
    AgentSound();
    var text, m := AgentTexts(f), AGENT.Collect(AgentLines(f));
    forall s | s in AGENT_ORDER ensures ReadAgent(text(s)).Keys <= {s} { AgentTextReads(f, s); }
    AGENT.CollectSlots(AGENT_ORDER, text);
    forall s: AgentSlot ensures if s == Mode && f.mode == "" then s !in m else s in m && m[s] == Trim(Shown(f, s)) {
      AgentTextReads(f, s);
      AllAgentSlots(s);
    }
  }

  lemma LinesOfFormatted(title: string, f: AgentFields)
    requires forall s: AgentSlot :: '\n' !in AgentValue(f, s)
    ensures Split(Formatted(title, Some(f)), '\n') == Split(title, '\n') + [""] + AgentLines(f)
  {
    SlotLinesMembers(AGENT_ORDER, AgentTexts(f));
    forall line | line in AgentLines(f) ensures '\n' !in line {
      var s :| s in AGENT_ORDER && AgentTexts(f)(s) == line;
      AgentTextReads(f, s);
    }
    LinesUnderTitle(title, AgentLines(f));
  }

  lemma CollectFormatted(title: string, f: AgentFields)
    requires forall t: AgentSlot :: '\n' !in AgentValue(f, t)
    ensures AGENT.Collect(Split(Formatted(title, Some(f)), '\n')) ==
      AGENT.Collect(Split(title, '\n')) + AGENT.Collect(AgentLines(f))
  {
    AgentSound();
    AGENT.CollectNothing([""]);
    AGENT.Surrounded(Split(title, '\n'), [""], AgentLines(f));
    LinesOfFormatted(title, f);
  }

  /** What a formatted description says: each field, except that a mode line in the title shows through when the
      mode is empty. */
  lemma FormattedValues(title: string, f: AgentFields, s: AgentSlot)
    requires forall t: AgentSlot :: '\n' !in AgentValue(f, t)
    ensures AgentValue(ParsedAgent(Formatted(title, Some(f))), s) ==
      if s == Mode && f.mode == "" then ParsedAgent(title).mode else Denull(Trim(AgentValue(f, s)))
  {
    var top, m := AGENT.Collect(Split(title, '\n')), AGENT.Collect(AgentLines(f));
    assert AgentValue(ParsedAgent(Formatted(title, Some(f))), s) == Denull(Get(top + m, s)) by {
      CollectFormatted(title, f);
      AgentOfValue(top + m, s);
    }
    AgentLinesRead(f);
    if s == Mode && f.mode == "" {
      assert Get(top + m, s) == Get(top, s);
      AgentOfValue(top, s);
    } else {
      assert (top + m)[s] == m[s] == Trim(Shown(f, s));
      ShownDenulls(f, s);
    }
  }

  lemma ShownDenulls(f: AgentFields, s: AgentSlot)
    ensures Denull(Trim(Shown(f, s))) == Denull(Trim(AgentValue(f, s)))
  {
    TrimFixed("null");
  }

  /** Format-parse, exactly and for every title: the fields come back if and only if each value is storable and the
      title does not smuggle in a mode that the fields leave empty. */
  lemma FormatParse(title: string, f: AgentFields)
    ensures ParsedAgent(Formatted(title, Some(f))) == f
      <==> StorableFields(f) && (f.mode != "" || ParsedAgent(title).mode == "")
  {
    hide ParsedAgent, Formatted, Trim;
    ParsedIsStorable(Formatted(title, Some(f)));
    if StorableFields(f) {
      forall s: AgentSlot ensures AgentValue(ParsedAgent(Formatted(title, Some(f))), s) ==
          if s == Mode && f.mode == "" then ParsedAgent(title).mode else AgentValue(f, s) {
        assert Storable(AgentValue(f, s));
        FormattedValues(title, f, s);
        TrimFixed(AgentValue(f, s));
      }
      if f.mode != "" || ParsedAgent(title).mode == "" {
        SameFields(ParsedAgent(Formatted(title, Some(f))), f);
      } else {
        assert AgentValue(ParsedAgent(Formatted(title, Some(f))), Mode) == ParsedAgent(title).mode;
      }
    }
  }
}
