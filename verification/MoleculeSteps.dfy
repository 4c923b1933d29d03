/** Step definitions embedded in a molecule's description.  (internal/beads/molecule.go, ParseMoleculeSteps) */
module MoleculeSteps {
  import opened Text
  import Backoff

  datatype Step = Step(
    ref: string, title: string, instructions: string, needs: seq<string>, waitsFor: seq<string>,
    tier: string, kind: string, backoff: Option<Backoff.Config>)

  // ---------- Line classification: the regular expressions ----------

  /** \s of Go's regexp package. */
  predicate ReSpace(c: char) {
    c == ' ' || c == '\t' || c == '\n' || c == '\U{C}' || c == '\r'
  }

  /** Characters that (?i) identifies with an ASCII letter. */
  function Fold(c: char): char {
    if 'A' <= c <= 'Z' then c + 32 as char
    else if c == '\U{17F}' then 's'
    else if c == '\U{212A}' then 'k'
    else c
  }

  /** s starts with the lower-case ASCII word, ignoring case. */
  predicate FoldPrefix(s: string, word: string) {
    |word| <= |s| && forall i | 0 <= i < |word| :: Fold(s[i]) == word[i]
  }

  function SkipSpace(s: string): string {
    if s != "" && ReSpace(s[0]) then SkipSpace(s[1..]) else s
  }

  function DropSpace(s: string): string {
    if s != "" && ReSpace(s[|s| - 1]) then DropSpace(s[..|s| - 1]) else s
  }

  function Strip(s: string): string {
    DropSpace(SkipSpace(s))
  }

  predicate OneWord(s: string) {
    s != "" && forall i | 0 <= i < |s| :: !ReSpace(s[i])
  }

  predicate WordChar(c: char) {
    '0' <= c <= '9' || 'A' <= c <= 'Z' || 'a' <= c <= 'z' || c == '_' || c == '\U{17F}' || c == '\U{212A}'
  }

  /** The step reference of a "## Step: <ref>" line. */
  function Header(line: string): Option<string> {
    if |line| < 2 || line[..2] != "##" then None
    else
      var rest := SkipSpace(line[2..]);
      if FoldPrefix(rest, "step:") && OneWord(Strip(rest[5..])) then Some(Strip(rest[5..])) else None
  }

  datatype LineKind =
    | NeedsLine(items: seq<string>)
    | TierLine(tier: string)
    | WaitsForLine(items: seq<string>)
    | TypeLine(kind: string)
    | BackoffLine(config: string)
    | Prose

  /** Comma-separated items, trimmed, empty ones dropped. */
  function Items(parts: seq<string>): seq<string> {
    if parts == [] then []
    else
      var item := Trim(parts[|parts| - 1]);
      Items(parts[..|parts| - 1]) + if item != "" then [item] else []
  }

  /** The kind of a trimmed content line, first matching expression first. */
  function Classify(t: string): LineKind {
    if FoldPrefix(t, "needs:") && |t| > 6 then NeedsLine(Items(Split(SkipSpace(t[6..]), ',')))
    else if FoldPrefix(t, "tier:") && IsTier(Strip(t[5..])) then TierLine(Lower(Strip(t[5..])))
    else if FoldPrefix(t, "waitsfor:") && |t| > 9 then WaitsForLine(Items(Split(SkipSpace(t[9..]), ',')))
    else if FoldPrefix(t, "type:") && IsWord(Strip(t[5..])) then TypeLine(Lower(Strip(t[5..])))
    else if FoldPrefix(t, "backoff:") && |t| > 8 then BackoffLine(SkipSpace(t[8..]))
    else Prose
  }

  predicate IsTier(s: string) {
    || (|s| == 5 && FoldPrefix(s, "haiku"))
    || (|s| == 6 && FoldPrefix(s, "sonnet"))
    || (|s| == 4 && FoldPrefix(s, "opus"))
  }

  predicate IsWord(s: string) {
    s != "" && forall i | 0 <= i < |s| :: WordChar(s[i])
  }

  // ---------- Sections and steps ----------

  datatype Section = Section(ref: string, content: seq<string>)

  /** The step sections of a text: each header opens one, other lines go to the open one. */
  function Sections(lines: seq<string>, header: string -> Option<string>): seq<Section> {
    if lines == [] then []
    else Extend(Sections(lines[..|lines| - 1], header), lines[|lines| - 1], header(lines[|lines| - 1]))
  }

  function Extend(sections: seq<Section>, line: string, header: Option<string>): seq<Section> {
    var k := |sections| - 1;
    match header
    case Some(ref) => sections + [Section(ref, [])]
    case None =>
      if k < 0 then [] else sections[..k] + [sections[k].(content := sections[k].content + [line])]
  }

  datatype Draft = Draft(
    needs: seq<string>, waitsFor: seq<string>, tier: string, kind: string, backoff: Option<Backoff.Config>, prose: seq<string>)

  const EMPTY_DRAFT := Draft([], [], "", "", None, [])

  function Absorb(d: Draft, line: string): Draft {
    match Classify(Trim(line))
    case NeedsLine(items) => d.(needs := d.needs + items)
    case TierLine(t) => d.(tier := t)
    case WaitsForLine(items) => d.(waitsFor := d.waitsFor + items)
    case TypeLine(k) => d.(kind := k)
    case BackoffLine(c) => d.(backoff := Backoff.Parsed(c))
    case Prose => d.(prose := d.prose + [line])
  }

  function AbsorbAll(content: seq<string>): Draft {
    if content == [] then EMPTY_DRAFT
    else Absorb(AbsorbAll(content[..|content| - 1]), content[|content| - 1])
  }

  function Finish(ref: string, d: Draft): Step {
    var instructions := Trim(Join(d.prose, '\n'));
    var title := Trim(Split(instructions, '\n')[0]);
    Step(ref, if title == "" then ref else title, instructions, d.needs, d.waitsFor, d.tier, d.kind, d.backoff)
  }

  function StepOf(s: Section): Step {
    Finish(s.ref, AbsorbAll(s.content))
  }

  function Mapped<A, B>(s: seq<A>, f: A -> B): (r: seq<B>)
    ensures |r| == |s| && forall i | 0 <= i < |s| :: r[i] == f(s[i])
  {
    seq(|s|, i requires 0 <= i < |s| => f(s[i]))
  }

  function ParsedSteps(description: string): seq<Step> {
    Mapped(Sections(Split(description, '\n'), Header), StepOf)
  }

  // ---------- The parser ----------

  method FinalizeStep(ref: string, contentLines: seq<string>) returns (step: Step)
    ensures step == StepOf(Section(ref, contentLines))
  {
    var needs: seq<string>, waitsFor: seq<string>, prose: seq<string> := [], [], [];
    var tier, kind := "", "";
    var backoff: Option<Backoff.Config> := None;
    for i := 0 to |contentLines|
      invariant Draft(needs, waitsFor, tier, kind, backoff, prose) == AbsorbAll(contentLines[..i])
    {
      assert contentLines[..i + 1][..i] == contentLines[..i];
      match Classify(Trim(contentLines[i]))
      case NeedsLine(items) => needs := needs + items;
      case TierLine(t) => tier := t;
      case WaitsForLine(items) => waitsFor := waitsFor + items;
      case TypeLine(k) => kind := k;
      case BackoffLine(c) => backoff := Backoff.ParseBackoffConfig(c);
      case Prose => prose := prose + [contentLines[i]];
    }
    assert contentLines[..|contentLines|] == contentLines;
    var instructions := Trim(Join(prose, '\n'));
    var title := "";
    if instructions != "" {
      title := Trim(Split(instructions, '\n')[0]);
    }
    if title == "" {
      title := ref;
    }
    step := Step(ref, title, instructions, needs, waitsFor, tier, kind, backoff);
  }

  method ParseMoleculeSteps(description: string) returns (steps: seq<Step>)
    ensures steps == ParsedSteps(description)
  {
    steps := [];
    if description == "" {
      assert Sections([""], Header) == [] by { assert Sections([""][..0], Header) == []; }
      return;
    }
    hide StepOf, Header, Sections, Collected;
    var lines := Split(description, '\n');
    var currentRef: Option<string> := None;
    var contentLines: seq<string> := [];
    NothingCollected();
    assert lines[..0] == [];
    for i := 0 to |lines|
      invariant Collected(Sections(lines[..i], Header), steps, currentRef, contentLines)
    {
      NextLineCollected(lines, i, steps, currentRef, contentLines);
      var header := Header(lines[i]);
      match header
      case Some(ref) =>
        if currentRef.Some? {
          var step := FinalizeStep(currentRef.value, contentLines);
          steps := steps + [step];
        }
        currentRef, contentLines := Some(ref), [];
      case None =>
        if currentRef.Some? {
          contentLines := contentLines + [lines[i]];
        }
    }
    assert lines[..|lines|] == lines;
    AllCollected(Sections(lines, Header), steps, currentRef, contentLines);
    if currentRef.Some? {
      var step := FinalizeStep(currentRef.value, contentLines);
      steps := steps + [step];
    }
  }

  /** The parser's loop state: finished steps, and the section still open. */
  ghost predicate Collected(
    sections: seq<Section>, steps: seq<Step>, currentRef: Option<string>, contentLines: seq<string>)
  {
    if currentRef.None? then sections == [] && steps == []
    else
      && |sections| == |steps| + 1 && sections[|steps|] == Section(currentRef.value, contentLines)
      && forall i | 0 <= i < |steps| :: steps[i] == StepOf(sections[i])
  }

  lemma NothingCollected()
    ensures Collected(Sections([], Header), [], None, [])
  {
  }

  /** A header finishes the open step and opens the next; another line goes to the open step. */
  lemma NextLineCollected(
    lines: seq<string>, i: nat, steps: seq<Step>, currentRef: Option<string>, contentLines: seq<string>)
    requires i < |lines| && Collected(Sections(lines[..i], Header), steps, currentRef, contentLines)
    ensures var sections := Sections(lines[..i + 1], Header);
      match Header(lines[i])
      case Some(ref) =>
        Collected(sections,
                  if currentRef.Some? then steps + [StepOf(Section(currentRef.value, contentLines))] else steps,
                  Some(ref), [])
      case None =>
        Collected(sections, steps, currentRef,
                  if currentRef.Some? then contentLines + [lines[i]] else contentLines)
  {
    hide StepOf, Header;
    assert lines[..i + 1][..i] == lines[..i];
  }

  lemma AllCollected(sections: seq<Section>, steps: seq<Step>, currentRef: Option<string>, contentLines: seq<string>)
    requires Collected(sections, steps, currentRef, contentLines)
    ensures Mapped(sections, StepOf) ==
      if currentRef.Some? then steps + [StepOf(Section(currentRef.value, contentLines))] else steps
  {
    hide StepOf;
  }

  // ---------- What the format means ----------

  function HeaderRefs(lines: seq<string>, header: string -> Option<string>): seq<string> {
    if lines == [] then []
    else
      var last := header(lines[|lines| - 1]);
      HeaderRefs(lines[..|lines| - 1], header) + if last.Some? then [last.value] else []
  }

  lemma {:induction false} SectionsAreHeaders(lines: seq<string>, header: string -> Option<string>)
    ensures |Sections(lines, header)| == |HeaderRefs(lines, header)|
    ensures forall i | 0 <= i < |Sections(lines, header)| ::
      Sections(lines, header)[i].ref == HeaderRefs(lines, header)[i]
  {
    if lines != [] {
      SectionsAreHeaders(lines[..|lines| - 1], header);
    }
  }

  lemma {:induction false} HeaderRefsAreWords(lines: seq<string>)
    ensures forall r <- HeaderRefs(lines, Header) :: OneWord(r)
  {
    if lines != [] {
      HeaderRefsAreWords(lines[..|lines| - 1]);
    }
  }

  /** The steps are the headers, in order, and every step has a one-word reference. */
  lemma StepsAreHeaders(description: string)
    ensures var steps, refs := ParsedSteps(description), HeaderRefs(Split(description, '\n'), Header);
      |steps| == |refs| && forall i | 0 <= i < |steps| :: steps[i].ref == refs[i] && OneWord(steps[i].ref)
  {
    var lines := Split(description, '\n');
    SectionsAreHeaders(lines, Header);
    HeaderRefsAreWords(lines);
  }

  // ---------- What a step says ----------

  /** The first line that is not blank, trimmed; "" when there is none. */
  function FirstShown(lines: seq<string>): string {
    if lines == [] then "" else if Blank(lines[0]) then FirstShown(lines[1..]) else Trim(lines[0])
  }

  /** The first piece of the beginning of a text lies in the text's first line. */
  lemma FirstPiece(x: string, line: string, rest: string)
    requires '\n' !in line && x <= line + ['\n'] + rest
    ensures Split(x, '\n')[0] <= line
  {
    hide Split;
    if |x| <= |line| {
      assert x <= line;
      SplitWhole(x, '\n');
    } else {
      assert x == line + ['\n'] + x[|line| + 1..];
      SplitAppend(line, x[|line| + 1..], '\n');
      SplitWhole(line, '\n');
    }
  }

  /** The first line of a trimmed text that opens with a line that is not blank. */
  lemma FirstOfTrimmed(line: string, rest: string)
    requires '\n' !in line && !Blank(line)
    ensures Trim(line + ['\n'] + rest) != "" && Trim(Split(Trim(line + ['\n'] + rest), '\n')[0]) == Trim(line)
  {
    var front, back := TrimAround(line);
    var word, tail := Trim(line), back + ['\n'] + rest;
    TrimIsTrimmed(line);
    assert line + ['\n'] + rest == front + (word + tail);
    TrimLeftSpaces(front, word + tail);
    assert TrimLeft(word + tail) == word + tail by { assert (word + tail)[0] == word[0]; }
    TrimRightAppend(word, tail);
    TrimRightShape(tail);
    FirstPiece(TrimRight(tail), back, rest);
    SplitPrefixed(word, TrimRight(tail), '\n');
    var spaces := Split(TrimRight(tail), '\n')[0];
    hide Split;
    assert TrimLeft(word + spaces) == word + spaces by { assert (word + spaces)[0] == word[0]; }
    TrimRightSpaces(word, spaces);
  }

  lemma BlankInFront(line: string, rest: string)
    requires Blank(line)
    ensures Trim(line + ['\n'] + rest) == Trim(rest)
  {
    var front, back := TrimAround(line);
    assert line + ['\n'] + rest == (line + ['\n']) + rest;
    TrimLeftSpaces(line + ['\n'], rest);
  }

  /** The title line is the first line of the prose that is not blank. */
  lemma {:induction false} TitleOfProse(prose: seq<string>)
    requires forall i | 0 <= i < |prose| :: '\n' !in prose[i]
    ensures var instructions := Trim(Join(prose, '\n'));
      Trim(Split(instructions, '\n')[0]) == FirstShown(prose) && (instructions == "" <==> FirstShown(prose) == "")
  {
    if prose == [] {
    } else if |prose| == 1 {
      TrimIsTrimmed(prose[0]);
      TrimFixed(Trim(prose[0]));
      SplitWhole(Trim(prose[0]), '\n');
    } else if Blank(prose[0]) {
      TitleOfProse(prose[1..]);
      BlankInFront(prose[0], Join(prose[1..], '\n'));
    } else {
      FirstOfTrimmed(prose[0], Join(prose[1..], '\n'));
    }
  }

  /** An entry of a comma-separated line. */
  predicate IsItem(s: string) {
    s != "" && Trimmed(s) && ',' !in s
  }

  lemma {:induction false} ItemsMembers(parts: seq<string>, item: string)
    ensures item in Items(parts) <==> item != "" && exists i :: 0 <= i < |parts| && Trim(parts[i]) == item
  {
    if parts != [] {
      var n := |parts| - 1;
      ItemsMembers(parts[..n], item);
      hide Trim;
      if i :| 0 <= i < |parts| && Trim(parts[i]) == item { assert i < n ==> parts[..n][i] == parts[i]; }
    }
  }

  lemma ItemsAreItems(parts: seq<string>)
    requires forall i | 0 <= i < |parts| :: ',' !in parts[i]
    ensures forall k | 0 <= k < |Items(parts)| :: IsItem(Items(parts)[k])
  {
    hide Items, Trim, Trimmed;
    forall k | 0 <= k < |Items(parts)| ensures IsItem(Items(parts)[k]) {
      var item := Items(parts)[k];
      ItemsMembers(parts, item);
      var i :| 0 <= i < |parts| && Trim(parts[i]) == item;
      TrimIsTrimmed(parts[i]);
    }
  }

  /** What a content line contributes. */
  predicate Contributes(kind: LineKind) {
    match kind
    case NeedsLine(items) => forall k | 0 <= k < |items| :: IsItem(items[k])
    case WaitsForLine(items) => forall k | 0 <= k < |items| :: IsItem(items[k])
    case TierLine(tier) => IsTier(tier)
    case TypeLine(kind) => IsWord(kind)
    case _ => true
  }

  /** Lower-casing keeps what an expression without case has matched. */
  lemma LowerKeepsPrefix(s: string, word: string)
    requires FoldPrefix(s, word) && forall i | 0 <= i < |word| :: 'a' <= word[i] <= 'z'
    ensures FoldPrefix(Lower(s), word)
  {
    forall i | 0 <= i < |word| ensures Fold(Lower(s)[i]) == word[i] {
      assert Fold(s[i]) == word[i];
    }
  }

  lemma LowerKeepsTier(s: string)
    requires IsTier(s)
    ensures IsTier(Lower(s))
  {
    hide FoldPrefix, Lower;
    if |s| == 5 { LowerKeepsPrefix(s, "haiku"); }
    else if |s| == 6 { LowerKeepsPrefix(s, "sonnet"); }
    else { LowerKeepsPrefix(s, "opus"); }
  }

  lemma LowerKeepsWord(s: string)
    requires IsWord(s)
    ensures IsWord(Lower(s))
  {
  }

  lemma LineContributes(t: string)
    ensures Contributes(Classify(t))
  {
    hide Split, Items, IsItem, IsTier, IsWord, Strip, SkipSpace, Lower;
    if Classify(t).TierLine? {
      LowerKeepsTier(Strip(t[5..]));
    } else if Classify(t).TypeLine? {
      LowerKeepsWord(Strip(t[5..]));
    } else if Classify(t).NeedsLine? {
      ItemsAreItems(Split(SkipSpace(t[6..]), ','));
    } else if Classify(t).WaitsForLine? {
      ItemsAreItems(Split(SkipSpace(t[9..]), ','));
    }
  }

  /** The needs of a step are entries of its needs lines and of no other line, and so for what it waits for. */
  lemma {:induction false} AbsorbedFrom(content: seq<string>, item: string)
    ensures item in AbsorbAll(content).needs <==> SomeLine(content, line => NeedsOf(line, item))
    ensures item in AbsorbAll(content).waitsFor <==> SomeLine(content, line => WaitsOf(line, item))
  {
    if content != [] {
      var n := |content| - 1;
      AbsorbedFrom(content[..n], item);
      AbsorbOne(AbsorbAll(content[..n]), content[n], item);
      SomeLineSnoc(content, line => NeedsOf(line, item));
      SomeLineSnoc(content, line => WaitsOf(line, item));
      hide Absorb, NeedsOf, WaitsOf, SomeLine;
    }
  }

  ghost predicate SomeLine(content: seq<string>, holds: string -> bool) {
    exists i :: 0 <= i < |content| && holds(content[i])
  }

  lemma SomeLineSnoc(content: seq<string>, holds: string -> bool)
    requires content != []
    ensures var n := |content| - 1; SomeLine(content, holds) <==> SomeLine(content[..n], holds) || holds(content[n])
  {
    var n := |content| - 1;
    if i :| 0 <= i < |content| && holds(content[i]) { assert i < n ==> holds(content[..n][i]); }
    if i :| 0 <= i < n && holds(content[..n][i]) { assert holds(content[i]); }
  }

  lemma AbsorbOne(d: Draft, line: string, item: string)
    ensures item in Absorb(d, line).needs <==> item in d.needs || NeedsOf(line, item)
    ensures item in Absorb(d, line).waitsFor <==> item in d.waitsFor || WaitsOf(line, item)
  {
    hide Classify, Trim;
  }

  predicate NeedsOf(line: string, need: string) {
    var kind := Classify(Trim(line));
    kind.NeedsLine? && need in kind.items
  }

  predicate WaitsOf(line: string, condition: string) {
    var kind := Classify(Trim(line));
    kind.WaitsForLine? && condition in kind.items
  }

  /** What drafts and steps of any content keep. */
  predicate Clean(needs: seq<string>, waitsFor: seq<string>, tier: string, kind: string) {
    && (forall k | 0 <= k < |needs| :: IsItem(needs[k])) && (forall k | 0 <= k < |waitsFor| :: IsItem(waitsFor[k]))
    && (tier == "" || IsTier(tier)) && (kind == "" || IsWord(kind))
  }

  lemma {:induction false} DraftIsClean(content: seq<string>)
    ensures var d := AbsorbAll(content); Clean(d.needs, d.waitsFor, d.tier, d.kind)
  {
    if content != [] {
      DraftIsClean(content[..|content| - 1]);
      AbsorbIsClean(AbsorbAll(content[..|content| - 1]), content[|content| - 1]);
      hide Absorb, Clean;
    }
  }

  lemma AbsorbIsClean(d: Draft, line: string)
    requires Clean(d.needs, d.waitsFor, d.tier, d.kind)
    ensures var e := Absorb(d, line); Clean(e.needs, e.waitsFor, e.tier, e.kind)
  {
    LineContributes(Trim(line));
    hide Classify, Trim, IsItem, IsTier, IsWord;
  }

  lemma {:induction false} ProseIsLines(content: seq<string>)
    ensures forall k | 0 <= k < |AbsorbAll(content).prose| :: AbsorbAll(content).prose[k] in content
  {
    hide Classify, Trim;
    if content != [] { ProseIsLines(content[..|content| - 1]); }
  }

  /** A step made of lines: its title is the first prose line that is not blank, or else the reference; the
      instructions are trimmed; and every need and condition is a trimmed, non-empty, comma-free entry of its line. */
  lemma StepSays(ref: string, content: seq<string>)
    requires forall i | 0 <= i < |content| :: '\n' !in content[i]
    ensures var step, d := StepOf(Section(ref, content)), AbsorbAll(content);
      && step.title == (if FirstShown(d.prose) == "" then ref else FirstShown(d.prose))
      && (step.instructions == "" <==> FirstShown(d.prose) == "") && Trimmed(step.instructions)
      && Clean(step.needs, step.waitsFor, step.tier, step.kind)
      && step.ref == ref && step.tier == d.tier && step.kind == d.kind && step.backoff == d.backoff
      && (forall n :: n in step.needs <==> SomeLine(content, line => NeedsOf(line, n)))
      && (forall w :: w in step.waitsFor <==> SomeLine(content, line => WaitsOf(line, w)))
  {
    var d := AbsorbAll(content);
    DraftIsClean(content);
    ProseIsLines(content);
    forall item { AbsorbedFrom(content, item); }
    TitleOfProse(d.prose);
    TrimIsTrimmed(Join(d.prose, '\n'));
    hide AbsorbAll, Trim, Trimmed, Join, Split, FirstShown, Clean, NeedsOf, WaitsOf, SomeLine;
  }

  lemma {:induction false} ContentIsLines(lines: seq<string>, header: string -> Option<string>)
    ensures forall k, i | 0 <= k < |Sections(lines, header)| && 0 <= i < |Sections(lines, header)[k].content| ::
      Sections(lines, header)[k].content[i] in lines
  {
    if lines != [] { ContentIsLines(lines[..|lines| - 1], header); }
  }

  lemma {:induction false} FirstShownIsLine(lines: seq<string>)
    requires forall i | 0 <= i < |lines| :: '\n' !in lines[i]
    ensures '\n' !in FirstShown(lines)
  {
    if lines != [] {
      TrimIsTrimmed(lines[0]);
      FirstShownIsLine(lines[1..]);
    }
  }

  /** Of any text: every step has a title of one non-empty line, trimmed instructions, and needs and conditions that
      are trimmed, non-empty and free of commas. */
  lemma StepsAreClean(description: string)
    ensures forall k | 0 <= k < |ParsedSteps(description)| ::
      var step := ParsedSteps(description)[k];
      && step.title != "" && '\n' !in step.title && Trimmed(step.instructions)
      && Clean(step.needs, step.waitsFor, step.tier, step.kind)
  {
    var lines := Split(description, '\n');
    var sections := Sections(lines, Header);
    ContentIsLines(lines, Header);
    StepsAreHeaders(description);
    hide Sections, Header, Clean, Trimmed, Finish, Split;
    forall k | 0 <= k < |sections|
      ensures var step := StepOf(sections[k]);
        && step.title != "" && '\n' !in step.title && Trimmed(step.instructions)
        && Clean(step.needs, step.waitsFor, step.tier, step.kind)
    {
      var ref, content := sections[k].ref, sections[k].content;
      StepSays(ref, content);
      assert ParsedSteps(description)[k] == StepOf(sections[k]);
      ProseIsLines(content);
      FirstShownIsLine(AbsorbAll(content).prose);
    }
  }

  lemma ExtendAppend(sa: seq<Section>, sb: seq<Section>, line: string, header: Option<string>)
    requires sb != [] || header.Some?
    ensures Extend(sa + sb, line, header) == sa + Extend(sb, line, header)
    ensures Extend(sb, line, header) != []
  {
    if header.None? {
      assert (sa + sb)[..|sa + sb| - 1] == sa + sb[..|sb| - 1];
    }
  }

  lemma {:induction false} SectionsAppend(a: seq<string>, b: seq<string>, header: string -> Option<string>)
    requires b != [] && header(b[0]).Some?
    ensures Sections(b, header) != []
    ensures Sections(a + b, header) == Sections(a, header) + Sections(b, header)
    decreases |b|
  {
    var k := |b| - 1;
    var front := b[..k];
    if k == 0 {
      assert a + front == a && Sections(front, header) == [];
    } else {
      SectionsAppend(a, front, header);
    }
    SectionsSnoc(a + b, header);
    SectionsSnoc(b, header);
    assert (a + b)[..|a + b| - 1] == a + front;
    hide Sections, Extend;
    ExtendAppend(Sections(a, header), Sections(front, header), b[k], header(b[k]));
  }

  lemma SectionsSnoc(lines: seq<string>, header: string -> Option<string>)
    requires lines != []
    ensures var k := |lines| - 1; Sections(lines, header) == Extend(Sections(lines[..k], header), lines[k], header(lines[k]))
  {
  }

  /** Descriptions compose: appending a text that opens with a step header appends its steps, and leaves
      the steps already there as they were. */
  lemma DescriptionsCompose(a: string, b: string)
    requires Header(Split(b, '\n')[0]).Some?
    ensures ParsedSteps(a + "\n" + b) == ParsedSteps(a) + ParsedSteps(b)
  {
    SplitAppend(a, b, '\n');
    SectionsAppend(Split(a, '\n'), Split(b, '\n'), Header);
  }
}
