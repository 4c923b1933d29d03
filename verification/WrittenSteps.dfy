/** Steps written in the documented format, and what reads them back: the parser's regular expressions and its
    writer's side.  (internal/beads/molecule.go, the expressions and the comment of ParseMoleculeSteps) */
module WrittenSteps {
  import opened Text
  import opened MoleculeSteps
  import Backoff

  // ---------- The documented format ----------

  /** The keywords as somebody spells them. */
  datatype Spelling = Spelling(step: string, needs: string, waitsFor: string, tier: string, kind: string, backoff: string)

  const DOCUMENTED := Spelling("Step:", "Needs:", "WaitsFor:", "Tier:", "Type:", "Backoff:")

  /** The same word but for the case of its letters. */
  predicate SpelledAs(s: string, word: string) {
    |s| == |word| && forall i | 0 <= i < |word| :: s[i] == word[i] || ('A' <= s[i] <= 'Z' && s[i] + 32 as char == word[i])
  }

  predicate Spells(k: Spelling) {
    && SpelledAs(k.step, "step:") && SpelledAs(k.needs, "needs:") && SpelledAs(k.waitsFor, "waitsfor:")
    && SpelledAs(k.tier, "tier:") && SpelledAs(k.kind, "type:") && SpelledAs(k.backoff, "backoff:")
  }

  type Spelled = k: Spelling | Spells(k) witness DOCUMENTED

  function Listed(items: seq<string>): string {
    if items == [] then "" else if |items| == 1 then items[0]
    else Listed(items[..|items| - 1]) + [','] + (" " + items[|items| - 1])
  }

  function If(present: bool, line: string): seq<string> {
    if present then [line] else []
  }

  function BackoffText(c: Backoff.Config): string
    requires c.multiplier >= 0
  {
    Backoff.Written(c.base, c.multiplier, c.max)
  }

  function ProseOf(s: Step): seq<string> {
    if s.instructions == "" then [] else Split(s.instructions, '\n')
  }

  /** The lines under a header: the prose, then one line for each thing the step says. */
  function ContentLines(k: Spelled, s: WritableStep): seq<string>
  {
    ProseOf(s)
    + If(s.needs != [], k.needs + " " + Listed(s.needs))
    + If(s.waitsFor != [], k.waitsFor + " " + Listed(s.waitsFor))
    + If(s.tier != "", k.tier + " " + s.tier)
    + If(s.kind != "", k.kind + " " + s.kind)
    + If(s.backoff.Some?, k.backoff + " " + if s.backoff.Some? then BackoffText(s.backoff.value) else "")
  }

  function HeaderLine(k: Spelled, ref: string): string {
    "##" + " " + k.step + " " + ref
  }

  function WrittenLines(k: Spelled, steps: seq<WritableStep>): seq<string>
  {
    if steps == [] then []
    else
      var s := steps[|steps| - 1];
      WrittenLines(k, steps[..|steps| - 1]) + ([HeaderLine(k, s.ref)] + ContentLines(k, s))
  }

  function Written(k: Spelled, steps: seq<WritableStep>): string
  {
    Join(WrittenLines(k, steps), '\n')
  }

  // ---------- What can be written ----------

  /** A trimmed line that one of the expressions for content lines matches. */
  predicate Keyworded(t: string) {
    || (FoldPrefix(t, "needs:") && |t| > 6) || (FoldPrefix(t, "waitsfor:") && |t| > 9)
    || (FoldPrefix(t, "backoff:") && |t| > 8)
    || (FoldPrefix(t, "tier:") && IsTier(Strip(t[5..]))) || (FoldPrefix(t, "type:") && IsWord(Strip(t[5..])))
  }

  predicate IsProse(line: string) {
    Header(line).None? && !Keyworded(Trim(line))
  }

  /** An entry that stays one: on one line, trimmed, without a comma. */
  predicate IsEntry(s: string) {
    IsItem(s) && '\n' !in s
  }

  type Entry = s: string | IsEntry(s) witness "a"

  type Tier = s: string | s == "" || s == "haiku" || s == "sonnet" || s == "opus"

  type Kind = s: string | s == "" || (IsWord(s) && IsLower(s))

  predicate WritableBackoff(c: Backoff.Config) {
    && c.base != "" && Trimmed(c.base) && Trimmed(c.max) && ',' !in c.base && ',' !in c.max
    && '\n' !in c.base && '\n' !in c.max && 0 <= c.multiplier <= MAX_INT64
  }

  type Interval = c: Backoff.Config | WritableBackoff(c) witness Backoff.Config("1s", 2, "")

  predicate Writable(s: Step) {
    && OneWord(s.ref) && Trimmed(s.instructions)
    && s.title == (if s.instructions == "" then s.ref else Trim(Split(s.instructions, '\n')[0]))
    && (forall i | 0 <= i < |ProseOf(s)| :: IsProse(ProseOf(s)[i]))
    && (forall i | 0 <= i < |s.needs| :: IsEntry(s.needs[i])) && (forall i | 0 <= i < |s.waitsFor| :: IsEntry(s.waitsFor[i]))
    && (s.tier == "" || s.tier == "haiku" || s.tier == "sonnet" || s.tier == "opus")
    && (s.kind == "" || (IsWord(s.kind) && IsLower(s.kind)))
    && (s.backoff.Some? ==> WritableBackoff(s.backoff.value))
  }

  type WritableStep = s: Step | Writable(s) witness Step("a", "a", "", [], [], "", "", None)

  // ---------- The expressions, read off the text ----------

  predicate ReSpaces(s: string) {
    forall i | 0 <= i < |s| :: ReSpace(s[i])
  }

  lemma {:induction false} SkipSpaces(front: string, rest: string)
    requires ReSpaces(front) && (rest != "" ==> !ReSpace(rest[0]))
    ensures SkipSpace(front + rest) == rest
  {
    if front == "" { assert front + rest == rest; }
    else {
      SkipSpaces(front[1..], rest);
      assert (front + rest)[1..] == front[1..] + rest;
    }
  }

  lemma {:induction false} DropSpaces(front: string, back: string)
    requires ReSpaces(back) && (front != "" ==> !ReSpace(front[|front| - 1]))
    ensures DropSpace(front + back) == front
  {
    if back == "" { assert front + back == front; }
    else {
      DropSpaces(front, back[..|back| - 1]);
      assert (front + back)[..|front + back| - 1] == front + back[..|back| - 1];
    }
  }

  lemma StripAround(front: string, word: string, back: string)
    requires ReSpaces(front) && ReSpaces(back) && OneWord(word)
    ensures Strip(front + word + back) == word
  {
    assert front + word + back == front + (word + back);
    SkipSpaces(front, word + back);
    DropSpaces(word, back);
  }

  lemma {:induction false} Skipped(s: string) returns (front: string)
    ensures s == front + SkipSpace(s) && ReSpaces(front)
    ensures SkipSpace(s) != "" ==> !ReSpace(SkipSpace(s)[0])
  {
    front := "";
    if s != "" && ReSpace(s[0]) {
      var rest := Skipped(s[1..]);
      front := [s[0]] + rest;
      assert s == [s[0]] + s[1..];
    }
  }

  lemma {:induction false} Dropped(s: string) returns (back: string)
    ensures s == DropSpace(s) + back && ReSpaces(back)
  {
    back := "";
    if s != "" && ReSpace(s[|s| - 1]) {
      var rest := Dropped(s[..|s| - 1]);
      back := rest + [s[|s| - 1]];
      assert s == s[..|s| - 1] + [s[|s| - 1]];
    }
  }

  /** "##", white space, the keyword in any case, white space, the word, white space, and nothing else. */
  predicate HeaderForm(line: string, gap: string, keyword: string, space: string, ref: string, back: string) {
    && line == "##" + (gap + (keyword + (space + ref + back))) && |keyword| == 5 && FoldPrefix(keyword, "step:")
    && ReSpaces(gap) && ReSpaces(space) && ReSpaces(back) && OneWord(ref)
  }

  lemma HeaderOfForm(line: string, gap: string, keyword: string, space: string, ref: string, back: string)
    requires HeaderForm(line, gap, keyword, space, ref, back)
    ensures Header(line) == Some(ref)
  {
    var tail := space + ref + back;
    assert line[..2] == "##" && line[2..] == gap + (keyword + tail);
    assert Fold(keyword[0]) == 's' && (keyword + tail)[0] == keyword[0];
    SkipSpaces(gap, keyword + tail);
    assert FoldPrefix(keyword + tail, "step:") by { assert forall i | 0 <= i < 5 :: (keyword + tail)[i] == keyword[i]; }
    assert (keyword + tail)[5..] == tail;
    StripAround(space, ref, back);
    hide SkipSpace, Strip, OneWord, FoldPrefix;
  }

  /** A line is the header of a step exactly when it has that form. */
  lemma HeaderExactly(line: string, ref: string)
    ensures Header(line) == Some(ref)
      <==> exists gap, keyword, space, back :: HeaderForm(line, gap, keyword, space, ref, back)
  {
    if Header(line) == Some(ref) {
      var rest := SkipSpace(line[2..]);
      var gap := Skipped(line[2..]);
      var space := Skipped(rest[5..]);
      var back := Dropped(SkipSpace(rest[5..]));
      assert line == "##" + line[2..] && rest == rest[..5] + rest[5..];
      assert rest[5..] == space + ref + back by { assert space + (ref + back) == space + ref + back; }
      assert FoldPrefix(rest[..5], "step:") by { assert forall i | 0 <= i < 5 :: rest[..5][i] == rest[i]; }
      hide SkipSpace, DropSpace, OneWord, FoldPrefix, ReSpaces;
      assert HeaderForm(line, gap, rest[..5], space, ref, back);
    }
    if gap, keyword, space, back :| HeaderForm(line, gap, keyword, space, ref, back) {
      HeaderOfForm(line, gap, keyword, space, ref, back);
    }
  }

  /** The content lines with no expression of their own are the prose. */
  lemma ProseExactly(t: string)
    ensures Classify(t).Prose? <==> !Keyworded(t)
  {
    hide Items, Split, SkipSpace, FoldPrefix, IsTier, IsWord, Strip, Lower;
  }

  /** A keyword line, whatever follows the keyword. */
  lemma SpelledPrefix(s: string, word: string, rest: string)
    requires SpelledAs(s, word) && forall i | 0 <= i < |word| :: 'a' <= word[i] <= 'z' || word[i] == ':'
    ensures FoldPrefix(s + rest, word) && (s + rest)[|word|..] == rest
  {
    forall i | 0 <= i < |word| ensures Fold((s + rest)[i]) == word[i] { assert (s + rest)[i] == s[i]; }
  }

  /** Words that differ somewhere are not both at the front of a line. */
  lemma OtherWord(t: string, word: string, other: string, i: nat)
    requires FoldPrefix(t, word) && i < |word| && i < |other| && word[i] != other[i]
    ensures !FoldPrefix(t, other)
  {
    assert Fold(t[i]) == word[i];
  }

  lemma LinesStart(t: string)
    ensures FoldPrefix(t, "needs:") ==>
      !FoldPrefix(t, "tier:") && !FoldPrefix(t, "waitsfor:") && !FoldPrefix(t, "type:") && !FoldPrefix(t, "backoff:")
    ensures FoldPrefix(t, "tier:") ==> !FoldPrefix(t, "waitsfor:") && !FoldPrefix(t, "type:") && !FoldPrefix(t, "backoff:")
    ensures FoldPrefix(t, "waitsfor:") ==> !FoldPrefix(t, "type:") && !FoldPrefix(t, "backoff:")
    ensures FoldPrefix(t, "type:") ==> !FoldPrefix(t, "backoff:")
  {
    var needs, tier, waits, kind, backoff := "needs:", "tier:", "waitsfor:", "type:", "backoff:";
    if FoldPrefix(t, needs) {
      OtherWord(t, needs, tier, 0);
      OtherWord(t, needs, waits, 0);
      OtherWord(t, needs, kind, 0);
      OtherWord(t, needs, backoff, 0);
    } else if FoldPrefix(t, tier) {
      OtherWord(t, tier, waits, 0);
      OtherWord(t, tier, kind, 1);
      OtherWord(t, tier, backoff, 0);
    } else if FoldPrefix(t, waits) {
      OtherWord(t, waits, kind, 0);
      OtherWord(t, waits, backoff, 0);
    } else if FoldPrefix(t, kind) {
      OtherWord(t, kind, backoff, 0);
    }
  }

  // ---------- Each line reads back ----------

  predicate IsKeyword(word: string) {
    |word| > 4 && forall i | 0 <= i < |word| :: 'a' <= word[i] <= 'z' || word[i] == ':'
  }

  lemma AllKeywords()
    ensures IsKeyword("needs:") && IsKeyword("waitsfor:") && IsKeyword("tier:") && IsKeyword("type:")
    ensures IsKeyword("backoff:")
    ensures |"needs:"| == 6 && |"waitsfor:"| == 9 && |"tier:"| == |"type:"| == 5 && |"backoff:"| == 8
  {
  }

  /** A keyword, a blank and a text that is trimmed make a trimmed line. */
  lemma KeywordLine(s: string, word: string, text: string)
    requires SpelledAs(s, word) && IsKeyword(word) && Trimmed(text) && text != ""
    ensures var t := s + " " + text;
      Trim(t) == t && FoldPrefix(t, word) && |t| > |word| && t[|word|..] == " " + text && SkipSpace(t[|word|..]) == text
    ensures '\n' !in text ==> '\n' !in s + " " + text
  {
    var t := s + " " + text;
    assert t == s + (" " + text);
    SpelledPrefix(s, word, " " + text);
    assert t[0] == s[0] && t[|t| - 1] == text[|text| - 1];
    TrimFixed(t);
    SkipSpaces(" ", text);
    hide Trim, SkipSpace, FoldPrefix;
  }

  /** A list of entries reads back as them. */
  ghost predicate ReadsAs(text: string, items: seq<string>) {
    Items(Split(text, ',')) == items && '\n' !in text && text != "" && Trimmed(text)
  }

  lemma {:induction false} ListedReads(items: seq<Entry>)
    requires items != []
    ensures ReadsAs(Listed(items), items)
  {
    hide IsEntry, ReadsAs;
    var n := |items| - 1;
    var front, last := items[..n], items[n];
    assert items == front + [last];
    if n == 0 {
      ListedOne(last);
    } else {
      ListedReads(front);
      ListedSnoc(front, Listed(front), last);
    }
  }

  lemma ListedOne(item: Entry)
    ensures ReadsAs(item, [item])
  {
    TrimFixed(item);
    SplitWhole(item, ',');
    ItemsSnoc([], item);
    hide Split, Items, Trim;
    assert [] + [item] == [item];
  }

  lemma ListedSnoc(items: seq<string>, text: string, last: Entry)
    requires ReadsAs(text, items)
    ensures ReadsAs(text + [','] + (" " + last), items + [last])
  {
    var longer := text + [','] + (" " + last);
    SplitAppend(text, " " + last, ',');
    SplitWhole(" " + last, ',');
    TrimFixed(last);
    BlankBefore(last);
    hide Split, Items, Trim;
    ItemsSnoc(Split(text, ','), " " + last);
    assert longer[0] == text[0] && longer[|longer| - 1] == last[|last| - 1];
  }

  lemma BlankBefore(word: string)
    ensures Trim(" " + word) == Trim(word)
  {
    TrimLeftSpaces(" ", word);
  }

  lemma ItemsSnoc(parts: seq<string>, part: string)
    ensures Items(parts + [part]) == Items(parts) + if Trim(part) != "" then [Trim(part)] else []
  {
    assert (parts + [part])[..|parts|] == parts;
  }

  lemma NeedsRead(k: Spelled, items: seq<Entry>)
    requires items != []
    ensures Classify(Trim(k.needs + " " + Listed(items))) == NeedsLine(items) && '\n' !in k.needs + " " + Listed(items)
  {
    hide Trim, FoldPrefix, SkipSpace, Items, Listed, Split, SpelledAs, IsKeyword, Trimmed, IsEntry;
    hide IsTier, IsWord, Strip, Lower;
    AllKeywords();
    ListedReads(items);
    KeywordLine(k.needs, "needs:", Listed(items));
  }

  lemma WaitsRead(k: Spelled, items: seq<Entry>)
    requires items != []
    ensures Classify(Trim(k.waitsFor + " " + Listed(items))) == WaitsForLine(items) && '\n' !in k.waitsFor + " " + Listed(items)
  {
    hide Trim, FoldPrefix, SkipSpace, Items, Listed, Split, SpelledAs, IsKeyword, Trimmed, IsEntry;
    hide IsTier, IsWord, Strip, Lower;
    AllKeywords();
    ListedReads(items);
    KeywordLine(k.waitsFor, "waitsfor:", Listed(items));
    LinesStart(k.waitsFor + " " + Listed(items));
  }

  lemma WordText(word: string)
    requires OneWord(word)
    ensures Strip(" " + word) == word && '\n' !in word
  {
    StripAround(" ", word, "");
    assert " " + word + "" == " " + word;
  }

  lemma TierReads(k: Spelled, tier: string)
    requires (tier == "haiku" || tier == "sonnet" || tier == "opus")
    ensures Classify(Trim(k.tier + " " + tier)) == TierLine(tier) && '\n' !in k.tier + " " + tier
  {
    hide Trim, FoldPrefix, SkipSpace, Items, Split, SpelledAs, IsKeyword, Trimmed, IsTier, IsWord, Strip, Lower, OneWord;
    AllKeywords();
    TierIsWord(tier);
    KeywordLine(k.tier, "tier:", tier);
    LinesStart(k.tier + " " + tier);
    WordText(tier);
  }

  lemma TierIsWord(tier: string)
    requires tier == "haiku" || tier == "sonnet" || tier == "opus"
    ensures OneWord(tier) && Trimmed(tier) && IsTier(tier) && Lower(tier) == tier
  {
    hide FoldPrefix, OneWord, Trimmed, Lower;
    if tier == "haiku" { SmallLetters("haiku"); }
    else if tier == "sonnet" { SmallLetters("sonnet"); }
    else { SmallLetters("opus"); }
  }

  lemma SmallLetters(word: string)
    requires word != "" && forall i | 0 <= i < |word| :: 'a' <= word[i] <= 'z'
    ensures OneWord(word) && Trimmed(word) && FoldPrefix(word, word) && Lower(word) == word
  {
    LowerFixed(word);
  }

  lemma KindReads(k: Spelled, kind: string)
    requires IsWord(kind) && IsLower(kind)
    ensures Classify(Trim(k.kind + " " + kind)) == TypeLine(kind) && '\n' !in k.kind + " " + kind
  {
    hide Trim, FoldPrefix, SkipSpace, Items, Split, SpelledAs, IsKeyword, Trimmed, IsTier, IsWord, Strip, Lower, OneWord;
    AllKeywords();
    WordIsOneWord(kind);
    KeywordLine(k.kind, "type:", kind);
    LinesStart(k.kind + " " + kind);
    WordText(kind);
    LowerFixed(kind);
  }

  lemma WordIsOneWord(kind: string)
    requires IsWord(kind)
    ensures OneWord(kind) && Trimmed(kind)
  {
    assert forall i | 0 <= i < |kind| :: WordChar(kind[i]);
  }

  lemma BackoffReads(k: Spelled, c: Interval)
    ensures var line := k.backoff + " " + BackoffText(c);
      Classify(Trim(line)) == BackoffLine(BackoffText(c)) && Backoff.Parsed(BackoffText(c)) == Some(c) && '\n' !in line
  {
    BackoffTextShape(c);
    KeywordLine(k.backoff, "backoff:", BackoffText(c));
    LinesStart(k.backoff + " " + BackoffText(c));
    Backoff.DocumentedFormReads(c.base, c.multiplier, c.max);
    hide Trim, FoldPrefix, SkipSpace, Items, Split, Backoff.Written, Backoff.Parsed;
  }

  lemma BackoffTextShape(c: Interval)
    ensures BackoffText(c) != "" && Trimmed(BackoffText(c)) && '\n' !in BackoffText(c)
  {
    var text, n := BackoffText(c), Itoa(c.multiplier);
    assert '\n' !in n && '\n' !in "base" && '\n' !in "multiplier" && '\n' !in "max";
    hide Itoa;
    assert text[0] == 'b' && text[|text| - 1] == if c.max == "" then '=' else c.max[|c.max| - 1];
  }

  lemma HeaderReads(k: Spelled, ref: string)
    requires OneWord(ref)
    ensures Header(HeaderLine(k, ref)) == Some(ref) && '\n' !in HeaderLine(k, ref)
  {
    StepKeyword(k.step);
    hide FoldPrefix, SpelledAs, Header;
    Regrouped("##", " ", k.step, " ", ref);
    HeaderOfForm(HeaderLine(k, ref), " ", k.step, " ", ref, "");
    assert '\n' !in HeaderLine(k, ref) by { hide HeaderForm; }
  }

  lemma StepKeyword(s: string)
    requires SpelledAs(s, "step:")
    ensures FoldPrefix(s, "step:") && |s| == 5 && '\n' !in s
  {
    SpelledPrefix(s, "step:", "");
    assert s + "" == s;
  }

  lemma Regrouped(a: string, b: string, c: string, d: string, e: string)
    ensures a + b + c + d + e == a + (b + (c + (d + e + "")))
  {
  }

  // ---------- Steps read back ----------

  lemma AbsorbIf(content: seq<string>, present: bool, line: string)
    ensures AbsorbAll(content + If(present, line)) == if present then Absorb(AbsorbAll(content), line) else AbsorbAll(content)
  {
    if present {
      assert (content + [line])[..|content|] == content;
    } else {
      assert content + [] == content;
    }
  }

  lemma {:induction false} ProseAbsorbed(prose: seq<string>)
    requires forall i | 0 <= i < |prose| :: IsProse(prose[i])
    ensures AbsorbAll(prose) == EMPTY_DRAFT.(prose := prose)
  {
    if prose != [] {
      hide IsProse, Absorb;
      var n := |prose| - 1;
      var front, last := prose[..n], prose[n];
      assert IsProse(last) && prose == front + [last];
      forall i | 0 <= i < n ensures IsProse(front[i]) { assert IsProse(prose[i]); }
      ProseAbsorbed(front);
      ProseLine(EMPTY_DRAFT.(prose := front), last);
    }
  }

  lemma ProseLine(d: Draft, line: string)
    requires IsProse(line)
    ensures Absorb(d, line) == d.(prose := d.prose + [line])
  {
    ProseExactly(Trim(line));
    hide Classify, Keyworded, Trim, Header;
  }

  // One kind of line after another.

  lemma NeedsStage(k: Spelled, items: seq<Entry>, content: seq<string>)
    ensures var d := AbsorbAll(content);
      AbsorbAll(content + If(items != [], k.needs + " " + Listed(items))) == d.(needs := d.needs + items)
  {
    hide AbsorbAll, Classify, Trim, Spells, Listed, IsEntry;
    AbsorbIf(content, items != [], k.needs + " " + Listed(items));
    if items != [] { NeedsRead(k, items); } else { assert AbsorbAll(content).needs + items == AbsorbAll(content).needs; }
  }

  lemma WaitsStage(k: Spelled, items: seq<Entry>, content: seq<string>)
    ensures var d := AbsorbAll(content);
      AbsorbAll(content + If(items != [], k.waitsFor + " " + Listed(items))) == d.(waitsFor := d.waitsFor + items)
  {
    hide AbsorbAll, Classify, Trim, Spells, Listed, IsEntry;
    AbsorbIf(content, items != [], k.waitsFor + " " + Listed(items));
    if items != [] { WaitsRead(k, items); } else { assert AbsorbAll(content).waitsFor + items == AbsorbAll(content).waitsFor; }
  }

  lemma TierStage(k: Spelled, tier: Tier, content: seq<string>)
    ensures var d := AbsorbAll(content);
      AbsorbAll(content + If(tier != "", k.tier + " " + tier)) == d.(tier := if tier == "" then d.tier else tier)
  {
    hide AbsorbAll, Classify, Trim, Spells;
    AbsorbIf(content, tier != "", k.tier + " " + tier);
    if tier != "" { TierReads(k, tier); }
  }

  lemma KindStage(k: Spelled, kind: Kind, content: seq<string>)
    ensures var d := AbsorbAll(content);
      AbsorbAll(content + If(kind != "", k.kind + " " + kind)) == d.(kind := if kind == "" then d.kind else kind)
  {
    hide AbsorbAll, Classify, Trim, Spells, IsWord, IsLower;
    AbsorbIf(content, kind != "", k.kind + " " + kind);
    if kind != "" { KindReads(k, kind); }
  }

  lemma BackoffStage(k: Spelled, c: Option<Interval>, content: seq<string>)
    ensures var d := AbsorbAll(content);
      AbsorbAll(content + If(c.Some?, k.backoff + " " + if c.Some? then BackoffText(c.value) else ""))
      == d.(backoff := if c.Some? then c else d.backoff)
  {
    hide AbsorbAll, Classify, Trim, Spells, BackoffText, Backoff.Parsed;
    AbsorbIf(content, c.Some?, k.backoff + " " + if c.Some? then BackoffText(c.value) else "");
    if c.Some? { BackoffReads(k, c.value); }
  }

  /** The lines of a written step absorb to what it says. */
  lemma ContentAbsorbed(k: Spelled, s: WritableStep)
    ensures AbsorbAll(ContentLines(k, s)) == Draft(s.needs, s.waitsFor, s.tier, s.kind, s.backoff, ProseOf(s))
  {
    hide AbsorbAll, Spells, Listed, Split, BackoffText, IsProse, IsEntry, IsWord, IsLower, WritableBackoff, If;
    ProseAbsorbed(ProseOf(s));
    var c1 := ProseOf(s) + If(s.needs != [], k.needs + " " + Listed(s.needs));
    NeedsStage(k, s.needs, ProseOf(s));
    var c2 := c1 + If(s.waitsFor != [], k.waitsFor + " " + Listed(s.waitsFor));
    WaitsStage(k, s.waitsFor, c1);
    var c3 := c2 + If(s.tier != "", k.tier + " " + s.tier);
    TierStage(k, s.tier, c2);
    var c4 := c3 + If(s.kind != "", k.kind + " " + s.kind);
    KindStage(k, s.kind, c3);
    BackoffStage(k, s.backoff, c4);
    assert [] + s.needs == s.needs && [] + s.waitsFor == s.waitsFor;
  }

  lemma StepReads(k: Spelled, s: WritableStep)
    ensures StepOf(Section(s.ref, ContentLines(k, s))) == s
  {
    ContentAbsorbed(k, s);
    JoinSplit(s.instructions, '\n');
    TrimFixed(s.instructions);
    hide AbsorbAll, ContentLines, Join, Spells;
    if s.instructions == "" {
      assert Trim(Join([], '\n')) == "" by { assert Join([], '\n') == ""; }
      EmptyTitle();
    } else {
      TitleNotEmpty(s.instructions);
    }
  }

  lemma EmptyTitle()
    ensures Join([], '\n') == "" && Trim("") == "" && Split("", '\n') == [""]
  {
  }

  lemma TitleNotEmpty(text: string)
    requires Trimmed(text) && text != ""
    ensures Trim(Split(text, '\n')[0]) != ""
  {
    var lines := Split(text, '\n');
    JoinSplit(text, '\n');
    hide Split;
    assert lines[0] != "" && text[0] == lines[0][0] by { assert text == Join(lines, '\n'); }
    TrimRightAppend([lines[0][0]], lines[0][1..]);
    assert lines[0] == [lines[0][0]] + lines[0][1..];
  }

  predicate Each(lines: seq<string>, good: string -> bool) {
    forall i | 0 <= i < |lines| :: good(lines[i])
  }

  predicate Headerless(line: string) {
    Header(line).None?
  }

  predicate OneLine(line: string) {
    '\n' !in line
  }

  /** A header and lines that are none are one section. */
  lemma {:induction false} OneSection(head: string, ref: string, content: seq<string>)
    requires Header(head) == Some(ref) && Each(content, Headerless)
    ensures Sections([head] + content, Header) == [Section(ref, content)]
    decreases |content|
  {
    hide Header, Sections;
    SectionsSnoc([head] + content, Header);
    if content == [] {
      NothingWritten();
      assert [head] + content == [head] && [head][..0] == [];
    } else {
      var n := |content| - 1;
      var front, last := content[..n], content[n];
      assert Header(last).None? && content == front + [last];
      assert Each(front, Headerless) by { assert forall i | 0 <= i < n :: front[i] == content[i]; }
      hide Headerless;
      OneSection(head, ref, front);
      assert ([head] + content)[..n + 1] == [head] + front;
    }
  }

  /** A keyword line is not a header, and is one line. */
  lemma KeywordLinesInside(s: string, word: string, text: string)
    requires SpelledAs(s, word) && IsKeyword(word)
    ensures Header(s + " " + text).None?
  {
    assert (s + " " + text)[0] == s[0] && (s[0] == word[0] || s[0] + 32 as char == word[0]);
  }

  lemma EachIf(lines: seq<string>, present: bool, line: string, good: string -> bool)
    requires Each(lines, good) && (present ==> good(line))
    ensures Each(lines + If(present, line), good)
  {
  }

  lemma ContentEach(k: Spelled, s: WritableStep, good: string -> bool)
    requires Each(ProseOf(s), good)
    requires s.needs != [] ==> good(k.needs + " " + Listed(s.needs))
    requires s.waitsFor != [] ==> good(k.waitsFor + " " + Listed(s.waitsFor))
    requires s.tier != "" ==> good(k.tier + " " + s.tier)
    requires s.kind != "" ==> good(k.kind + " " + s.kind)
    requires s.backoff.Some? ==> good(k.backoff + " " + BackoffText(s.backoff.value))
    ensures Each(ContentLines(k, s), good)
  {
    hide Each, Listed, If, Spells, BackoffText;
    var c1 := ProseOf(s) + If(s.needs != [], k.needs + " " + Listed(s.needs));
    EachIf(ProseOf(s), s.needs != [], k.needs + " " + Listed(s.needs), good);
    var c2 := c1 + If(s.waitsFor != [], k.waitsFor + " " + Listed(s.waitsFor));
    EachIf(c1, s.waitsFor != [], k.waitsFor + " " + Listed(s.waitsFor), good);
    var c3 := c2 + If(s.tier != "", k.tier + " " + s.tier);
    EachIf(c2, s.tier != "", k.tier + " " + s.tier, good);
    var c4 := c3 + If(s.kind != "", k.kind + " " + s.kind);
    EachIf(c3, s.kind != "", k.kind + " " + s.kind, good);
    EachIf(c4, s.backoff.Some?, k.backoff + " " + if s.backoff.Some? then BackoffText(s.backoff.value) else "", good);
  }

  lemma ContentHeaderless(k: Spelled, s: WritableStep)
    ensures Each(ContentLines(k, s), Headerless)
  {
    hide Each, Header, Listed, BackoffText, IsKeyword, SpelledAs, IsProse, IsEntry, IsWord, IsLower;
    AllKeywords();
    ProseInside(s);
    KeywordLinesInside(k.needs, "needs:", Listed(s.needs));
    KeywordLinesInside(k.waitsFor, "waitsfor:", Listed(s.waitsFor));
    KeywordLinesInside(k.tier, "tier:", s.tier);
    KeywordLinesInside(k.kind, "type:", s.kind);
    KeywordLinesInside(k.backoff, "backoff:", if s.backoff.Some? then BackoffText(s.backoff.value) else "");
    ContentEach(k, s, Headerless);
  }

  lemma ContentOneLined(k: Spelled, s: WritableStep)
    ensures Each(ContentLines(k, s), OneLine)
  {
    hide Each, Listed, BackoffText, Spells, Classify, Trim, IsEntry, IsWord, IsLower, IsProse, ContentLines;
    ProseInside(s);
    if s.needs != [] { NeedsRead(k, s.needs); }
    if s.waitsFor != [] { WaitsRead(k, s.waitsFor); }
    if s.tier != "" { TierReads(k, s.tier); }
    if s.kind != "" { KindReads(k, s.kind); }
    if s.backoff.Some? { BackoffReads(k, s.backoff.value); }
    ContentEach(k, s, OneLine);
  }

  lemma ProseInside(s: WritableStep)
    ensures Each(ProseOf(s), Headerless) && Each(ProseOf(s), OneLine)
  {
    hide Header, Keyworded, IsEntry, WritableBackoff, Trim;
    assert forall i | 0 <= i < |ProseOf(s)| :: ProseOf(s)[i] in ProseOf(s);
  }

  lemma {:induction false} LinesRead(k: Spelled, steps: seq<WritableStep>)
    ensures Mapped(Sections(WrittenLines(k, steps), Header), StepOf) == steps && Each(WrittenLines(k, steps), OneLine)
  {
    hide Writable, Spells, Header, StepOf, ContentLines, HeaderLine, Headerless, Sections, OneLine;
    if steps == [] {
      NothingWritten();
    } else {
      var n := |steps| - 1;
      var front, s := WrittenLines(k, steps[..n]), steps[n];
      LinesRead(k, steps[..n]);
      StepWritten(k, front, s);
      assert WrittenLines(k, steps) == front + ([HeaderLine(k, s.ref)] + ContentLines(k, s));
      hide *;
      assert steps == steps[..n] + [s];
    }
  }

  lemma NothingWritten()
    ensures Sections([], Header) == [] && Each([], OneLine)
  {
  }

  lemma WritableRef(s: WritableStep)
    ensures OneWord(s.ref)
  {
  }

  lemma SectionStep(front: seq<Section>, section: Section)
    ensures Mapped(front + [section], StepOf) == Mapped(front, StepOf) + [StepOf(section)]
  {
    hide StepOf;
  }

  lemma OneLineAppend(front: seq<string>, head: string, content: seq<string>)
    requires Each(front, OneLine) && '\n' !in head && Each(content, OneLine)
    ensures Each(front + ([head] + content), OneLine)
  {
  }

  lemma StepWritten(k: Spelled, front: seq<string>, s: WritableStep)
    requires Each(front, OneLine)
    ensures var lines := [HeaderLine(k, s.ref)] + ContentLines(k, s);
      && Mapped(Sections(front + lines, Header), StepOf) == Mapped(Sections(front, Header), StepOf) + [s]
      && Each(front + lines, OneLine)
  {
    hide Writable, Spells, Header, StepOf, ContentLines, HeaderLine, Headerless, OneWord, Sections, OneLine;
    var head, content := HeaderLine(k, s.ref), ContentLines(k, s);
    WritableRef(s);
    HeaderReads(k, s.ref);
    ContentHeaderless(k, s);
    ContentOneLined(k, s);
    StepReads(k, s);
    OneSection(head, s.ref, content);
    OneLineAppend(front, head, content);
    SectionStep(Sections(front, Header), Section(s.ref, content));
    assert ([head] + content)[0] == head;
    SectionsAppend(front, [head] + content, Header);
    hide *;
  }

  /** Steps written in the documented format, with the keywords in any case, parse back to the same steps. */
  lemma WrittenStepsParse(k: Spelled, steps: seq<WritableStep>)
    ensures ParsedSteps(Written(k, steps)) == steps
  {
    LinesRead(k, steps);
    hide Writable, Spells, Header, StepOf, Sections, Split;
    assert forall i | 0 <= i < |WrittenLines(k, steps)| :: '\n' !in WrittenLines(k, steps)[i];
    if steps == [] {
      EmptyTitle();
      NoSteps();
    } else {
      SplitJoin(WrittenLines(k, steps), '\n');
    }
  }

  lemma NoSteps()
    ensures Sections([""], Header) == []
  {
    assert [""][..0] == [] && Sections([], Header) == [];
  }
}
