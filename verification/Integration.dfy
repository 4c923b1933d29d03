/** Branch-name segments and single metadata fields of epic descriptions.  (internal/beads/integration.go) */
module Integration {
  import opened Text
  import opened KeyLines

  // ---------- SanitizeBranchSegment ----------

  predicate Alnum(c: char) {
    'a' <= c <= 'z' || '0' <= c <= '9'
  }

  /** Replaces every maximal run of characters other than a-z, 0-9 and hyphen by one hyphen. */
  function ReplaceRuns(s: string): string {
    if s == "" then ""
    else
      var front, c := ReplaceRuns(s[..|s| - 1]), s[|s| - 1];
      if Alnum(c) || c == '-' then front + [c]
      else if |s| >= 2 && !(Alnum(s[|s| - 2]) || s[|s| - 2] == '-') then front
      else front + "-"
  }

  /** Replaces every run of hyphens by one. */
  function CollapseHyphens(s: string): string {
    if s == "" then ""
    else
      var front, c := CollapseHyphens(s[..|s| - 1]), s[|s| - 1];
      if c == '-' && front != "" && front[|front| - 1] == '-' then front else front + [c]
  }

  function TrimLeftHyphen(s: string): string {
    if s != "" && s[0] == '-' then TrimLeftHyphen(s[1..]) else s
  }

  function TrimRightHyphen(s: string): string {
    if s != "" && s[|s| - 1] == '-' then TrimRightHyphen(s[..|s| - 1]) else s
  }

  /** The segment before it is cut to length. */
  function Untruncated(lower: string): string {
    TrimRightHyphen(TrimLeftHyphen(CollapseHyphens(ReplaceRuns(lower))))
  }

  function Truncated(full: string): string {
    if |full| > 60 then TrimRightHyphen(full[..60]) else full
  }

  function Sanitized(input: string): string {
    Truncated(Untruncated(Lower(input)))
  }

  /** Only a-z, 0-9 and hyphen, no two hyphens in a row. */
  predicate Collapsed(s: string) {
    && (forall i | 0 <= i < |s| :: Alnum(s[i]) || s[i] == '-')
    && (forall i | 0 <= i < |s| - 1 :: s[i] == '-' ==> s[i + 1] != '-')
  }

  /** And no hyphen at either end. */
  predicate Edgeless(s: string) {
    Collapsed(s) && (s != "" ==> s[0] != '-' && s[|s| - 1] != '-')
  }

  /** And at most 60 characters. */
  predicate NormalForm(s: string) {
    Edgeless(s) && |s| <= 60
  }

  predicate HasAlnum(s: string) {
    exists i :: 0 <= i < |s| && Alnum(s[i])
  }

  lemma {:induction false} ReplaceRunsShape(s: string)
    ensures forall i | 0 <= i < |ReplaceRuns(s)| :: Alnum(ReplaceRuns(s)[i]) || ReplaceRuns(s)[i] == '-'
    ensures HasAlnum(ReplaceRuns(s)) <==> HasAlnum(s)
  {
    if s != "" {
      var k := |s| - 1;
      ReplaceRunsShape(s[..k]);
      AlnumSnoc(s[..k], s[k]);
      assert s == s[..k] + [s[k]];
      AlnumSnoc(ReplaceRuns(s[..k]), s[k]);
      AlnumSnoc(ReplaceRuns(s[..k]), '-');
    }
  }

  lemma AlnumSnoc(s: string, c: char)
    ensures HasAlnum(s + [c]) <==> HasAlnum(s) || Alnum(c)
  {
    assert (s + [c])[|s|] == c;
    if HasAlnum(s) {
      var i :| 0 <= i < |s| && Alnum(s[i]);
      assert (s + [c])[i] == s[i];
    }
    if HasAlnum(s + [c]) {
      var i :| 0 <= i < |s + [c]| && Alnum((s + [c])[i]);
      assert i < |s| ==> s[i] == (s + [c])[i];
    }
  }

  lemma {:induction false} CollapseShape(s: string)
    requires forall i | 0 <= i < |s| :: Alnum(s[i]) || s[i] == '-'
    ensures Collapsed(CollapseHyphens(s))
    ensures HasAlnum(CollapseHyphens(s)) <==> HasAlnum(s)
  {
    if s != "" {
      var k := |s| - 1;
      CollapseShape(s[..k]);
      assert s == s[..k] + [s[k]];
      AlnumSnoc(s[..k], s[k]);
      AlnumSnoc(CollapseHyphens(s[..k]), s[k]);
    }
  }

  lemma {:induction false} TrimLeftHyphenShape(s: string)
    requires Collapsed(s)
    ensures var t := TrimLeftHyphen(s);
      Collapsed(t) && (t != "" ==> t[0] != '-' && s != "" && t[|t| - 1] == s[|s| - 1]) && |t| <= |s|
    ensures HasAlnum(TrimLeftHyphen(s)) <==> HasAlnum(s)
  {
    if s != "" && s[0] == '-' {
      var t := s[1..];
      assert forall i | 0 <= i < |t| :: t[i] == s[i + 1];
      TrimLeftHyphenShape(t);
      if HasAlnum(s) {
        var i :| 0 <= i < |s| && Alnum(s[i]);
        assert Alnum(t[i - 1]);
      }
      if HasAlnum(t) {
        var i :| 0 <= i < |t| && Alnum(t[i]);
        assert Alnum(s[i + 1]);
      }
    }
  }

  lemma {:induction false} TrimRightHyphenShape(s: string)
    requires Collapsed(s) && (s != "" ==> s[0] != '-')
    ensures var t := TrimRightHyphen(s);
      Collapsed(t) && (t != "" ==> t[0] != '-' && t[|t| - 1] != '-') && |t| <= |s|
    ensures HasAlnum(TrimRightHyphen(s)) <==> HasAlnum(s)
  {
    if s != "" && s[|s| - 1] == '-' {
      var t := s[..|s| - 1];
      TrimRightHyphenShape(t);
      assert s == t + [s[|s| - 1]];
      AlnumSnoc(t, s[|s| - 1]);
    }
  }

  /** The result is in normal form, and empty exactly when the lower-cased input has no letter or digit. */
  lemma SanitizedIsNormal(input: string)
    ensures NormalForm(Sanitized(input))
    ensures Sanitized(input) == "" <==> !HasAlnum(Lower(input))
  {
    UntruncatedIsNormal(Lower(input));
    TruncatedIsNormal(Untruncated(Lower(input)));
  }

  lemma UntruncatedIsNormal(lower: string)
    ensures Edgeless(Untruncated(lower)) && (HasAlnum(Untruncated(lower)) <==> HasAlnum(lower))
  {
    ReplaceRunsShape(lower);
    CollapseShape(ReplaceRuns(lower));
    TrimLeftHyphenShape(CollapseHyphens(ReplaceRuns(lower)));
    TrimRightHyphenShape(TrimLeftHyphen(CollapseHyphens(ReplaceRuns(lower))));
  }

  lemma TruncatedIsNormal(full: string)
    requires Edgeless(full)
    ensures NormalForm(Truncated(full)) && (Truncated(full) == "" <==> !HasAlnum(full))
  {
    assert full != "" ==> Alnum(full[0]);
    if |full| > 60 {
      var cut := full[..60];
      assert Alnum(cut[0]);
      TrimRightHyphenShape(cut);
      assert HasAlnum(TrimRightHyphen(cut));
    }
  }

  lemma {:induction false} NormalTextUntouched(s: string)
    requires Collapsed(s)
    ensures ReplaceRuns(s) == s && CollapseHyphens(s) == s
  {
    if s != "" {
      var k := |s| - 1;
      NormalTextUntouched(s[..k]);
      assert s == s[..k] + [s[k]];
    }
  }

  /** Texts in normal form are exactly the fixed points, so sanitizing twice is sanitizing once. */
  lemma SanitizedFixedPoints(s: string)
    ensures Sanitized(s) == s <==> NormalForm(s)
    ensures Sanitized(Sanitized(s)) == Sanitized(s)
  {
    SanitizedIsNormal(s);
    FixedWhenNormal(Sanitized(s));
    if NormalForm(s) { FixedWhenNormal(s); }
  }

  lemma FixedWhenNormal(s: string)
    requires NormalForm(s)
    ensures Sanitized(s) == s
  {
    LowerFixed(s);
    NormalTextUntouched(s);
  }

  /** The words of a text: its maximal runs of a-z and 0-9. */
  function Words(s: string): seq<string> {
    if s == "" then []
    else
      var k := |s| - 1;
      var words := Words(s[..k]);
      if !Alnum(s[k]) then words
      else if k > 0 && Alnum(s[k - 1]) && words != [] then words[..|words| - 1] + [words[|words| - 1] + [s[k]]]
      else words + [[s[k]]]
  }

  predicate EndsInHyphen(s: string) {
    s != "" && s[|s| - 1] == '-'
  }

  /** One more character before trimming: letters and digits are appended, anything else becomes a hyphen unless
      there is one. */
  lemma {:induction false} CollapsedStep(s: string)
    requires s != ""
    ensures var k := |s| - 1;
      var before, after := CollapseHyphens(ReplaceRuns(s[..k])), CollapseHyphens(ReplaceRuns(s));
      && after == (if Alnum(s[k]) then before + [s[k]] else if EndsInHyphen(before) then before else before + "-")
      && (!Alnum(s[k]) ==> EndsInHyphen(after))
  {
    hide CollapseHyphens, ReplaceRuns;
    var k := |s| - 1;
    if k > 0 { CollapsedStep(s[..k]); } else { EmptyCollapses(); }
    ReplaceStep(s);
    CollapseSnoc(ReplaceRuns(s[..k]), s[k]);
    CollapseSnoc(ReplaceRuns(s[..k]), '-');
    assert k > 0 ==> s[..k][k - 1] == s[k - 1];
  }

  lemma EmptyCollapses()
    ensures CollapseHyphens(ReplaceRuns("")) == ""
  {
  }

  lemma ReplaceStep(s: string)
    requires s != ""
    ensures var k := |s| - 1;
      var front := ReplaceRuns(s[..k]);
      ReplaceRuns(s) ==
        if Alnum(s[k]) || s[k] == '-' then front + [s[k]]
        else if k > 0 && !(Alnum(s[k - 1]) || s[k - 1] == '-') then front
        else front + ['-']
  {
  }

  lemma CollapseSnoc(runs: string, c: char)
    ensures var before := CollapseHyphens(runs);
      CollapseHyphens(runs + [c]) == if c == '-' && EndsInHyphen(before) then before else before + [c]
  {
    assert (runs + [c])[..|runs|] == runs;
  }

  lemma {:induction false} TrimLeftSnoc(s: string, c: char)
    ensures TrimLeftHyphen(s + [c]) == if TrimLeftHyphen(s) == "" && c == '-' then "" else TrimLeftHyphen(s) + [c]
  {
    if s == "" {
      assert "" + [c] == [c];
    } else if s[0] == '-' {
      assert (s + [c])[1..] == s[1..] + [c];
      TrimLeftSnoc(s[1..], c);
    }
  }

  lemma {:induction false} WordsEnd(s: string)
    ensures Words(s) != [] <==> HasAlnum(s)
    ensures forall w <- Words(s) :: Word(w)
  {
    if s != "" {
      hide HasAlnum, Word;
      var k := |s| - 1;
      var words := Words(s[..k]);
      WordsEnd(s[..k]);
      AlnumSnoc(s[..k], s[k]);
      assert s == s[..k] + [s[k]];
      WordSnoc("", s[k]);
      assert "" + [s[k]] == [s[k]];
      if words != [] { WordSnoc(words[|words| - 1], s[k]); }
    } else {
      assert !HasAlnum(s);
    }
  }

  /** Letters and digits only, and at least one. */
  predicate Word(s: string) {
    s != "" && forall i | 0 <= i < |s| :: Alnum(s[i])
  }

  lemma WordSnoc(s: string, c: char)
    requires s == "" || Word(s)
    ensures Alnum(c) ==> Word(s + [c])
  {
  }

  lemma {:induction false} GlueLastChar(words: seq<string>, c: char)
    requires words != []
    ensures Join(words[..|words| - 1] + [words[|words| - 1] + [c]], '-') == Join(words, '-') + [c]
  {
    if |words| > 1 {
      GlueLastChar(words[1..], c);
      assert (words[..|words| - 1] + [words[|words| - 1] + [c]])[1..] == words[1..][..|words| - 2] + [words[|words| - 1] + [c]];
    }
  }

  lemma {:induction false} GlueEnd(words: seq<string>)
    requires words != [] && forall w <- words :: w != "" && Alnum(w[|w| - 1])
    ensures Join(words, '-') != "" && Alnum(Join(words, '-')[|Join(words, '-')| - 1])
  {
    assert words[0] in words;
    if |words| > 1 { GlueEnd(words[1..]); }
  }

  function LeftTrimmed(s: string): string {
    TrimLeftHyphen(CollapseHyphens(ReplaceRuns(s)))
  }

  /** One more character after trimming on the left. */
  lemma LeftTrimmedStep(s: string)
    requires s != ""
    ensures var front, c := LeftTrimmed(s[..|s| - 1]), s[|s| - 1];
      LeftTrimmed(s) ==
        if Alnum(c) then front + [c]
        else if front == "" || (|s| > 1 && !Alnum(s[|s| - 2])) then front
        else front + "-"
  {
    hide ReplaceRuns, CollapseHyphens, TrimLeftHyphen;
    var front, c := s[..|s| - 1], s[|s| - 1];
    var before := CollapseHyphens(ReplaceRuns(front));
    CollapsedStep(s);
    if front != "" { CollapsedStep(front); } else { EmptyCollapses(); }
    TrimLeftSnoc(before, c);
    TrimLeftSnoc(before, '-');
    assert before + ['-'] == before + "-";
  }

  /** One more character in the words. */
  lemma GluedStep(s: string)
    requires s != ""
    ensures var front, c := Join(Words(s[..|s| - 1]), '-'), s[|s| - 1];
      Join(Words(s), '-') ==
        if !Alnum(c) then front
        else if front == "" || (|s| > 1 && Alnum(s[|s| - 2])) then front + [c]
        else front + "-" + [c]
  {
    var k := |s| - 1;
    var words := Words(s[..k]);
    WordsEnd(s[..k]);
    if words == [] {
      assert words + [[s[k]]] == [[s[k]]];
    } else {
      GlueEnd(words);
      GlueLastChar(words, s[k]);
      JoinAppend(words, [[s[k]]], '-');
    }
  }

  /** Up to a trailing hyphen, the text trimmed on the left is the words joined by hyphens. */
  lemma {:induction false} LeftTrimmedIsWords(s: string)
    ensures var w := Join(Words(s), '-');
      LeftTrimmed(s) == if w == "" || Alnum(s[|s| - 1]) then w else w + "-"
    ensures s == "" ==> Join(Words(s), '-') == ""
  {
    if s != "" {
      hide LeftTrimmed, Words, Join;
      LeftTrimmedIsWords(s[..|s| - 1]);
      LeftTrimmedStep(s);
      GluedStep(s);
    }
  }

  lemma LeftTrimmedOf(s: string)
    ensures Untruncated(s) == TrimRightHyphen(LeftTrimmed(s))
  {
  }

  lemma GluedWordsEnd(s: string)
    ensures var w := Join(Words(s), '-'); w != "" ==> w[|w| - 1] != '-'
  {
    WordsEnd(s);
    if Words(s) != [] { GlueEnd(Words(s)); }
  }

  /** What the segment says: the words of the lower-cased input, in order, joined by single hyphens, cut at 60
      characters. */
  lemma SanitizedIsWords(input: string)
    ensures Sanitized(input) == Truncated(Join(Words(Lower(input)), '-'))
  {
    var s := Lower(input);
    var w := Join(Words(s), '-');
    LeftTrimmedIsWords(s);
    GluedWordsEnd(s);
    hide Words, Join, LeftTrimmed, Truncated, ReplaceRuns, CollapseHyphens;
    if w != "" {
      assert (w + "-")[..|w|] == w && TrimRightHyphen(w) == w;
      assert TrimRightHyphen(w + "-") == TrimRightHyphen(w);
    } else {
      assert TrimRightHyphen("") == "";
    }
    assert Untruncated(s) == TrimRightHyphen(LeftTrimmed(s)) by { LeftTrimmedOf(s); }
  }

  /** The segment is in normal form: the words of the lower-cased input, in order, joined by single hyphens and cut at
      60 characters.  It is empty exactly when there is no letter or digit, and the input itself exactly when that was
      in normal form. */
  method SanitizeBranchSegment(input: string) returns (s: string)
    ensures NormalForm(s)
    ensures s == Truncated(Join(Words(Lower(input)), '-'))
    ensures s == "" <==> !HasAlnum(Lower(input))
    ensures s == input <==> NormalForm(input)
  {
    SanitizedIsNormal(input);
    SanitizedIsWords(input);
    SanitizedFixedPoints(input);
    s := Lower(input);
    s := ReplaceRuns(s);
    s := CollapseHyphens(s);
    s := TrimRightHyphen(TrimLeftHyphen(s));
    if |s| > 60 {
      s := s[..60];
      s := TrimRightHyphen(s);
    }
    assert s == Sanitized(input);
  }

  // ---------- Metadata fields ----------

  /** A line belongs to a key when its trimmed, lower-cased text starts with the key and a colon. */
  predicate Matches(line: string, key: string) {
    (Lower(key) + ":") <= Lower(Trim(line))
  }

  /** The value of the first line of the key. */
  function FieldIn(lines: seq<string>, key: string): string {
    if lines == [] then ""
    else if Matches(lines[0], key) then ValueOf(lines[0])
    else FieldIn(lines[1..], key)
  }

  /** What stands after the first colon. */
  function ValueOf(line: string): string {
    var t := Trim(line);
    var colon := IndexOf(t, ':');
    if colon == -1 then "" else Trim(t[colon + 1..])
  }

  function Metadata(description: string, key: string): string {
    FieldIn(Split(description, '\n'), key)
  }

  method GetMetadataField(description: string, key: string) returns (value: string)
    ensures value == Metadata(description, key)
  {
    if description == "" {
      EmptyHasNoField(key);
      return "";
    }
    var lines := Split(description, '\n');
    for i := 0 to |lines|
      invariant FieldIn(lines, key) == FieldIn(lines[i..], key)
    {
      var trimmed := Trim(lines[i]);
      if (Lower(key) + ":") <= Lower(trimmed) {
        MatchHasColon(lines[i], key);
        var colon := IndexOf(trimmed, ':');
        return Trim(trimmed[colon + 1..]);
      }
      assert lines[i..][1..] == lines[i + 1..];
    }
    value := "";
  }

  lemma EmptyHasNoField(key: string)
    ensures Metadata("", key) == ""
  {
    EmptyHasNoMatch(key);
    assert [""][1..] == [];
    assert FieldIn([""], key) == FieldIn([""][1..], key);
  }

  /** A matching line contains a colon. */
  lemma MatchHasColon(line: string, key: string)
    requires Matches(line, key)
    ensures ':' in Trim(line)
  {
    var t, k := Trim(line), Lower(key);
    assert Lower(t)[|k|] == (k + ":")[|k|] == ':';
    assert LowerChar(t[|k|]) == ':';
  }

  /** The lines with every line of the key replaced. */
  function Replaced(lines: seq<string>, key: string, line: string): seq<string> {
    if lines == [] then []
    else
      Replaced(lines[..|lines| - 1], key, line) + [if Matches(lines[|lines| - 1], key) then line else lines[|lines| - 1]]
  }

  ghost predicate Occurs(lines: seq<string>, key: string) {
    exists l <- lines :: Matches(l, key)
  }

  lemma OccursSnoc(lines: seq<string>, last: string, key: string)
    ensures Occurs(lines + [last], key) <==> Occurs(lines, key) || Matches(last, key)
  {
    hide Matches;
    assert forall l :: l in lines + [last] <==> l in lines || l == last;
  }

  /** The lines after adding a field: replaced where it occurs, in front where it does not. */
  ghost function WithField(lines: seq<string>, key: string, line: string): seq<string> {
    if Occurs(lines, key) then Replaced(lines, key, line) else [line] + lines
  }

  ghost function WithMetadata(description: string, key: string, value: string): string {
    if description == "" then FieldLine(key, value)
    else Join(WithField(Split(description, '\n'), key, FieldLine(key, value)), '\n')
  }

  method AddMetadataField(description: string, key: string, value: string) returns (text: string)
    ensures text == WithMetadata(description, key, value)
  {
    var fieldLine := FieldLine(key, value);
    if description == "" {
      return fieldLine;
    }
    var lines := Split(description, '\n');
    var newLines: seq<string> := [];
    var found := false;
    for i := 0 to |lines|
      invariant newLines == Replaced(lines[..i], key, fieldLine)
      invariant found <==> Occurs(lines[..i], key)
    {
      assert lines[..i + 1] == lines[..i] + [lines[i]];
      var trimmed := Trim(lines[i]);
      if (Lower(key) + ":") <= Lower(trimmed) {
        newLines := newLines + [fieldLine];
        found := true;
      } else {
        newLines := newLines + [lines[i]];
      }
    }
    assert lines[..|lines|] == lines;
    if !found {
      ReplacedNothing(lines, key, fieldLine);
      newLines := [fieldLine] + newLines;
    }
    text := Join(newLines, '\n');
  }

  lemma {:induction false} ReplacedNothing(lines: seq<string>, key: string, line: string)
    requires !Occurs(lines, key)
    ensures Replaced(lines, key, line) == lines
  {
    hide Matches;
    if lines != [] {
      var k := |lines| - 1;
      OccursSnoc(lines[..k], lines[k], key);
      assert lines == lines[..k] + [lines[k]];
      hide Occurs;
      ReplacedNothing(lines[..k], key, line);
    }
  }

  // ---------- Laws of the metadata fields ----------

  /** A key as the callers use it: lower-case, with nothing to trim in front, no colon, no line break. */
  predicate MetadataKey(key: string) {
    key != "" && IsLower(key) && !IsSpace(key[0]) && ':' !in key && '\n' !in key
  }

  lemma FieldLineMatches(key: string, value: string)
    requires MetadataKey(key)
    ensures Matches(FieldLine(key, value), key) && ValueOf(FieldLine(key, value)) == Trim(value)
  {
    var t, tail := Trim(FieldLine(key, value)), TrimRight(" " + value);
    FieldLineTrimmed(key, value);
    TailReads(value);
    LowerFixed(key);
    LowerFixed(key + ":");
    LowerPrefix(key + ":", tail);
    IndexOfUnique(key, ':', tail);
    hide Trim, TrimRight, IndexOf, Lower;
    assert t == key + ":" + tail && t[|key| + 1..] == tail;
  }

  lemma LowerPrefix(a: string, b: string)
    ensures Lower(a) <= Lower(a + b)
  {
    assert forall i | 0 <= i < |a| :: Lower(a + b)[i] == LowerChar((a + b)[i]) == LowerChar(a[i]);
  }

  /** Lines match at most one of two keys neither of which, with its colon, is a prefix of the other. */
  predicate Distinct(key1: string, key2: string) {
    !((key1 + ":") <= (key2 + ":")) && !((key2 + ":") <= (key1 + ":"))
  }

  lemma PrefixesNest(a: string, b: string, t: string)
    requires a <= t && b <= t
    ensures a <= b || b <= a
  {
  }

  lemma MatchesOne(line: string, key1: string, key2: string)
    requires MetadataKey(key1) && MetadataKey(key2) && Distinct(key1, key2)
    ensures !(Matches(line, key1) && Matches(line, key2))
  {
    LowerFixed(key1);
    LowerFixed(key2);
    var p1, p2, t := key1 + ":", key2 + ":", Lower(Trim(line));
    if p1 <= t && p2 <= t {
      PrefixesNest(p1, p2, t);
    }
  }

  /** The lines of the text that results, when the field line is one line. */
  lemma LinesOfAdded(d: string, key: string, value: string)
    requires '\n' !in key && '\n' !in value
    ensures Split(WithMetadata(d, key, value), '\n') ==
      if d == "" then [FieldLine(key, value)] else WithField(Split(d, '\n'), key, FieldLine(key, value))
  {
    var line, lines := FieldLine(key, value), Split(d, '\n');
    if d == "" {
      SplitWhole(line, '\n');
    } else {
      ReplacedOneLine(lines, key, line);
      SplitJoin(WithField(lines, key, line), '\n');
    }
  }

  lemma {:induction false} ReplacedOneLine(lines: seq<string>, key: string, line: string)
    requires '\n' !in line && forall l <- lines :: '\n' !in l
    ensures |Replaced(lines, key, line)| == |lines| && forall l <- Replaced(lines, key, line) :: '\n' !in l
  {
    if lines != [] {
      ReplacedOneLine(lines[..|lines| - 1], key, line);
      assert lines[|lines| - 1] in lines;
    }
  }

  lemma {:induction false} FieldAfterReplace(lines: seq<string>, key: string, line: string)
    requires Occurs(lines, key) && Matches(line, key)
    ensures FieldIn(Replaced(lines, key, line), key) == ValueOf(line)
  {
    ReplacedHead(lines, key, line);
    if !Matches(lines[0], key) {
      var l :| l in lines && Matches(l, key);
      assert l in lines[1..] by { assert lines == [lines[0]] + lines[1..]; }
      FieldAfterReplace(lines[1..], key, line);
    }
  }

  lemma {:induction false} ReplacedHead(lines: seq<string>, key: string, line: string)
    requires lines != []
    ensures Replaced(lines, key, line) ==
      [if Matches(lines[0], key) then line else lines[0]] + Replaced(lines[1..], key, line)
  {
    var k := |lines| - 1;
    if k > 0 {
      ReplacedHead(lines[..k], key, line);
      assert lines[..k][1..] == lines[1..][..k - 1] && lines[1..][k - 1] == lines[k];
    } else {
      assert lines[..0] == [] && lines[1..] == [];
    }
  }

  /** The value is that of the first matching line, and empty without one. */
  lemma {:induction false} FieldIsFirst(lines: seq<string>, key: string, i: nat)
    requires i < |lines| && Matches(lines[i], key) && forall j | 0 <= j < i :: !Matches(lines[j], key)
    ensures FieldIn(lines, key) == ValueOf(lines[i])
  {
    if i > 0 {
      assert Matches(lines[1..][i - 1], key);
      forall j | 0 <= j < i - 1 ensures !Matches(lines[1..][j], key) { assert !Matches(lines[j + 1], key); }
      FieldIsFirst(lines[1..], key, i - 1);
    }
  }

  lemma MetadataIsFirst(d: string, key: string)
    ensures var lines := Split(d, '\n');
      && (forall i | 0 <= i < |lines| && Matches(lines[i], key) && (forall j | 0 <= j < i :: !Matches(lines[j], key)) ::
            Metadata(d, key) == ValueOf(lines[i]))
      && (!Occurs(lines, key) ==> Metadata(d, key) == "")
  {
    var lines := Split(d, '\n');
    forall i | 0 <= i < |lines| && Matches(lines[i], key) && (forall j | 0 <= j < i :: !Matches(lines[j], key))
      ensures Metadata(d, key) == ValueOf(lines[i])
    {
      FieldIsFirst(lines, key, i);
    }
    if !Occurs(lines, key) { NoField(lines, key); }
  }

  lemma {:induction false} NoField(lines: seq<string>, key: string)
    requires !Occurs(lines, key)
    ensures FieldIn(lines, key) == ""
  {
    if lines != [] {
      assert lines[0] in lines && forall l <- lines[1..] :: l in lines;
      NoField(lines[1..], key);
    }
  }

  /** A line matches a lower-case key whatever the case of its letters and the space around it. */
  lemma AnyCaseMatches(line: string, key: string, name: string, value: string)
    requires MetadataKey(key) && Lower(name) == key && !IsSpace(name[0]) && Trim(line) == name + [':'] + value
    ensures Matches(line, key)
    ensures ':' !in name ==> ValueOf(line) == Trim(value)
  {
    hide Trim, IndexOf, Lower, Split;
    LowerFixed(key);
    LowerPrefix(name + [':'], value);
    LowerSnoc(name, ':');
    if ':' !in name {
      IndexOfUnique(name, ':', value);
      assert (name + [':'] + value)[|name| + 1..] == value;
    }
  }

  lemma LowerSnoc(s: string, c: char)
    ensures Lower(s + [c]) == Lower(s) + [LowerChar(c)]
  {
  }

  /** Adding a one-line field changes its own lines only: every one of them becomes the field line, all others stay where
      they are; without one the field line comes first. */
  lemma OtherLinesStay(d: string, key: string, value: string)
    requires '\n' !in key && '\n' !in value && d != ""
    ensures var before, after := Split(d, '\n'), Split(WithMetadata(d, key, value), '\n');
      if Occurs(before, key) then
        |after| == |before| && forall i | 0 <= i < |before| ::
          after[i] == if Matches(before[i], key) then FieldLine(key, value) else before[i]
      else after == [FieldLine(key, value)] + before
  {
    LinesOfAdded(d, key, value);
    ReplacedAt(Split(d, '\n'), key, FieldLine(key, value));
    hide Split, Matches, FieldLine;
  }

  lemma {:induction false} ReplacedAt(lines: seq<string>, key: string, line: string)
    ensures |Replaced(lines, key, line)| == |lines|
    ensures forall i | 0 <= i < |lines| :: Replaced(lines, key, line)[i] == if Matches(lines[i], key) then line else lines[i]
  {
    hide Matches;
    if lines != [] { ReplacedAt(lines[..|lines| - 1], key, line); }
  }

  /** Put-get: the field reads back as the trimmed value. */
  lemma AddedFieldReadsBack(d: string, key: string, value: string)
    requires MetadataKey(key) && '\n' !in value
    ensures Metadata(WithMetadata(d, key, value), key) == Trim(value)
  {
    var lines, line := Split(d, '\n'), FieldLine(key, value);
    LinesOfAdded(d, key, value);
    FieldLineMatches(key, value);
    if d != "" && Occurs(lines, key) {
      FieldAfterReplace(lines, key, line);
    }
  }

  lemma {:induction false} ReplacedTwice(lines: seq<string>, key: string, line1: string, line2: string)
    requires Matches(line1, key)
    ensures Replaced(Replaced(lines, key, line1), key, line2) == Replaced(lines, key, line2)
    ensures Occurs(lines, key) ==> Occurs(Replaced(lines, key, line1), key)
  {
    hide Matches;
    if lines != [] {
      var k := |lines| - 1;
      var front := Replaced(lines[..k], key, line1);
      ReplacedTwice(lines[..k], key, line1, line2);
      var last := if Matches(lines[k], key) then line1 else lines[k];
      assert (front + [last])[..|front|] == front;
      if Occurs(lines, key) {
        var l :| l in lines && Matches(l, key);
        if Matches(lines[k], key) {
          assert line1 in front + [last];
        } else {
          assert l in lines[..k] by { assert lines == lines[..k] + [lines[k]]; }
          var m :| m in front && Matches(m, key);
          assert m in front + [last];
        }
      }
    }
  }

  /** Put-put, as exact strings. */
  lemma AddedTwice(d: string, key: string, v1: string, v2: string)
    requires MetadataKey(key) && '\n' !in v1
    ensures WithMetadata(WithMetadata(d, key, v1), key, v2) == WithMetadata(d, key, v2)
  {
    var lines, l1, l2 := Split(d, '\n'), FieldLine(key, v1), FieldLine(key, v2);
    LinesOfAdded(d, key, v1);
    FieldLineMatches(key, v1);
    var once := if d == "" then [l1] else WithField(lines, key, l1);
    assert Occurs(once, key) by {
      if d != "" && Occurs(lines, key) { ReplacedTwice(lines, key, l1, l2); } else { assert once[0] == l1; }
    }
    assert WithMetadata(d, key, v1) != "" by { if WithMetadata(d, key, v1) == "" { assert once == [""]; EmptyHasNoMatch(key); } }
    if d != "" && Occurs(lines, key) {
      ReplacedTwice(lines, key, l1, l2);
    } else {
      var rest := if d == "" then [] else lines;
      assert once == [l1] + rest;
      ReplacedHead(once, key, l2);
      assert once[1..] == rest;
      if d != "" { ReplacedNothing(lines, key, l2); }
    }
  }

  lemma EmptyHasNoMatch(key: string)
    ensures !Matches("", key)
  {
    assert Trim("") == "";
  }

  lemma {:induction false} ReplaceElsewhere(lines: seq<string>, key: string, line: string, other: string)
    requires MetadataKey(key) && MetadataKey(other) && Distinct(key, other) && Matches(line, key)
    ensures FieldIn(Replaced(lines, key, line), other) == FieldIn(lines, other)
  {
    if lines != [] {
      ReplacedHead(lines, key, line);
      MatchesOne(line, key, other);
      MatchesOne(lines[0], key, other);
      ReplaceElsewhere(lines[1..], key, line, other);
    }
  }

  /** Independence: adding one field leaves the other as it was. */
  lemma OtherFieldUnchanged(d: string, key: string, value: string, other: string)
    requires MetadataKey(key) && MetadataKey(other) && Distinct(key, other) && '\n' !in value
    ensures Metadata(WithMetadata(d, key, value), other) == Metadata(d, other)
  {
    var lines, line := Split(d, '\n'), FieldLine(key, value);
    LinesOfAdded(d, key, value);
    FieldLineMatches(key, value);
    MatchesOne(line, key, other);
    if d == "" {
      EmptyHasNoField(other);
      assert [line][1..] == [];
      assert FieldIn([line], other) == FieldIn([line][1..], other);
    } else if Occurs(lines, key) {
      ReplaceElsewhere(lines, key, line, other);
    } else {
      assert ([line] + lines)[1..] == lines;
    }
  }

  const INTEGRATION_BRANCH := "integration_branch"
  const BASE_BRANCH := "base_branch"

  /** The two fields the callers use are independent. */
  lemma BranchFieldsIndependent()
    ensures MetadataKey(INTEGRATION_BRANCH) && MetadataKey(BASE_BRANCH) && Distinct(INTEGRATION_BRANCH, BASE_BRANCH)
  {
    assert (INTEGRATION_BRANCH + ":")[0] == 'i' && (BASE_BRANCH + ":")[0] == 'b';
  }
}
