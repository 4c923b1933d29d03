/** Structured records kept as "key: value" lines inside free text: reading a line, collecting the fields of a
    text, and replacing a record's lines while keeping the rest.  (shared by internal/beads/fields.go,
    beads_agent.go and handoff.go) */
module KeyLines {
  import opened Text

  datatype Entry = Entry(key: string, value: string)

  /** How every parser here reads a line: trimmed, cut at the first colon, both sides trimmed, key lower-cased. */
  function KeyValue(line: string): Option<Entry> {
    var t := Trim(line);
    var colon := IndexOf(t, ':');
    if colon == -1 then None else Some(Entry(Lower(Trim(t[..colon])), Trim(t[colon + 1..])))
  }

  /** How every formatter here writes one. */
  function FieldLine(key: string, value: string): string {
    key + ": " + value
  }

  /** A key that reads back as itself. */
  predicate PlainKey(key: string) {
    key != "" && forall i | 0 <= i < |key| :: 'a' <= key[i] <= 'z' || key[i] == '_'
  }

  /** A value that reads back as itself. */
  predicate Clean(value: string) {
    Trimmed(value) && '\n' !in value
  }

  lemma FieldLineTrimmed(key: string, value: string)
    requires key != "" && !IsSpace(key[0])
    ensures Trim(FieldLine(key, value)) == key + [':'] + TrimRight(" " + value)
  {
    var line := FieldLine(key, value);
    assert line == (key + ":") + (" " + value) && TrimLeft(line) == line;
    TrimRightAppend(key + ":", " " + value);
  }

  lemma TailReads(value: string)
    ensures Trim(TrimRight(" " + value)) == Trim(value)
  {
    TrimAbsorbsRight(" " + value);
    assert Trim(" " + value) == Trim(value) by { assert (" " + value)[1..] == value; }
  }

  lemma PlainKeyReads(key: string)
    requires PlainKey(key)
    ensures Lower(Trim(key)) == key
  {
    TrimFixed(key);
    LowerFixed(key);
  }

  lemma FieldLineReads(key: string, value: string)
    requires PlainKey(key)
    ensures KeyValue(FieldLine(key, value)) == Some(Entry(key, Trim(value)))
    ensures '\n' !in value ==> '\n' !in FieldLine(key, value)
  {
    var t, tail := Trim(FieldLine(key, value)), TrimRight(" " + value);
    FieldLineTrimmed(key, value);
    TailReads(value);
    PlainKeyReads(key);
    IndexOfUnique(key, ':', tail);
    hide Trim, TrimRight, IndexOf, Lower, PlainKey;
    assert t[..|key|] == key && t[|key| + 1..] == tail;
  }

  /** A line is cut at its first colon, each side trimmed and the key lower-cased, however it is spaced; without a colon
      it says nothing. */
  lemma LineReads(before: string, after: string)
    requires ':' !in before
    ensures KeyValue(before + [':'] + after) == Some(Entry(Lower(Trim(before)), Trim(after)))
  {
    var key, value := TrimLeft(before), TrimRight(after);
    TrimLeftShape(before);
    TrimAtColon(before, after);
    IndexOfUnique(key, ':', value);
    TrimLeftTwice(before);
    TrimAbsorbsRight(after);
    hide TrimLeft, TrimRight, Trim, IndexOf, Lower;
    var t := key + [':'] + value;
    assert t[..|key|] == key && t[|key| + 1..] == value;
  }

  lemma TrimAtColon(before: string, after: string)
    ensures Trim(before + [':'] + after) == TrimLeft(before) + [':'] + TrimRight(after)
  {
    var front := LeftSpaces(before);
    var key := TrimLeft(before);
    TrimLeftShape(before);
    TrimRightAppend(key + [':'], after);
    hide TrimRight;
    assert before + [':'] + after == front + (key + [':'] + after);
    TrimLeftSpaces(front, key + [':'] + after);
    StartsPlain(key, after);
  }

  lemma StartsPlain(key: string, after: string)
    requires key != "" ==> !IsSpace(key[0])
    ensures TrimLeft(key + [':'] + after) == key + [':'] + after
  {
    assert (key + [':'] + after)[0] == if key == "" then ':' else key[0];
  }

  lemma TrimLeftTwice(s: string)
    ensures Trim(TrimLeft(s)) == Trim(s)
  {
    TrimLeftShape(s);
  }

  lemma NoColonSaysNothing(line: string)
    requires ':' !in line
    ensures KeyValue(line) == None
  {
    TrimIsTrimmed(line);
  }

  lemma BlankLineReads(line: string)
    requires Blank(line)
    ensures KeyValue(line) == None
  {
  }

  lemma ReadValuesAreClean(line: string)
    requires '\n' !in line
    ensures KeyValue(line).Some? ==> Clean(KeyValue(line).value.value)
  {
    var t := Trim(line);
    TrimIsTrimmed(line);
    var colon := IndexOf(t, ':');
    if colon != -1 {
      TrimIsTrimmed(t[colon + 1..]);
      assert forall c | c in t[colon + 1..] :: c in t;
    }
  }

  // ---------- Reading one record's lines ----------

  /** What a line sets: the slot of its key, if the key has one and the value is acceptable there. */
  function ReadWith<S>(slotOf: string -> Option<S>, accepts: (S, string) -> bool, line: string): map<S, string> {
    match KeyValue(line)
    case None => map[]
    case Some(e) =>
      var slot := slotOf(e.key);
      if slot.None? || !accepts(slot.value, e.value) then map[] else map[slot.value := e.value]
  }

  predicate OwnedBy<S>(slotOf: string -> Option<S>, line: string) {
    var e := KeyValue(line);
    e.Some? && slotOf(e.value.key).Some?
  }

  lemma ReadFieldLine<S>(
    slotOf: string -> Option<S>, accepts: (S, string) -> bool, name: string, slot: Option<S>, value: string)
    requires PlainKey(name) && slotOf(name) == slot
    ensures ReadWith(slotOf, accepts, FieldLine(name, value)) ==
      if slot.None? || !accepts(slot.value, Trim(value)) then map[] else map[slot.value := Trim(value)]
    ensures OwnedBy(slotOf, FieldLine(name, value)) <==> slot.Some?
    ensures '\n' !in value ==> '\n' !in FieldLine(name, value)
  {
    FieldLineReads(name, value);
  }

  lemma ReadBlankLine<S>(slotOf: string -> Option<S>, accepts: (S, string) -> bool, line: string)
    requires Blank(line)
    ensures ReadWith(slotOf, accepts, line) == map[] && !OwnedBy(slotOf, line)
  {
    BlankLineReads(line);
  }

  lemma ReadIsClean<S>(slotOf: string -> Option<S>, accepts: (S, string) -> bool, line: string)
    requires '\n' !in line
    ensures forall s <- ReadWith(slotOf, accepts, line) :: Clean(ReadWith(slotOf, accepts, line)[s])
  {
    ReadValuesAreClean(line);
  }

  /** The parsers' loop body: the slot a line sets, and its value. */
  method ReadLine<S>(slotOf: string -> Option<S>, accepts: (S, string) -> bool, line: string)
    returns (slot: Option<S>, value: string)
    ensures ReadWith(slotOf, accepts, line) == if slot.None? then map[] else map[slot.value := value]
  {
    var trimmed := Trim(line);
    var colon := IndexOf(trimmed, ':');
    if colon == -1 {
      return None, "";
    }
    var key := Trim(trimmed[..colon]);
    value := Trim(trimmed[colon + 1..]);
    slot := slotOf(Lower(key));
    if slot.Some? && !accepts(slot.value, value) {
      slot := None;
    }
  }

  /** A field of a collected record, empty when it was not set. */
  function Get<S>(m: map<S, string>, s: S): string {
    if s in m then m[s] else ""
  }

  /** A record of at most one field. */
  function Single<S>(s: S, value: string): map<S, string> {
    if value == "" then map[] else map[s := value]
  }

  /** What stands on top shows; what is below shows where nothing is on top. */
  lemma OverlayGet<S(!new)>(below: map<S, string>, top: map<S, string>, s: S)
    requires s in top ==> top[s] != ""
    ensures Get(below + top, s) == if Get(top, s) == "" then Get(below, s) else Get(top, s)
  {
  }

  lemma NothingMerged<S>(a: map<S, string>, b: map<S, string>)
    ensures a + b == map[] <==> a == map[] && b == map[]
  {
    assert (a + b).Keys == a.Keys + b.Keys;
  }

  // ---------- Records ----------

  lemma InLonger<T>(s: seq<T>, x: T)
    requires s != []
    ensures x in s <==> x in s[..|s| - 1] || x == s[|s| - 1]
  {
    assert s == s[..|s| - 1] + [s[|s| - 1]];
  }

  /** One line per slot that has a text, in order. */
  function SlotLines<T(!new)>(order: seq<T>, text: T -> string): seq<string> {
    if order == [] then []
    else
      var line := text(order[|order| - 1]);
      SlotLines(order[..|order| - 1], text) + if line == "" then [] else [line]
  }

  /** The lines one slot gives: its text, if there is one. */
  function Lines<T(!new)>(order: seq<T>, text: T -> string, i: nat): seq<string>
    requires i < |order|
  {
    if text(order[i]) == "" then [] else [text(order[i])]
  }

  lemma SlotLinesStep<T(!new)>(order: seq<T>, text: T -> string, k: nat)
    requires k < |order|
    ensures SlotLines(order[..k + 1], text) == SlotLines(order[..k], text) + Lines(order, text, k)
  {
    assert order[..k + 1][..k] == order[..k];
  }

  /** One slot with a text, and no other. */
  lemma {:induction false} OneSlot<T(!new)>(order: seq<T>, text: T -> string, k: nat)
    requires k < |order| && text(order[k]) != "" && forall i | 0 <= i < |order| && i != k :: text(order[i]) == ""
    ensures SlotLines(order, text) == [text(order[k])]
    decreases |order|
  {
    var front := order[..|order| - 1];
    if k < |front| {
      OneSlot(front, text, k);
      assert [text(order[k])] + [] == [text(order[k])];
    } else {
      NoSlot(front, text);
      assert [] + [text(order[k])] == [text(order[k])];
    }
  }

  lemma {:induction false} NoSlot<T(!new)>(order: seq<T>, text: T -> string)
    requires forall i | 0 <= i < |order| :: text(order[i]) == ""
    ensures SlotLines(order, text) == []
  {
    if order != [] { NoSlot(order[..|order| - 1], text); }
  }

  /** Eight slots written out. */
  lemma SlotLines8<T(!new)>(order: seq<T>, text: T -> string)
    requires |order| >= 8
    ensures SlotLines(order[..8], text) ==
      Lines(order, text, 0) + Lines(order, text, 1) + Lines(order, text, 2) + Lines(order, text, 3)
      + Lines(order, text, 4) + Lines(order, text, 5) + Lines(order, text, 6) + Lines(order, text, 7)
  {
    assert order[..0] == [];
    SlotLinesStep(order, text, 0);
    SlotLinesStep(order, text, 1);
    SlotLinesStep(order, text, 2);
    SlotLinesStep(order, text, 3);
    SlotLinesStep(order, text, 4);
    SlotLinesStep(order, text, 5);
    SlotLinesStep(order, text, 6);
    SlotLinesStep(order, text, 7);
  }

  /** Thirteen slots written out. */
  lemma SlotLines13<T(!new)>(order: seq<T>, text: T -> string)
    requires |order| >= 13
    ensures SlotLines(order[..13], text) ==
      Lines(order, text, 0) + Lines(order, text, 1) + Lines(order, text, 2) + Lines(order, text, 3)
      + Lines(order, text, 4) + Lines(order, text, 5) + Lines(order, text, 6) + Lines(order, text, 7)
      + Lines(order, text, 8) + Lines(order, text, 9) + Lines(order, text, 10) + Lines(order, text, 11)
      + Lines(order, text, 12)
  {
    SlotLines8(order, text);
    SlotLinesStep(order, text, 8);
    SlotLinesStep(order, text, 9);
    SlotLinesStep(order, text, 10);
    SlotLinesStep(order, text, 11);
    SlotLinesStep(order, text, 12);
  }

  lemma {:induction false} SlotLinesMembers<T(!new)>(order: seq<T>, text: T -> string)
    ensures forall line :: line in SlotLines(order, text) <==> line != "" && exists t <- order :: text(t) == line
  {
    if order != [] {
      SlotLinesMembers(order[..|order| - 1], text);
      assert order == order[..|order| - 1] + [order[|order| - 1]];
    }
  }

  /** The lines of a text made of a title of any number of lines, an empty line, and further lines. */
  lemma LinesUnderTitle(title: string, lines: seq<string>)
    requires forall line <- lines :: '\n' !in line
    ensures Split(Join([title, ""] + lines, '\n'), '\n') == Split(title, '\n') + [""] + lines
  {
    var rest := [""] + lines;
    assert [title, ""] + lines == [title] + rest;
    JoinAppend([title], rest, '\n');
    SplitAppend(title, Join(rest, '\n'), '\n');
    SplitJoin(rest, '\n');
    assert Split(title, '\n') + rest == Split(title, '\n') + [""] + lines;
  }

  /** The lines that a record's lines make in a text, where a value may bring line breaks of its own. */
  function Spread(head: seq<string>): seq<string> {
    if head == [] then [] else Split(Join(head, '\n'), '\n')
  }

  lemma SpreadOneLine(head: seq<string>)
    requires forall line <- head :: '\n' !in line
    ensures Spread(head) == head
  {
    if head != [] { SplitJoin(head, '\n'); }
  }

  /** A record kind: what a line contributes to it, and which lines it owns. */
  datatype Lens<!S(!new, ==)> = Lens(read: string -> map<S, string>, owns: string -> bool, blank: string -> bool) {

    /** A line that is not the record's contributes nothing, and a blank line is nobody's. */
    ghost predicate Sound() {
      && blank("")
      && (forall line :: blank(line) ==> !owns(line))
      && (forall line :: !owns(line) ==> read(line) == map[])
    }

    /** The fields of a text: a later line overrides an earlier one. */
    function Collect(lines: seq<string>): map<S, string> {
      if lines == [] then map[] else Collect(lines[..|lines| - 1]) + read(lines[|lines| - 1])
    }

    /** The lines that are not the record's. */
    function Others(lines: seq<string>): seq<string> {
      if lines == [] then []
      else Others(lines[..|lines| - 1]) + if owns(lines[|lines| - 1]) then [] else [lines[|lines| - 1]]
    }

    function TrimTail(lines: seq<string>): seq<string> {
      if lines != [] && blank(lines[|lines| - 1]) then TrimTail(lines[..|lines| - 1]) else lines
    }

    function TrimHead(lines: seq<string>): seq<string> {
      if lines != [] && blank(lines[0]) then TrimHead(lines[1..]) else lines
    }

    /** What a text says besides the record: the other lines without blank edges. */
    function Content(description: string): seq<string> {
      if description == "" then [] else TrimHead(TrimTail(Others(Split(description, '\n'))))
    }

    predicate NoBlankEdge(lines: seq<string>) {
      lines != [] ==> !blank(lines[0]) && !blank(lines[|lines| - 1])
    }

    /** Free of the record, ready to be kept. */
    ghost predicate Settled(lines: seq<string>) {
      NoBlankEdge(lines) && forall line <- lines :: !owns(line) && '\n' !in line
    }

    /** The record's lines first, an empty line, then the content. */
    function Put(head: seq<string>, content: seq<string>): string {
      if head == [] then Join(content, '\n')
      else if content == [] then Join(head, '\n')
      else Join(head, '\n') + "\n\n" + Join(content, '\n')
    }

    /** The loops every setter shares: keep the lines that are not the record's, then cut blank lines off the end
        and off the front. */
    method OtherContent(description: string) returns (otherLines: seq<string>)
      ensures otherLines == Content(description)
    {
      otherLines := [];
      if description == "" {
        return;
      }
      var lines := Split(description, '\n');
      for i := 0 to |lines|
        invariant otherLines == Others(lines[..i])
      {
        assert lines[..i + 1][..i] == lines[..i];
        if !owns(lines[i]) {
          otherLines := otherLines + [lines[i]];
        }
      }
      assert lines[..|lines|] == lines;
      while |otherLines| > 0 && blank(otherLines[|otherLines| - 1])
        invariant TrimTail(otherLines) == TrimTail(Others(lines))
      {
        otherLines := otherLines[..|otherLines| - 1];
      }
      while |otherLines| > 0 && blank(otherLines[0])
        invariant TrimHead(otherLines) == Content(description)
      {
        otherLines := otherLines[1..];
      }
    }

    /** Every setter's last lines: formatted record first, an empty line, the rest. */
    method Assemble(ghost head: seq<string>, otherLines: seq<string>, formatted: string) returns (text: string)
      requires formatted == Join(head, '\n') && forall line <- head :: line != ""
      ensures text == Put(head, otherLines)
    {
      JoinEmpty(head, '\n');
      assert head != [] ==> head[0] in head;
      if formatted == "" {
        return Join(otherLines, '\n');
      }
      if |otherLines| == 0 {
        return formatted;
      }
      text := formatted + "\n\n" + Join(otherLines, '\n');
    }

    // ---------- Collecting ----------

    lemma {:induction false} CollectAppend(a: seq<string>, b: seq<string>)
      ensures Collect(a + b) == Collect(a) + Collect(b)
    {
      if b == [] {
        assert a + b == a;
      } else {
        var front, last := b[..|b| - 1], b[|b| - 1];
        CollectAppend(a, front);
        CollectSnoc(a + front, last);
        CollectSnoc(front, last);
        assert a + b == a + front + [last] && b == front + [last];
        MergeAssociative(Collect(a), Collect(front), read(last));
      }
    }

    /** One more line read. */
    lemma CollectStep(lines: seq<string>, i: nat, slot: Option<S>, value: string)
      requires i < |lines|
      requires read(lines[i]) == if slot.None? then map[] else map[slot.value := value]
      ensures Collect(lines[..i + 1]) == if slot.None? then Collect(lines[..i]) else Collect(lines[..i])[slot.value := value]
    {
      assert lines[..i + 1][..i] == lines[..i];
      var m := Collect(lines[..i]);
      assert m + map[] == m;
    }

    /** Clean lines collect to clean values. */
    lemma {:induction false} CollectClean(lines: seq<string>)
      requires forall line <- lines, s <- read(line) :: Clean(read(line)[s])
      ensures forall s <- Collect(lines) :: Clean(Collect(lines)[s])
    {
      if lines != [] {
        CollectClean(lines[..|lines| - 1]);
        assert lines[|lines| - 1] in lines;
      }
    }

    lemma CollectSnoc(lines: seq<string>, line: string)
      ensures Collect(lines + [line]) == Collect(lines) + read(line)
    {
      assert (lines + [line])[..|lines|] == lines;
    }

    /** A line that is not ours, and one more. */
    lemma CollectSecond(x: string, y: string)
      requires read(x) == map[]
      ensures Collect([x, y]) == read(y)
    {
      CollectSnoc([], x);
      CollectSnoc([x], y);
      assert [] + [x] == [x] && [x] + [y] == [x, y];
      assert map[] + read(y) == read(y);
    }

    lemma MergeAssociative(a: map<S, string>, b: map<S, string>, c: map<S, string>)
      ensures a + b + c == a + (b + c)
    {
    }

    lemma Surrounded(a: seq<string>, m: seq<string>, b: seq<string>)
      requires Collect(m) == map[]
      ensures Collect(a + m + b) == Collect(a) + Collect(b)
    {
      CollectAppend(a, m);
      CollectAppend(a + m, b);
      assert Collect(a) + map[] == Collect(a);
    }

    lemma {:induction false} CollectNothing(lines: seq<string>)
      requires forall line <- lines :: read(line) == map[]
      ensures Collect(lines) == map[]
    {
      if lines != [] { CollectNothing(lines[..|lines| - 1]); }
    }

    lemma CollectSlotStep<T(!new)>(order: seq<T>, text: T -> string)
      requires Sound() && order != []
      ensures Collect(SlotLines(order, text)) ==
        Collect(SlotLines(order[..|order| - 1], text)) + read(text(order[|order| - 1]))
    {
      var front, line := SlotLines(order[..|order| - 1], text), text(order[|order| - 1]);
      if line == "" {
        assert front + [] == front && read("") == map[];
      } else {
        CollectSnoc(front, line);
      }
    }

    /** What the lines say about one slot. */
    lemma {:induction false} CollectSlot(order: seq<S>, text: S -> string, slot: S)
      requires Sound() && forall i | 0 <= i < |order| :: read(text(order[i])).Keys <= {order[i]}
      ensures var c := Collect(SlotLines(order, text));
        (slot in c <==> slot in order && slot in read(text(slot))) && (slot in c ==> c[slot] == read(text(slot))[slot])
    {
      if order != [] {
        hide Collect, SlotLines, Sound;
        var front, last := order[..|order| - 1], order[|order| - 1];
        CollectSlot(front, text, slot);
        CollectSlotStep(order, text);
        assert slot in order <==> slot in front || slot == last by { assert order == front + [last]; }
        var sofar, more := Collect(SlotLines(front, text)), read(text(last));
        if slot in more {
          assert slot == last && (sofar + more)[slot] == more[slot];
        } else {
          assert slot in sofar ==> (sofar + more)[slot] == sofar[slot];
        }
      }
    }

    /** Each slot's line speaks for that slot only, so the record reads back slot by slot. */
    lemma CollectSlots(order: seq<S>, text: S -> string)
      requires Sound() && forall s <- order :: read(text(s)).Keys <= {s}
      ensures forall s :: s in Collect(SlotLines(order, text)) <==> s in order && s in read(text(s))
      ensures forall s <- Collect(SlotLines(order, text)) :: Collect(SlotLines(order, text))[s] == read(text(s))[s]
    {
      forall s ensures s in Collect(SlotLines(order, text)) <==> s in order && s in read(text(s)) {
        CollectSlot(order, text, s);
      }
      forall s | s in Collect(SlotLines(order, text))
        ensures Collect(SlotLines(order, text))[s] == read(text(s))[s]
      {
        CollectSlot(order, text, s);
      }
    }

    /** The same for another record's lines of which only one concerns this lens. */
    lemma {:induction false} CollectForeign<T(!new)>(order: seq<T>, text: T -> string, shared: T)
      requires Sound()
      requires forall i | 0 <= i < |order| && order[i] != shared :: read(text(order[i])) == map[]
      ensures Collect(SlotLines(order, text)) == if shared in order then read(text(shared)) else map[]
    {
      if order != [] {
        hide *;
        var front, last := order[..|order| - 1], order[|order| - 1];
        CollectForeign(front, text, shared);
        CollectSlotStep(order, text);
        InLonger(order, shared);
        MergeSame(read(text(shared)), shared in front, last == shared);
      }
    }

    lemma MergeSame(seen: map<S, string>, before: bool, now: bool)
      ensures (if before then seen else map[]) + (if now then seen else map[]) == if before || now then seen else map[]
    {
    }

    // ---------- Filtering ----------

    lemma {:induction false} OthersAppend(a: seq<string>, b: seq<string>)
      ensures Others(a + b) == Others(a) + Others(b)
    {
      if b == [] {
        assert a + b == a;
      } else {
        OthersAppend(a, b[..|b| - 1]);
        assert (a + b)[..|a + b| - 1] == a + b[..|b| - 1];
      }
    }

    lemma {:induction false} OthersMembers(lines: seq<string>)
      ensures forall line :: line in Others(lines) <==> line in lines && !owns(line)
    {
      if lines != [] {
        OthersMembers(lines[..|lines| - 1]);
        assert lines == lines[..|lines| - 1] + [lines[|lines| - 1]];
      }
    }

    lemma {:induction false} OthersKeepsAll(lines: seq<string>)
      requires forall i | 0 <= i < |lines| :: !owns(lines[i])
      ensures Others(lines) == lines
    {
      if lines != [] {
        var k := |lines| - 1;
        OthersKeepsAll(lines[..k]);
        assert lines == lines[..k] + [lines[k]];
      }
    }

    lemma {:induction false} OthersLength(lines: seq<string>)
      ensures |Others(lines)| <= |lines|
      ensures |Others(lines)| == |lines| ==> Others(lines) == lines && forall line <- lines :: !owns(line)
    {
      if lines != [] {
        var k := |lines| - 1;
        OthersLength(lines[..k]);
        assert lines == lines[..k] + [lines[k]];
      }
    }

    /** Filtering another record's lines is blanking the slots whose line this lens owns. */
    lemma {:induction false} OthersOfSlots<T(!new)>(order: seq<T>, text: T -> string, kept: T -> string)
      requires Sound()
      requires forall i | 0 <= i < |order| :: kept(order[i]) == if owns(text(order[i])) then "" else text(order[i])
      ensures Others(SlotLines(order, text)) == SlotLines(order, kept)
    {
      if order != [] {
        hide Others, Sound;
        var k := |order| - 1;
        OthersOfSlots(order[..k], text, kept);
        OthersAppend(SlotLines(order[..k], text), if text(order[k]) == "" then [] else [text(order[k])]);
        OthersOfOne(text(order[k]));
      } else {
        OthersOfOne("");
      }
    }

    lemma OthersOfOne(line: string)
      ensures Others([]) == [] && Others([line]) == if owns(line) then [] else [line]
    {
      assert [line][..0] == [];
    }

    // ---------- Trimming blank edges ----------

    lemma {:induction false} TrimTailShape(lines: seq<string>)
      ensures var t := TrimTail(lines);
        t <= lines && (t != [] ==> !blank(t[|t| - 1])) && forall i | |t| <= i < |lines| :: blank(lines[i])
    {
      if lines != [] && blank(lines[|lines| - 1]) { TrimTailShape(lines[..|lines| - 1]); }
    }

    lemma {:induction false} TrimHeadShape(lines: seq<string>)
      ensures var t := TrimHead(lines);
        |t| <= |lines| && t == lines[|lines| - |t|..] && (t != [] ==> !blank(t[0]))
        && forall i | 0 <= i < |lines| - |t| :: blank(lines[i])
    {
      if lines != [] && blank(lines[0]) {
        var rest, t := lines[1..], TrimHead(lines[1..]);
        TrimHeadShape(rest);
        assert rest[|rest| - |t|..] == lines[|lines| - |t|..];
        forall i | 0 <= i < |lines| - |t| ensures blank(lines[i]) {
          if i > 0 { assert lines[i] == rest[i - 1]; }
        }
      }
    }

    lemma TrimKeepsSettled(lines: seq<string>)
      requires NoBlankEdge(lines)
      ensures TrimHead(TrimTail(lines)) == lines
    {
    }

    lemma ContentSettled(description: string)
      requires Sound()
      ensures Settled(Content(description))
    {
      if description != "" {
        var lines := Split(description, '\n');
        var others := Others(lines);
        OthersMembers(lines);
        TrimTailShape(others);
        TrimHeadShape(TrimTail(others));
      }
    }

    /** Trimming drops only blank lines, so no field is lost. */
    lemma CollectTrimmed(lines: seq<string>)
      requires Sound()
      ensures Collect(TrimHead(TrimTail(lines))) == Collect(lines)
    {
      CollectTrimTail(lines);
      CollectTrimHead(TrimTail(lines));
    }

    lemma {:induction false} CollectTrimTail(lines: seq<string>)
      requires Sound()
      ensures Collect(TrimTail(lines)) == Collect(lines)
    {
      if lines != [] && blank(lines[|lines| - 1]) {
        CollectTrimTail(lines[..|lines| - 1]);
        assert Collect(lines[..|lines| - 1]) + map[] == Collect(lines[..|lines| - 1]);
      }
    }

    lemma {:induction false} CollectTrimHead(lines: seq<string>)
      requires Sound()
      ensures Collect(TrimHead(lines)) == Collect(lines)
    {
      if lines != [] && blank(lines[0]) {
        CollectTrimHead(lines[1..]);
        assert lines == [lines[0]] + lines[1..];
        CollectAppend([lines[0]], lines[1..]);
        CollectNothing([lines[0]]);
        assert map[] + Collect(lines[1..]) == Collect(lines[1..]);
      }
    }

    // ---------- Putting ----------

    /** The lines of a put text. */
    lemma LinesOfPut(head: seq<string>, content: seq<string>)
      requires forall line <- head + content :: '\n' !in line
      ensures Split(Put(head, content), '\n') ==
        if head == [] && content == [] then [""]
        else if head == [] then content
        else if content == [] then head
        else head + [""] + content
    {
      if head != [] && content != [] {
        var lines := head + [""] + content;
        JoinAppend(head, [""], '\n');
        JoinAppend(head + [""], content, '\n');
        assert Put(head, content) == Join(lines, '\n');
        SplitJoin(lines, '\n');
      } else if head != [] {
        assert forall line <- head :: line in head + content;
        SplitJoin(head, '\n');
      } else if content != [] {
        assert forall line <- content :: line in head + content;
        SplitJoin(content, '\n');
      }
    }

    // ---------- What a put leaves behind ----------

    /** Every line of a value after its first is the record's own or blank. */
    predicate TailTaken(value: string) {
      forall line <- Split(value, '\n')[1..] :: !Stray(line)
    }

    /** The lines a field's text makes: its first line is the record's own. */
    lemma FieldTaken(name: string, value: string)
      requires '\n' !in name && forall v: string | '\n' !in v :: owns(FieldLine(name, v))
      ensures (forall line <- Split(FieldLine(name, value), '\n') :: !Stray(line)) <==> TailTaken(value)
    {
      var parts := Split(value, '\n');
      assert FieldLine(name, value) == (name + ": ") + value;
      SplitPrefixed(name + ": ", value, '\n');
      assert owns(FieldLine(name, parts[0])) && (name + ": ") + parts[0] == FieldLine(name, parts[0]);
      hide Split, FieldLine;
      assert forall line :: line in [(name + ": ") + parts[0]] + parts[1..] <==> line == (name + ": ") + parts[0] || line in parts[1..];
    }

    /** A record is contained exactly when the later lines of its values are taken. */
    lemma RecordContained<T(!new)>(order: seq<T>, text: T -> string, name: T -> string, value: T -> string)
      requires forall t <- order :: text(t) == if value(t) == "" then "" else FieldLine(name(t), value(t))
      requires forall t <- order :: '\n' !in name(t) && forall v: string | '\n' !in v :: owns(FieldLine(name(t), v))
      ensures Contained(SlotLines(order, text)) <==> forall t <- order :: TailTaken(value(t))
    {
      var lines := SlotLines(order, text);
      SlotLinesMembers(order, text);
      forall t | t in order ensures TailTaken(value(t)) <==> text(t) == "" || TextTaken(text(t)) {
        FieldTaken(name(t), value(t));
        assert Split("", '\n')[1..] == [];
      }
      TextsTaken(lines);
      hide SlotLines, TailTaken, Contained, TextTaken, FieldLine;
    }

    ghost predicate TextTaken(text: string) {
      forall line <- Split(text, '\n') :: !Stray(line)
    }

    lemma TextsTaken(lines: seq<string>)
      ensures Contained(lines) <==> forall text <- lines :: TextTaken(text)
    {
      if lines != [] {
        forall piece ensures piece in Split(Join(lines, '\n'), '\n') <==> exists p <- lines :: piece in Split(p, '\n') {
          JoinedPieces(lines, '\n', piece);
        }
        hide Split, Join, Stray;
      }
    }

    /** A line of the record's text that will not be taken back: neither owned nor blank. */
    predicate Stray(line: string) {
      !owns(line) && !blank(line)
    }

    /** No line of the record's text is stray.  A record line may be several lines of text when a value is. */
    ghost predicate Contained(head: seq<string>) {
      forall line <- Spread(head) :: !Stray(line)
    }

    function Strays(lines: seq<string>): nat {
      if lines == [] then 0 else Strays(lines[..|lines| - 1]) + if Stray(lines[|lines| - 1]) then 1 else 0
    }

    lemma {:induction false} StraysAppend(a: seq<string>, b: seq<string>)
      ensures Strays(a + b) == Strays(a) + Strays(b)
    {
      if b == [] {
        assert a + b == a;
      } else {
        StraysAppend(a, b[..|b| - 1]);
        assert (a + b)[..|a + b| - 1] == a + b[..|b| - 1];
      }
    }

    lemma {:induction false} NoStrays(lines: seq<string>)
      ensures Strays(lines) == 0 <==> forall line <- lines :: !Stray(line)
    {
      if lines != [] {
        NoStrays(lines[..|lines| - 1]);
        assert lines == lines[..|lines| - 1] + [lines[|lines| - 1]];
      }
    }

    lemma {:induction false} OthersKeepStrays(lines: seq<string>)
      ensures Strays(Others(lines)) == Strays(lines)
    {
      if lines != [] {
        var k := |lines| - 1;
        OthersKeepStrays(lines[..k]);
        StraysAppend(Others(lines[..k]), if owns(lines[k]) then [] else [lines[k]]);
        assert [lines[k]][..0] == [];
      }
    }

    lemma {:induction false} TrimTailKeepsStrays(lines: seq<string>)
      ensures Strays(TrimTail(lines)) == Strays(lines)
    {
      if lines != [] && blank(lines[|lines| - 1]) { TrimTailKeepsStrays(lines[..|lines| - 1]); }
    }

    lemma {:induction false} TrimHeadKeepsStrays(lines: seq<string>)
      ensures Strays(TrimHead(lines)) == Strays(lines)
    {
      if lines != [] && blank(lines[0]) {
        TrimHeadKeepsStrays(lines[1..]);
        StraysAppend([lines[0]], lines[1..]);
        assert [lines[0]][..0] == [] && lines == [lines[0]] + lines[1..];
      }
    }

    /** The content of any text, the empty one included. */
    lemma ContentOfLines(description: string)
      requires Sound()
      ensures Content(description) == TrimHead(TrimTail(Others(Split(description, '\n'))))
    {
      EmptyTrims();
      hide Others, TrimTail, TrimHead, Sound, Split;
    }

    lemma EmptyTrims()
      requires Sound()
      ensures TrimHead(TrimTail(Others(Split("", '\n')))) == []
    {
      assert blank("") && !owns("");
      hide Sound;
      assert Split("", '\n') == [""];
      OthersKeepsAll([""]);
      TrimAllBlank([""]);
      hide Others, TrimTail, Split;
    }

    lemma ContentStrays(description: string)
      requires Sound()
      ensures Strays(Content(description)) == Strays(Split(description, '\n'))
    {
      hide *;
      var lines := Split(description, '\n');
      ContentOfLines(description);
      OthersKeepStrays(lines);
      TrimTailKeepsStrays(Others(lines));
      TrimHeadKeepsStrays(TrimTail(Others(lines)));
    }

    /** Blank lines in front of a settled content go. */
    lemma {:induction false} TrimBlankFront(front: seq<string>, content: seq<string>)
      requires NoBlankEdge(content) && forall line <- front :: blank(line)
      ensures TrimHead(TrimTail(front + content)) == content
    {
      if content == [] {
        TrimAllBlank(front);
        assert front + content == front;
      } else {
        assert TrimTail(front + content) == front + content;
        TrimHeadFront(front, content);
      }
    }

    lemma {:induction false} TrimAllBlank(lines: seq<string>)
      requires forall line <- lines :: blank(line)
      ensures TrimTail(lines) == []
    {
      if lines != [] { TrimAllBlank(lines[..|lines| - 1]); }
    }

    lemma {:induction false} TrimHeadFront(front: seq<string>, content: seq<string>)
      requires content != [] && !blank(content[0]) && forall line <- front :: blank(line)
      ensures TrimHead(front + content) == content
    {
      if front == [] {
        assert front + content == content;
      } else {
        TrimHeadFront(front[1..], content);
        assert (front + content)[1..] == front[1..] + content;
      }
    }

    /** The content as it stands below a record. */
    function Below(content: seq<string>): seq<string> {
      if content == [] then [] else [""] + content
    }

    lemma PutSplit(head: seq<string>, content: seq<string>)
      requires head != []
      ensures Put(head, content) == Put(Split(Join(head, '\n'), '\n'), content)
    {
      JoinSplit(Join(head, '\n'), '\n');
      hide Join;
    }

    lemma LinesBelow(head: seq<string>, content: seq<string>)
      requires head != [] && (forall line <- head :: '\n' !in line) && forall line <- content :: '\n' !in line
      ensures Split(Put(head, content), '\n') == head + Below(content)
    {
      assert forall line <- head + content :: '\n' !in line;
      LinesOfPut(head, content);
      BelowHead(head, content);
      hide *;
    }

    lemma BelowHead(head: seq<string>, content: seq<string>)
      ensures head + Below(content) == if content == [] then head else head + [""] + content
    {
      assert head + [] == head && head + ([""] + content) == head + [""] + content;
    }

    /** The lines of a put, whatever the values: the record's text split into lines, and the content below. */
    lemma LinesOfAnyPut(head: seq<string>, content: seq<string>)
      requires head != [] && forall line <- content :: '\n' !in line
      ensures Split(Put(head, content), '\n') == Spread(head) + Below(content)
    {
      PutSplit(head, content);
      LinesBelow(Split(Join(head, '\n'), '\n'), content);
      hide *;
    }

    lemma PutStrays(head: seq<string>, content: seq<string>)
      requires Sound() && Settled(content) && head != []
      ensures Strays(Content(Put(head, content))) == Strays(Spread(head)) + Strays(content)
    {
      LinesOfAnyPut(head, content);
      ContentStrays(Put(head, content));
      BelowStrays(content);
      StraysAppend(Spread(head), Below(content));
      hide *;
    }

    lemma BelowStrays(content: seq<string>)
      requires Sound()
      ensures Strays(Below(content)) == Strays(content)
    {
      if content != [] {
        StraysAppend([""], content);
        assert [""][..0] == [];
      }
    }

    lemma OthersBlank(lines: seq<string>)
      requires forall line <- lines :: !Stray(line)
      ensures forall line <- Others(lines) :: blank(line)
    {
      OthersMembers(lines);
      hide Others;
    }

    lemma OthersBelow(content: seq<string>)
      requires Sound() && Settled(content)
      ensures Others(Below(content)) == Below(content)
    {
      OthersKeepsAll(Below(content));
    }

    lemma Vanishes(h: seq<string>, content: seq<string>)
      requires Sound() && Settled(content) && forall line <- h :: !Stray(line)
      ensures TrimHead(TrimTail(Others(h + Below(content)))) == content
    {
      OthersBlank(h);
      OthersBelow(content);
      OthersAppend(h, Below(content));
      assert blank("") && NoBlankEdge(content);
      hide Others, Sound, Settled, Stray, TrimHead, TrimTail, NoBlankEdge;
      var front := Others(h) + if content == [] then [] else [""];
      assert Others(h) + Below(content) == front + content;
      TrimBlankFront(front, content);
    }

    /** A put keeps the content exactly when no line of the record's text is stray; what is stray is added to it. */
    lemma PutContent(head: seq<string>, content: seq<string>)
      requires Sound() && Settled(content)
      ensures Content(Put(head, content)) == content <==> Contained(head)
      ensures Strays(Content(Put(head, content))) ==
        Strays(content) + Strays(Spread(head))
    {
      if head == [] {
        PutNothing(content);
      } else {
        PutSomething(head, content);
      }
    }

    lemma PutNothing(content: seq<string>)
      requires Sound() && Settled(content)
      ensures Content(Put([], content)) == content
    {
      LinesOfPut([], content);
      ContentOfLines(Put([], content));
      if content == [] {
        assert Put([], content) == "";
      } else {
        OthersKeepsAll(content);
        TrimKeepsSettled(content);
      }
    }

    lemma PutSomething(head: seq<string>, content: seq<string>)
      requires Sound() && Settled(content) && head != []
      ensures Content(Put(head, content)) == content <==> Contained(head)
      ensures Strays(Content(Put(head, content))) == Strays(content) + Strays(Spread(head))
    {
      var h := Spread(head);
      PutStrays(head, content);
      NoStrays(h);
      LinesOfAnyPut(head, content);
      ContentOfLines(Put(head, content));
      if Contained(head) {
        Vanishes(h, content);
      }
      hide Content, Put, Others, TrimHead, TrimTail, Join, Split, Strays, Stray, Below, Spread, Sound, Settled;
    }

    /** The content can be told from a put text. */
    lemma PutInjective(head: seq<string>, c1: seq<string>, c2: seq<string>)
      requires Sound() && Settled(c1) && Settled(c2) && Put(head, c1) == Put(head, c2)
      ensures c1 == c2
    {
      if head == [] {
        PutNothing(c1);
        PutNothing(c2);
      } else {
        LinesOfAnyPut(head, c1);
        LinesOfAnyPut(head, c2);
        var h := Spread(head);
        assert Below(c1) == (h + Below(c1))[|h|..] == (h + Below(c2))[|h|..] == Below(c2);
        if c1 != [] && c2 != [] {
          assert c1 == Below(c1)[1..] == Below(c2)[1..] == c2;
        }
      }
    }

    /** A later put replaces an earlier one completely exactly when the earlier one left nothing stray. */
    lemma PutPut(first: seq<string>, second: seq<string>, description: string)
      requires Sound()
      ensures Put(second, Content(Put(first, Content(description)))) == Put(second, Content(description)) <==> Contained(first)
    {
      var content, text := Content(description), Put(first, Content(description));
      ContentSettled(description);
      ContentSettled(text);
      PutContent(first, content);
      if Put(second, Content(text)) == Put(second, content) {
        PutInjective(second, Content(text), content);
      }
    }

    /** Putting a record and dropping it gives the text back exactly when nothing stray was left and there was nothing
        to drop or to trim before. */
    lemma PutThenDrop(head: seq<string>, description: string)
      requires Sound()
      ensures Put([], Content(Put(head, Content(description)))) == description
        <==> Contained(head) && Free(description)
    {
      var content, after := Content(description), Content(Put(head, Content(description)));
      ContentSettled(description);
      ContentSettled(Put(head, content));
      PutContent(head, content);
      DropIsIdentity(description);
      PutNothing(after);
    }

    /** A text without the record and without blank edges. */
    ghost predicate Free(description: string) {
      description == "" || (NoBlankEdge(Split(description, '\n')) && forall line <- Split(description, '\n') :: !owns(line))
    }

    /** Dropping the record leaves a text as it is exactly when there is nothing to drop or to trim. */
    lemma DropIsIdentity(description: string)
      requires Sound()
      ensures Put([], Content(description)) == description <==> Free(description)
    {
      var lines := Split(description, '\n');
      var content := Content(description);
      ContentSettled(description);
      JoinSplit(description, '\n');
      if description != "" && NoBlankEdge(lines) && forall line <- lines :: !owns(line) {
        OthersKeepsAll(lines);
        TrimKeepsSettled(lines);
      }
      if description != "" && Put([], content) == description {
        LinesOfPut([], content);
        assert content == lines;
        TrimTailShape(Others(lines));
        TrimHeadShape(TrimTail(Others(lines)));
        OthersLength(lines);
      }
    }

    // ---------- What a put text says ----------

    lemma BelowReads(content: seq<string>)
      requires Sound()
      ensures Collect(Below(content)) == Collect(content)
    {
      if content != [] {
        CollectNothing([""]);
        CollectAppend([""], content);
        assert map[] + Collect(content) == Collect(content);
      }
    }

    /** Reading a text that a record of any kind was put into: the record's lines first, then the content. */
    lemma PutReads<T(!new)>(foreign: Lens<T>, head: seq<string>, content: seq<string>)
      requires Sound() && forall line <- content :: '\n' !in line
      ensures Collect(Split(foreign.Put(head, content), '\n')) == Collect(Spread(head)) + Collect(content)
    {
      if head == [] {
        foreign.LinesOfPut([], content);
        CollectNothing([""]);
        hide Split, Put;
        assert map[] + Collect(content) == Collect(content);
      } else {
        foreign.LinesOfAnyPut(head, content);
        CollectAppend(Spread(head), Below(content));
        BelowReads(content);
        hide Split, Put, Collect;
        assert foreign.Below(content) == Below(content);
      }
    }

    /** A put text says what its record's text says. */
    lemma PutGet(head: seq<string>, content: seq<string>)
      requires Sound() && Settled(content)
      ensures Collect(Split(Put(head, content), '\n')) == Collect(Spread(head))
    {
      PutReads(this, head, content);
      CollectNothing(content);
      hide Split, Put, Collect;
      assert Collect(Spread(head)) + map[] == Collect(Spread(head));
    }

    /** What this lens reads after another record was put into the text: the other record's lines, then what was
        here and is not the other record's. */
    lemma GetAfterForeignPut<T(!new)>(foreign: Lens<T>, head: seq<string>, description: string)
      requires Sound() && foreign.Sound() && foreign.blank == blank
      ensures Collect(Split(foreign.Put(head, foreign.Content(description)), '\n'))
        == Collect(Spread(head)) + Collect(foreign.Others(Split(description, '\n')))
    {
      foreign.ContentSettled(description);
      ForeignContent(foreign, description);
      PutReads(foreign, head, foreign.Content(description));
      hide Split, Put, Collect, Content, Others;
    }

    /** With this record put first and another put over it, what is read here is what the other's text says plus
        what the other record left of ours; the text around them does not matter. */
    lemma GetAfterBothPuts<T(!new)>(foreign: Lens<T>, head: seq<string>, foreignHead: seq<string>, description: string)
      requires Sound() && foreign.Sound() && foreign.blank == blank
      ensures var text := Put(head, Content(description));
        Collect(Split(foreign.Put(foreignHead, foreign.Content(text)), '\n'))
        == Collect(Spread(foreignHead)) + Collect(foreign.Others(Spread(head)))
    {
      GetAfterForeignPut(foreign, foreignHead, Put(head, Content(description)));
      LeftByForeign(foreign, head, description);
      hide *;
    }

    lemma LeftByForeign<T(!new)>(foreign: Lens<T>, head: seq<string>, description: string)
      requires Sound() && foreign.Sound() && foreign.blank == blank
      ensures Collect(foreign.Others(Split(Put(head, Content(description)), '\n'))) == Collect(foreign.Others(Spread(head)))
    {
      ContentSettled(description);
      if head == [] {
        LeftOfNothing(foreign, Content(description));
      } else {
        LeftOfRecord(foreign, head, Content(description));
      }
      hide *;
    }

    lemma LeftOfNothing<T(!new)>(foreign: Lens<T>, content: seq<string>)
      requires Sound() && Settled(content)
      ensures Collect(foreign.Others(Split(Put([], content), '\n'))) == Collect(foreign.Others(Spread([])))
    {
      LinesOfPut([], content);
      NothingLeft(foreign, if content == [] then [""] else content);
      hide Split, Put;
    }

    lemma LeftOfRecord<T(!new)>(foreign: Lens<T>, head: seq<string>, content: seq<string>)
      requires Sound() && Settled(content) && head != []
      ensures Collect(foreign.Others(Split(Put(head, content), '\n'))) == Collect(foreign.Others(Spread(head)))
    {
      LinesOfAnyPut(head, content);
      foreign.OthersAppend(Spread(head), Below(content));
      CollectAppend(foreign.Others(Spread(head)), foreign.Others(Below(content)));
      NothingLeft(foreign, Below(content));
      hide Collect, Lens.Others, Split, Put, Spread, Below, Sound, Settled;
      assert Collect(foreign.Others(Spread(head))) + map[] == Collect(foreign.Others(Spread(head)));
    }

    /** Lines that are not ours say nothing here, whichever of them another record leaves. */
    lemma NothingLeft<T(!new)>(foreign: Lens<T>, lines: seq<string>)
      requires Sound() && forall line <- lines :: !owns(line)
      ensures Collect(foreign.Others(lines)) == map[]
    {
      foreign.OthersMembers(lines);
      CollectNothing(foreign.Others(lines));
    }

    lemma ForeignContent<T(!new)>(foreign: Lens<T>, description: string)
      requires Sound() && foreign.Sound() && foreign.blank == blank
      ensures Collect(foreign.Content(description)) == Collect(foreign.Others(Split(description, '\n')))
    {
      var others := foreign.Others(Split(description, '\n'));
      if description == "" {
        foreign.OthersKeepsAll([""]);
        CollectNothing([""]);
      } else {
        SameTrim(foreign, others);
        CollectTrimmed(others);
      }
    }

    lemma SameTrim<T(!new)>(foreign: Lens<T>, lines: seq<string>)
      requires foreign.blank == blank
      ensures foreign.TrimHead(foreign.TrimTail(lines)) == TrimHead(TrimTail(lines))
    {
      SameTrimTail(foreign, lines);
      SameTrimHead(foreign, TrimTail(lines));
    }

    lemma {:induction false} SameTrimTail<T(!new)>(foreign: Lens<T>, lines: seq<string>)
      requires foreign.blank == blank
      ensures foreign.TrimTail(lines) == TrimTail(lines)
    {
      if lines != [] { SameTrimTail(foreign, lines[..|lines| - 1]); }
    }

    lemma {:induction false} SameTrimHead<T(!new)>(foreign: Lens<T>, lines: seq<string>)
      requires foreign.blank == blank
      ensures foreign.TrimHead(lines) == TrimHead(lines)
    {
      if lines != [] { SameTrimHead(foreign, lines[1..]); }
    }
  }
}
