/** The grammar of agent bead ids: a printer, a right-to-left parser, and a validator written independently of
    both.  The hyphen separates the segments and may also occur inside rig and worker names.
    (internal/beads/agent_ids.go) */
module AgentIds {
  import opened Text

  datatype Identity = Identity(rig: string, role: string, name: string)

  predicate IsTownLevelRole(s: string) { s == "mayor" || s == "deacon" }

  predicate IsTownLevelNamedRole(s: string) { s == "dog" }

  predicate IsRigLevelRole(s: string) { s == "witness" || s == "refinery" }

  predicate IsNamedRole(s: string) { s == "crew" || s == "polecat" }

  predicate IsValidRole(s: string) {
    s == "mayor" || s == "deacon" || s == "dog" || s == "witness" || s == "refinery" || s == "crew" || s == "polecat"
  }

  function Segments(s: string): seq<string> { Split(s, '-') }

  function Glue(parts: seq<string>): string { Join(parts, '-') }

  // ---------- The two scans ----------

  /** What the scans need to know about segments.  Their behaviour is proved for any vocabulary of keywords. */
  datatype Vocabulary = Vocabulary(named: string -> bool, singleton: string -> bool, role: string -> bool) {

    /** The keywords the parser looks for. */
    predicate Keyword(s: string) { named(s) || singleton(s) }

    /** What the parser answers at position i; none means it goes on to the left. */
    function AnswerAt(parts: seq<string>, i: nat): Option<Identity>
      requires i < |parts|
    {
      var p, last := parts[i], |parts| - 1;
      if named(p) && i < last then Some(Identity(Glue(parts[..i]), p, Glue(parts[i + 1..])))
      else if Keyword(p) then
        if i >= 2 && named(parts[i - 1]) then Some(Identity(Glue(parts[..i - 1]), parts[i - 1], Glue(parts[i..])))
        else Some(Identity(Glue(parts[..i]), p, ""))
      else None
    }

    /** The parser's right-to-left scan from position i down to 1. */
    function Scan(parts: seq<string>, i: nat): Option<Identity>
      requires i < |parts|
    {
      if i == 0 then None
      else if AnswerAt(parts, i).Some? then AnswerAt(parts, i)
      else Scan(parts, i - 1)
    }

    /** The role position the validator settles on when scanning from position i leftwards; -1 for none. */
    function RoleIndex(parts: seq<string>, i: int): (r: int)
      requires -1 <= i < |parts|
      ensures -1 <= r <= i
    {
      if i < 0 then -1
      else if !role(parts[i]) then RoleIndex(parts, i - 1)
      else if i >= 2 && named(parts[i - 1]) then i - 1
      else i
    }

    /** The rightmost keyword decides: nothing to its right can answer. */
    lemma {:induction false} RightmostKeyword(parts: seq<string>, i: nat, lo: nat) returns (m: nat)
      requires 1 <= lo <= i < |parts|
      ensures lo <= m <= i && (m == lo || Keyword(parts[m]))
      ensures forall k | m < k <= i :: !Keyword(parts[k])
      ensures Scan(parts, i) == Scan(parts, m)
      decreases i
    {
      m := i;
      if i > lo && !Keyword(parts[i]) {
        m := RightmostKeyword(parts, i - 1, lo);
      }
    }

    /** A keyword further right than the first name segment captures too much rig. */
    lemma FarKeywordMisleads(parts: seq<string>, r: nat, m: nat)
      requires 1 <= r && r + 1 < m < |parts| && Keyword(parts[m])
      ensures AnswerAt(parts, m).Some? && AnswerAt(parts, m).value.rig != Glue(parts[..r])
    {
      GlueGrows(parts, r, m);
      GlueGrows(parts, r, m - 1);
    }

    /** A keyword as first name segment is taken for the name, unless it is itself a named role and more follows. */
    lemma NearKeyword(parts: seq<string>, r: nat)
      requires 1 <= r < |parts| - 1 && named(parts[r]) && Keyword(parts[r + 1])
      ensures AnswerAt(parts, r + 1) == Some(Identity(Glue(parts[..r]), parts[r], Glue(parts[r + 1..])))
        <==> r + 1 == |parts| - 1 || !named(parts[r + 1])
    {
      GlueGrows(parts, r, r + 1);
    }

    /** A worker name the parser reads back: one segment of any kind, or several of which the first is not a named
        role and no later one is a keyword. */
    predicate Readable(names: seq<string>)
      requires names != []
    {
      |names| == 1 || (!named(names[0]) && forall k | 1 <= k < |names| :: !Keyword(names[k]))
    }

    lemma NamedScan(parts: seq<string>, r: nat)
      requires 1 <= r < |parts| - 1 && named(parts[r])
      ensures Scan(parts, |parts| - 1) == Some(Identity(Glue(parts[..r]), parts[r], Glue(parts[r + 1..])))
        <==> Readable(parts[r + 1..])
    {
      var names := parts[r + 1..];
      var m := RightmostKeyword(parts, |parts| - 1, r);
      if m > r + 1 {
        FarKeywordMisleads(parts, r, m);
        assert Keyword(names[m - r - 1]);
      } else {
        forall k | 1 <= k < |names| ensures !Keyword(names[k]) { assert names[k] == parts[r + 1 + k]; }
        assert names[0] == parts[r + 1];
        if m == r + 1 {
          NearKeyword(parts, r);
        }
      }
    }

    /** Where the scan found the role, and what it made of the rest: the segments to the right are the name, or are
        dropped after a role that is not a named one. */
    lemma {:induction false} ScanShape(parts: seq<string>, i: nat) returns (r: nat)
      requires i < |parts| && Scan(parts, i).Some?
      requires forall k | i < k < |parts| :: !Keyword(parts[k])
      ensures 1 <= r <= i
      ensures var a := Scan(parts, i).value;
        && Keyword(a.role) && a.rig == Glue(parts[..r]) && a.role == parts[r]
        && (a.name == Glue(parts[r + 1..]) || (a.name == "" && !named(a.role) && r < |parts| - 1 && parts[|parts| - 1] != a.role))
      decreases i
    {
      if AnswerAt(parts, i).None? {
        r := ScanShape(parts, i - 1);
      } else if named(parts[i]) && i < |parts| - 1 {
        r := i;
      } else if i >= 2 && named(parts[i - 1]) {
        r := i - 1;
      } else {
        r := i;
        assert i == |parts| - 1 ==> parts[r + 1..] == [];
      }
    }

    /** The rightmost keyword takes no name, is not itself the name of a named role, and further segments follow. */
    predicate DropsAfter(parts: seq<string>, m: nat) {
      && 1 <= m < |parts| - 1 && Keyword(parts[m]) && !named(parts[m]) && !(m >= 2 && named(parts[m - 1]))
      && forall k | m < k < |parts| :: !Keyword(parts[k])
    }

    /** Those are the segments the scan drops. */
    lemma ScanDrops(parts: seq<string>)
      requires |parts| > 1 && Scan(parts, |parts| - 1).Some? && forall p <- parts :: p != ""
      ensures var a := Scan(parts, |parts| - 1).value;
        (a.name == "" && parts[|parts| - 1] != a.role) <==> exists m :: DropsAfter(parts, m)
    {
      var last := |parts| - 1;
      var m := RightmostKeyword(parts, last, 1);
      assert Keyword(parts[m]) && Scan(parts, last) == AnswerAt(parts, m);
      NonEmptyGlue(parts, m, last + 1);
      NonEmptyGlue(parts, m + 1, last + 1);
      assert parts[m..] == parts[m..last + 1] && parts[m + 1..] == parts[m + 1..last + 1];
      forall n | DropsAfter(parts, n) ensures n == m {}
      if m < last && !named(parts[m]) && !(m >= 2 && named(parts[m - 1])) {
        assert DropsAfter(parts, m);
      }
    }

    /** The rightmost role of any kind, and the position the validator settles on because of it. */
    lemma {:induction false} RoleIndexShape(parts: seq<string>, i: int) returns (k: int)
      requires -1 <= i < |parts|
      ensures -1 <= k <= i && forall j | k < j <= i :: !role(parts[j])
      ensures k == -1 ==> RoleIndex(parts, i) == -1
      ensures k >= 0 ==>
        role(parts[k]) && RoleIndex(parts, i) == if k >= 2 && named(parts[k - 1]) then k - 1 else k
      decreases i + 1
    {
      k := i;
      if i >= 0 && !role(parts[i]) {
        k := RoleIndexShape(parts, i - 1);
      }
    }

    lemma {:induction false} ScanDown(parts: seq<string>, i: nat, k: nat)
      requires 1 <= k <= i < |parts| && forall j | k < j <= i :: !Keyword(parts[j])
      ensures Scan(parts, i) == Scan(parts, k)
      decreases i
    {
      if i > k { ScanDown(parts, i - 1, k); }
    }

    /** Validator and parser scan alike: with r the validator's role position, the parser answers the same unless
        that role is named and a multi-segment name starts with a named role.  Either way it finds a keyword. */
    lemma ScansAgree(parts: seq<string>, r: nat)
      requires forall s :: Keyword(s) ==> role(s)
      requires |parts| >= 3 && 1 <= r && r == RoleIndex(parts, |parts| - 1)
      requires Keyword(parts[r]) && (!named(parts[r]) ==> Glue(parts[r + 1..]) == "")
      requires named(parts[r]) ==> r < |parts| - 1
      ensures var s := Scan(parts, |parts| - 1);
        && s.Some? && Keyword(s.value.role)
        && (s == Some(Identity(Glue(parts[..r]), parts[r], Glue(parts[r + 1..])))
            <==> !(named(parts[r]) && r < |parts| - 2 && named(parts[r + 1])))
    {
      var k := RoleIndexShape(parts, |parts| - 1);
      assert k == r || k == r + 1;
      forall j | k < j < |parts| ensures !Keyword(parts[j]) {}
      ScanDown(parts, |parts| - 1, k);
      if k == r + 1 {
        if Keyword(parts[k]) {
          NearKeyword(parts, r);
        } else {
          ScanDown(parts, k, r);
        }
      }
    }
  }

  const ROLES := Vocabulary(IsNamedRole, IsRigLevelRole, IsValidRole)

  /** Gluing more segments gives a longer text. */
  lemma GlueGrows(parts: seq<string>, r: nat, j: nat)
    requires 1 <= r < j <= |parts|
    ensures |Glue(parts[..j])| > |Glue(parts[..r])|
  {
    JoinAppend(parts[..r], parts[r..j], '-');
    assert parts[..j] == parts[..r] + parts[r..j];
  }

  // ---------- Printing ----------

  function AgentBeadIDWithPrefix(prefix: string, rig: string, role: string, name: string): string {
    if rig == "" then prefix + "-" + role
    else if name == "" then prefix + "-" + rig + "-" + role
    else prefix + "-" + rig + "-" + role + "-" + name
  }

  const TOWN_BEADS_PREFIX := "hq"

  function DogBeadIDTown(name: string): string {
    TOWN_BEADS_PREFIX + "-dog-" + name
  }

  function ExtractAgentPrefix(id: string): string {
    var hyphen := IndexOf(id, '-');
    if hyphen <= 0 then "" else id[..hyphen]
  }

  // ---------- Parsing ----------

  /** The segments after the prefix. */
  function Rest(id: string): seq<string>
    requires '-' in id
  {
    Segments(id[IndexOf(id, '-') + 1..])
  }

  function ParseParts(parts: seq<string>): Option<Identity>
    requires parts != []
  {
    if |parts| == 1 then Some(Identity("", parts[0], ""))
    else if parts[0] == "dog" then Some(Identity("", "dog", Glue(parts[1..])))
    else if ROLES.Scan(parts, |parts| - 1).Some? then ROLES.Scan(parts, |parts| - 1)
    else if |parts| == 2 then Some(Identity(parts[0], parts[1], ""))
    else None
  }

  function Parsed(id: string): Option<Identity> {
    if 2 <= IndexOf(id, '-') <= 3 then ParseParts(Rest(id)) else None
  }

  method ParseAgentBeadID(id: string) returns (identity: Option<Identity>)
    ensures identity == Parsed(id)
  {
    var hyphen := IndexOf(id, '-');
    if hyphen < 2 || hyphen > 3 {
      return None;
    }
    var parts := Split(id[hyphen + 1..], '-');
    if |parts| == 1 {
      return Some(Identity("", parts[0], ""));
    }
    if parts[0] == "dog" {
      return Some(Identity("", "dog", Join(parts[1..], '-')));
    }
    var i := |parts| - 1;
    while i >= 1
      invariant 0 <= i < |parts| && ROLES.Scan(parts, |parts| - 1) == ROLES.Scan(parts, i)
    {
      var p := parts[i];
      if IsNamedRole(p) && i < |parts| - 1 {
        return Some(Identity(Join(parts[..i], '-'), p, Join(parts[i + 1..], '-')));
      }
      if IsRigLevelRole(p) {
        if i >= 2 && IsNamedRole(parts[i - 1]) {
          return Some(Identity(Join(parts[..i - 1], '-'), parts[i - 1], Join(parts[i..], '-')));
        }
        return Some(Identity(Join(parts[..i], '-'), p, ""));
      }
      if IsNamedRole(p) && i == |parts| - 1 {
        if i >= 2 && IsNamedRole(parts[i - 1]) {
          assert parts[i..] == [p];
          return Some(Identity(Join(parts[..i - 1], '-'), parts[i - 1], p));
        }
        return Some(Identity(Join(parts[..i], '-'), p, ""));
      }
      i := i - 1;
    }
    if |parts| == 2 {
      return Some(Identity(parts[0], parts[1], ""));
    }
    identity := None;
  }

  predicate IsAgentSessionBead(id: string) {
    Parsed(id).Some? && IsValidRole(Parsed(id).value.role)
  }

  // ---------- Validating ----------

  datatype IdProblem =
    | Required | NoPrefix | NoContent | NameMissing | RigMissing | UnknownRole | NoRole | TownSuffix | RigPrefix | NameSuffix

  /** Which of rig and name a role takes. */
  predicate FitsRole(a: Identity) {
    if IsTownLevelRole(a.role) then a.rig == "" && a.name == ""
    else if IsTownLevelNamedRole(a.role) then a.rig == "" && a.name != ""
    else if IsRigLevelRole(a.role) then a.rig != "" && a.name == ""
    else IsNamedRole(a.role) && a.rig != "" && a.name != ""
  }

  /** The identity the validator accepts, none when it reports a problem. */
  function ValidParts(parts: seq<string>): Option<Identity>
    requires parts != []
  {
    if parts[0] == "" then None
    else if |parts| == 1 then if IsTownLevelRole(parts[0]) then Some(Identity("", parts[0], "")) else None
    else if |parts| == 2 then
      if IsTownLevelNamedRole(parts[0]) then Some(Identity("", parts[0], parts[1]))
      else if IsRigLevelRole(parts[1]) then Some(Identity(parts[0], parts[1], ""))
      else None
    else
      var r := ROLES.RoleIndex(parts, |parts| - 1);
      if r == -1 then None
      else
        var found := Identity(Glue(parts[..r]), parts[r], Glue(parts[r + 1..]));
        if FitsRole(found) then Some(found) else None
  }

  function Validated(id: string): Option<Identity> {
    if IndexOf(id, '-') <= 0 then None else ValidParts(Rest(id))
  }

  /** How the validator reads the segments, if it finds a role to read them by. */
  function Reading(parts: seq<string>): Option<Identity>
    requires parts != []
  {
    if |parts| == 1 then if IsValidRole(parts[0]) then Some(Identity("", parts[0], "")) else None
    else if |parts| == 2 then
      if IsTownLevelNamedRole(parts[0]) then Some(Identity("", parts[0], parts[1]))
      else if IsValidRole(parts[1]) && !IsTownLevelNamedRole(parts[1]) then Some(Identity(parts[0], parts[1], ""))
      else None
    else
      var r := ROLES.RoleIndex(parts, |parts| - 1);
      if r == -1 then None else Some(Identity(Glue(parts[..r]), parts[r], Glue(parts[r + 1..])))
  }

  /** What each problem says about a reading. */
  predicate Misfit(problem: IdProblem, a: Identity) {
    match problem
    case NameMissing => (IsNamedRole(a.role) || IsTownLevelNamedRole(a.role)) && a.name == ""
    case RigMissing => (IsNamedRole(a.role) || IsRigLevelRole(a.role)) && a.rig == ""
    case TownSuffix => IsTownLevelRole(a.role) && (a.rig != "" || a.name != "")
    case RigPrefix => IsTownLevelNamedRole(a.role) && a.rig != ""
    case NameSuffix => IsRigLevelRole(a.role) && a.name != ""
    case _ => false
  }

  /** And about the segments. */
  predicate Explains(problem: IdProblem, parts: seq<string>)
    requires parts != []
  {
    match problem
    case NoContent => parts[0] == ""
    case UnknownRole => |parts| == 1 && !IsValidRole(parts[0])
    case NoRole => |parts| > 1 && Reading(parts).None?
    case _ => Reading(parts).Some? && Misfit(problem, Reading(parts).value)
  }

  /** Accepts exactly the valid ids, and reports a real problem otherwise. */
  method ValidateAgentID(id: string) returns (problem: Option<IdProblem>)
    ensures problem.None? <==> Validated(id).Some?
    ensures problem == Some(Required) <==> id == ""
    ensures problem == Some(NoPrefix) <==> id != "" && IndexOf(id, '-') <= 0
    ensures problem.Some? && IndexOf(id, '-') > 0 ==> Explains(problem.value, Rest(id))
  {
    if id == "" {
      return Some(Required);
    }
    var hyphen := IndexOf(id, '-');
    if hyphen <= 0 {
      return Some(NoPrefix);
    }
    problem := CheckParts(Split(id[hyphen + 1..], '-'));
  }

  /** The cases by number of segments. */
  method CheckParts(parts: seq<string>) returns (problem: Option<IdProblem>)
    requires parts != []
    ensures problem.None? <==> ValidParts(parts).Some?
    ensures problem.Some? ==> Explains(problem.value, parts)
  {
    if parts[0] == "" {
      return Some(NoContent);
    }
    if |parts| == 1 {
      if IsTownLevelRole(parts[0]) { return None; }
      if IsTownLevelNamedRole(parts[0]) { return Some(NameMissing); }
      if IsValidRole(parts[0]) { return Some(RigMissing); }
      return Some(UnknownRole);
    }
    if |parts| == 2 {
      if IsTownLevelNamedRole(parts[0]) { return None; }
      if IsRigLevelRole(parts[1]) { return None; }
      if IsNamedRole(parts[1]) { return Some(NameMissing); }
      if IsTownLevelRole(parts[1]) { return Some(TownSuffix); }
      return Some(NoRole);
    }
    var roleIdx, role := FindRole(parts);
    if roleIdx == -1 {
      return Some(NoRole);
    }
    problem := CheckRole(role, Join(parts[..roleIdx], '-'), Join(parts[roleIdx + 1..], '-'));
  }

  /** The scan of the validator. */
  method FindRole(parts: seq<string>) returns (roleIdx: int, role: string)
    requires parts != []
    ensures roleIdx == ROLES.RoleIndex(parts, |parts| - 1)
    ensures roleIdx != -1 ==> role == parts[roleIdx] && IsValidRole(role)
  {
    roleIdx, role := -1, "";
    var i := |parts| - 1;
    while i >= 0
      invariant -1 <= i < |parts| && roleIdx == -1 && ROLES.RoleIndex(parts, |parts| - 1) == ROLES.RoleIndex(parts, i)
    {
      if !IsValidRole(parts[i]) {
        i := i - 1;
        continue;
      }
      if i >= 2 && IsNamedRole(parts[i - 1]) {
        return i - 1, parts[i - 1];
      }
      return i, parts[i];
    }
  }

  method CheckRole(role: string, rig: string, name: string) returns (problem: Option<IdProblem>)
    requires IsValidRole(role)
    ensures problem.None? <==> FitsRole(Identity(rig, role, name))
    ensures problem.Some? ==> Misfit(problem.value, Identity(rig, role, name))
  {
    if IsTownLevelRole(role) {
      return if rig != "" || name != "" then Some(TownSuffix) else None;
    }
    if IsTownLevelNamedRole(role) {
      return if rig != "" then Some(RigPrefix) else if name == "" then Some(NameMissing) else None;
    }
    if IsRigLevelRole(role) {
      return if rig == "" then Some(RigMissing) else if name != "" then Some(NameSuffix) else None;
    }
    return if rig == "" then Some(RigMissing) else if name == "" then Some(NameMissing) else None;
  }

  // ---------- Printing, then parsing ----------

  lemma PrefixAndRest(prefix: string, rest: string)
    requires '-' !in prefix
    ensures var id := prefix + "-" + rest;
      '-' in id && IndexOf(id, '-') == |prefix| && id[..|prefix|] == prefix && id[|prefix| + 1..] == rest
      && Rest(id) == Segments(rest)
  {
    IndexOfUnique(prefix, '-', rest);
    var id := prefix + "-" + rest;
    assert id == prefix + ['-'] + rest;
    assert id[|prefix|] == '-';
    assert id[|prefix| + 1..] == rest;
  }

  /** Town-level agents parse back whatever the role, as long as it has no hyphen. */
  lemma TownRoundTrip(prefix: string, role: string)
    requires 2 <= |prefix| <= 3 && '-' !in prefix && '-' !in role
    ensures Parsed(AgentBeadIDWithPrefix(prefix, "", role, "")) == Some(Identity("", role, ""))
  {
    PrefixAndRest(prefix, role);
    SplitWhole(role, '-');
  }

  /** A dog parses back for every name. */
  lemma DogRoundTrip(name: string)
    ensures Parsed(DogBeadIDTown(name)) == Some(Identity("", "dog", name))
  {
    var rest := "dog" + ['-'] + name;
    assert DogBeadIDTown(name) == "hq" + "-" + rest;
    PrefixAndRest("hq", rest);
    SplitAppend("dog", name, '-');
    SplitWhole("dog", '-');
    JoinSplit(name, '-');
    assert Segments(rest) == ["dog"] + Segments(name);
    assert Segments(rest)[1..] == Segments(name);
  }

  lemma NamedParts(prefix: string, rig: string, role: string, name: string)
    requires '-' !in prefix && rig != "" && name != "" && '-' !in role
    ensures var id := AgentBeadIDWithPrefix(prefix, rig, role, name);
      '-' in id && IndexOf(id, '-') == |prefix| && Rest(id) == Segments(rig) + [role] + Segments(name)
  {
    var rest := rig + ['-'] + (role + ['-'] + name);
    assert AgentBeadIDWithPrefix(prefix, rig, role, name) == prefix + "-" + rest;
    PrefixAndRest(prefix, rest);
    SplitAppend(rig, role + ['-'] + name, '-');
    SplitAppend(role, name, '-');
    SplitWhole(role, '-');
    assert Segments(rig) + ([role] + Segments(name)) == Segments(rig) + [role] + Segments(name);
  }

  lemma SingletonParts(prefix: string, rig: string, role: string)
    requires '-' !in prefix && rig != "" && '-' !in role
    ensures var id := AgentBeadIDWithPrefix(prefix, rig, role, "");
      '-' in id && IndexOf(id, '-') == |prefix| && Rest(id) == Segments(rig) + [role]
  {
    var rest := rig + ['-'] + role;
    assert AgentBeadIDWithPrefix(prefix, rig, role, "") == prefix + "-" + rest;
    PrefixAndRest(prefix, rest);
    SplitAppend(rig, role, '-');
    SplitWhole(role, '-');
  }

  lemma ParseNamedParts(rigs: seq<string>, role: string, names: seq<string>)
    requires rigs != [] && names != [] && IsNamedRole(role) && Glue(rigs) != ""
    ensures ParseParts(rigs + [role] + names) == Some(Identity(Glue(rigs), role, Glue(names)))
      <==> rigs[0] != "dog" && ROLES.Readable(names)
  {
    var parts, r := rigs + [role] + names, |rigs|;
    assert parts[0] == rigs[0] && parts[r] == role;
    assert parts[..r] == rigs;
    assert parts[r + 1..] == names;
    ROLES.NamedScan(parts, r);
  }

  /** Crew and polecat ids parse back exactly when the rig does not start with dog and the name is one segment, or
      does not start with crew or polecat and has no rig keyword later on. */
  lemma NamedRoundTrip(prefix: string, rig: string, role: string, name: string)
    requires 2 <= |prefix| <= 3 && '-' !in prefix && rig != "" && name != "" && IsNamedRole(role)
    ensures Parsed(AgentBeadIDWithPrefix(prefix, rig, role, name)) == Some(Identity(rig, role, name))
      <==> Segments(rig)[0] != "dog" && ROLES.Readable(Segments(name))
  {
    JoinSplit(rig, '-');
    JoinSplit(name, '-');
    NamedParts(prefix, rig, role, name);
    ParseNamedParts(Segments(rig), role, Segments(name));
  }

  lemma ParseSingletonParts(rigs: seq<string>, role: string)
    requires rigs != [] && IsRigLevelRole(role) && Glue(rigs) != ""
    ensures ParseParts(rigs + [role]) == Some(Identity(Glue(rigs), role, ""))
      <==> rigs[0] != "dog" && !(|rigs| >= 2 && IsNamedRole(rigs[|rigs| - 1]))
  {
    var parts, r := rigs + [role], |rigs|;
    assert parts[..r] == rigs && parts[r] == role && parts[r - 1] == rigs[r - 1];
  }

  /** Witness and refinery ids parse back exactly when the rig does not start with dog and, if it has several
      segments, does not end in crew or polecat. */
  lemma SingletonRoundTrip(prefix: string, rig: string, role: string)
    requires 2 <= |prefix| <= 3 && '-' !in prefix && rig != "" && IsRigLevelRole(role)
    ensures Parsed(AgentBeadIDWithPrefix(prefix, rig, role, "")) == Some(Identity(rig, role, ""))
      <==> Segments(rig)[0] != "dog" && !(|Segments(rig)| >= 2 && IsNamedRole(Segments(rig)[|Segments(rig)| - 1]))
  {
    JoinSplit(rig, '-');
    SingletonParts(prefix, rig, role);
    ParseSingletonParts(Segments(rig), role);
  }

  // ---------- Parsing, then printing ----------

  function LastSegment(id: string): string
    requires '-' in id
  {
    Rest(id)[|Rest(id)| - 1]
  }

  lemma IdOfParts(id: string)
    requires IndexOf(id, '-') >= 1
    ensures id == ExtractAgentPrefix(id) + "-" + Glue(Rest(id))
  {
    JoinSplit(id[IndexOf(id, '-') + 1..], '-');
    var h := IndexOf(id, '-');
    assert id == id[..h] + [id[h]] + id[h + 1..];
  }

  /** A single segment after the prefix; or a rig, and either a name or nothing after the role. */
  predicate Reencodable(id: string)
    requires Parsed(id).Some?
  {
    var a := Parsed(id).value;
    |Rest(id)| == 1 || (a.rig != "" && (a.name != "" || LastSegment(id) == a.role))
  }

  /** Re-encoding a parsed id gives the id back exactly when it is re-encodable. */
  lemma ReencodeExactly(id: string)
    requires Parsed(id).Some?
    ensures var a := Parsed(id).value;
      AgentBeadIDWithPrefix(ExtractAgentPrefix(id), a.rig, a.role, a.name) == id <==> Reencodable(id)
  {
    hide ExtractAgentPrefix, ParseParts, AgentBeadIDWithPrefix;
    IdOfParts(id);
    ReencodeParts(ExtractAgentPrefix(id), Rest(id));
  }

  lemma ReencodeParts(prefix: string, parts: seq<string>)
    requires parts != [] && ParseParts(parts).Some?
    ensures var a := ParseParts(parts).value;
      AgentBeadIDWithPrefix(prefix, a.rig, a.role, a.name) == prefix + "-" + Glue(parts)
      <==> |parts| == 1 || (a.rig != "" && (a.name != "" || parts[|parts| - 1] == a.role))
  {
    var a, last := ParseParts(parts).value, |parts| - 1;
    if last == 0 {
    } else if parts[0] == "dog" {
      JoinAppend(["dog"], parts[1..], '-');
      assert parts == ["dog"] + parts[1..];
    } else if ROLES.Scan(parts, last).Some? {
      var r := ROLES.ScanShape(parts, last);
      ReencodeAt(prefix, parts, r, a);
    } else {
      assert parts == [parts[0]] + [parts[1]];
      JoinAppend([parts[0]], [parts[1]], '-');
    }
  }

  lemma ReencodeAt(prefix: string, parts: seq<string>, r: nat, a: Identity)
    requires 1 <= r < |parts| && a.rig == Glue(parts[..r]) && a.role == parts[r] && a.role != ""
    requires a.name == Glue(parts[r + 1..]) || (a.name == "" && r < |parts| - 1 && parts[|parts| - 1] != a.role)
    ensures AgentBeadIDWithPrefix(prefix, a.rig, a.role, a.name) == prefix + "-" + Glue(parts)
      <==> a.rig != "" && (a.name != "" || parts[|parts| - 1] == a.role)
  {
    JoinAppend(parts[..r], parts[r..], '-');
    assert parts == parts[..r] + parts[r..];
    if r == |parts| - 1 {
      assert parts[r..] == [a.role] && parts[r + 1..] == [];
    } else {
      JoinAppend([a.role], parts[r + 1..], '-');
      assert parts[r..] == [a.role] + parts[r + 1..];
      assert Glue(parts) == a.rig + "-" + (a.role + "-" + Glue(parts[r + 1..]));
      if a.name == Glue(parts[r + 1..]) == "" {
        JoinEmpty(parts[r + 1..], '-');
        assert parts[|parts| - 1] == "";
      }
    }
  }

  /** So ids with one prefix that parse alike are the same id when both are re-encodable. */
  lemma ParsingInjective(id1: string, id2: string)
    requires Parsed(id1).Some? && Parsed(id1) == Parsed(id2) && ExtractAgentPrefix(id1) == ExtractAgentPrefix(id2)
    requires Reencodable(id1) && Reencodable(id2)
    ensures id1 == id2
  {
    ReencodeExactly(id1);
    ReencodeExactly(id2);
  }

  ghost predicate NoEmptySegment(id: string) {
    '-' in id && forall p <- Rest(id) :: p != ""
  }

  /** For ids with no empty segment re-encoding fails in exactly two cases: a named dog, and a witness or refinery
      followed by further segments, which the parser drops. */
  lemma ReencodeWellSegmented(id: string)
    requires Parsed(id).Some? && NoEmptySegment(id)
    ensures var a := Parsed(id).value;
      AgentBeadIDWithPrefix(ExtractAgentPrefix(id), a.rig, a.role, a.name) == id
      <==> !(a.role == "dog" && a.name != "") && !(IsRigLevelRole(a.role) && a.name == "" && LastSegment(id) != a.role)
  {
    ReencodeExactly(id);
    var parts := Rest(id);
    assert parts[0] in parts && parts[|parts| - 1] in parts;
    if |parts| > 1 {
      PartsOfWellSegmented(parts);
    }
  }

  /** The same by the segments alone: what follows the prefix is one segment, or it does not start with dog and has no
      witness or refinery, free of a crew or polecat before it, with only plain segments after it. */
  lemma ReencodeBySegments(id: string)
    requires Parsed(id).Some? && NoEmptySegment(id)
    ensures var a, parts := Parsed(id).value, Rest(id);
      AgentBeadIDWithPrefix(ExtractAgentPrefix(id), a.rig, a.role, a.name) == id
      <==> |parts| == 1 || (parts[0] != "dog" && !exists m :: DropsSegments(parts, m))
  {
    ReencodeExactly(id);
    var parts := Rest(id);
    hide ExtractAgentPrefix, AgentBeadIDWithPrefix;
    if |parts| > 1 {
      PartsOfWellSegmented(parts);
      if parts[0] != "dog" { DropsByParser(parts); }
    }
  }

  /** Segment m is a witness or refinery after which the parser drops segments. */
  predicate DropsSegments(parts: seq<string>, m: nat) {
    && 1 <= m < |parts| - 1 && IsRigLevelRole(parts[m]) && !(m >= 2 && IsNamedRole(parts[m - 1]))
    && forall k | m < k < |parts| :: !IsNamedRole(parts[k]) && !IsRigLevelRole(parts[k])
  }

  lemma DropsByParser(parts: seq<string>)
    requires |parts| > 1 && ParseParts(parts).Some? && parts[0] != "dog" && forall p <- parts :: p != ""
    ensures var a := ParseParts(parts).value;
      (a.name == "" && parts[|parts| - 1] != a.role) <==> exists m :: DropsSegments(parts, m)
  {
    forall m: nat ensures ROLES.DropsAfter(parts, m) <==> DropsSegments(parts, m) {}
    if ROLES.Scan(parts, |parts| - 1).Some? {
      ROLES.ScanDrops(parts);
    }
  }

  lemma PartsOfWellSegmented(parts: seq<string>)
    requires |parts| > 1 && ParseParts(parts).Some? && forall p <- parts :: p != ""
    ensures var a := ParseParts(parts).value;
      if parts[0] == "dog" then a.role == "dog" && a.rig == "" && a.name != ""
      else (a.rig != "" && (a.role == "dog" ==> a.name == "" && parts[|parts| - 1] == a.role)
            && (IsNamedRole(a.role) && a.name == "" ==> parts[|parts| - 1] == a.role)
            && (!ROLES.Keyword(a.role) ==> a.name == "" && parts[|parts| - 1] == a.role))
  {
    var last := |parts| - 1;
    assert parts[0] in parts && parts[last] in parts;
    if parts[0] == "dog" {
      NonEmptyGlue(parts, 1, last + 1);
      assert parts[1..] == parts[1..last + 1];
    } else if ROLES.Scan(parts, last).Some? {
      var r := ROLES.ScanShape(parts, last);
      NonEmptyGlue(parts, 0, r);
      NonEmptyGlue(parts, r + 1, last + 1);
      assert parts[0..r] == parts[..r] && parts[r + 1..] == parts[r + 1..last + 1];
    }
  }

  lemma NonEmptyGlue(parts: seq<string>, lo: nat, hi: nat)
    requires lo <= hi <= |parts| && forall p <- parts :: p != ""
    ensures Glue(parts[lo..hi]) == "" <==> lo == hi
  {
    JoinEmpty(parts[lo..hi], '-');
    if lo < hi {
      assert parts[lo..hi][0] == parts[lo] && parts[lo] in parts;
    }
  }

  /** The dropped segment: a witness or refinery id and the same id with one more plain segment parse alike. */
  lemma SuffixAfterSingletonDropped(prefix: string, rig: string, role: string, extra: string)
    requires 2 <= |prefix| <= 3 && '-' !in prefix && rig != "" && IsRigLevelRole(role)
    requires '-' !in extra && !ROLES.Keyword(extra)
    requires Segments(rig)[0] != "dog" && !IsNamedRole(Segments(rig)[|Segments(rig)| - 1])
    ensures var id := AgentBeadIDWithPrefix(prefix, rig, role, "");
      Parsed(id + "-" + extra) == Parsed(id) == Some(Identity(rig, role, ""))
  {
    var id := AgentBeadIDWithPrefix(prefix, rig, role, "");
    assert Parsed(id) == Some(Identity(rig, role, "")) by {
      SingletonRoundTrip(prefix, rig, role);
    }
    assert Parsed(id + "-" + extra) == Some(Identity(rig, role, "")) by {
      ExtraSegment(prefix, rig, role, extra);
      JoinSplit(rig, '-');
      ParseExtraSegment(Segments(rig), role, extra);
    }
  }

  lemma ParseExtraSegment(rigs: seq<string>, role: string, extra: string)
    requires rigs != [] && rigs[0] != "dog" && !IsNamedRole(rigs[|rigs| - 1])
    requires IsRigLevelRole(role) && !ROLES.Keyword(extra)
    ensures ParseParts(rigs + [role] + [extra]) == Some(Identity(Glue(rigs), role, ""))
  {
    var parts, r := rigs + [role] + [extra], |rigs|;
    assert parts[0] == rigs[0] && parts[r] == role && parts[r - 1] == rigs[r - 1] && parts[r + 1] == extra;
    assert parts[..r] == rigs;
    assert ROLES.Scan(parts, r + 1) == ROLES.Scan(parts, r);
  }

  lemma ExtraSegment(prefix: string, rig: string, role: string, extra: string)
    requires '-' !in prefix && rig != "" && '-' !in role && '-' !in extra
    ensures var id := AgentBeadIDWithPrefix(prefix, rig, role, "") + "-" + extra;
      '-' in id && IndexOf(id, '-') == |prefix| && Rest(id) == Segments(rig) + [role] + [extra]
  {
    var rest := rig + ['-'] + (role + ['-'] + extra);
    hide Split, IndexOf;
    assert AgentBeadIDWithPrefix(prefix, rig, role, "") + "-" + extra == prefix + "-" + rest;
    PrefixAndRest(prefix, rest);
    SplitAppend(rig, role + ['-'] + extra, '-');
    SplitAppend(role, extra, '-');
    SplitWhole(role, '-');
    SplitWhole(extra, '-');
    assert Segments(rig) + ([role] + [extra]) == Segments(rig) + [role] + [extra];
  }

  // ---------- Validator and parser agree ----------

  /** A worker name of several segments that starts with crew or polecat. */
  predicate NameStartsWithRole(a: Identity) {
    IsNamedRole(a.role) && |Segments(a.name)| > 1 && IsNamedRole(Segments(a.name)[0])
  }

  predicate RigStartsWithDog(a: Identity) {
    a.rig != "" && Segments(a.rig)[0] == "dog"
  }

  lemma AgreeOnParts(parts: seq<string>)
    requires |parts| >= 3 && ValidParts(parts).Some? && forall p <- parts :: '-' !in p
    ensures var v := ValidParts(parts).value;
      && ParseParts(parts).Some? && IsValidRole(ParseParts(parts).value.role)
      && (ParseParts(parts) == Some(v) <==> !RigStartsWithDog(v) && !NameStartsWithRole(v))
  {
    var last, v := |parts| - 1, ValidParts(parts).value;
    var r := ROLES.RoleIndex(parts, last);
    if r == 0 {
      JoinAppend(parts[1..2], parts[2..], '-');
      assert parts[1..] == parts[1..2] + parts[2..];
      assert v.rig == "";
    } else {
      SplitJoin(parts[..r], '-');
      assert Segments(v.rig) == parts[..r] && parts[..r][0] == parts[0];
      assert v.rig != "" by { JoinEmpty(parts[..r], '-'); }
      if r < last {
        SplitJoin(parts[r + 1..], '-');
        assert Segments(v.name) == parts[r + 1..] && parts[r + 1..][0] == parts[r + 1];
      }
      ROLES.ScansAgree(parts, r);
    }
  }

  lemma AgreeOnFew(parts: seq<string>)
    requires 1 <= |parts| <= 2 && ValidParts(parts).Some? && forall p <- parts :: '-' !in p
    ensures var v := ValidParts(parts).value;
      && ParseParts(parts).Some? && IsValidRole(ParseParts(parts).value.role)
      && (ParseParts(parts) == Some(v) <==> !RigStartsWithDog(v) && !NameStartsWithRole(v))
  {
    SplitWhole(parts[0], '-');
    if |parts| == 2 {
      SplitWhole(parts[1], '-');
      assert parts[1..] == [parts[1]] && parts[..1] == [parts[0]];
    }
  }

  /** Everything the validator accepts is an agent session bead exactly when its prefix has 2 or 3 characters;
      and then the parser returns what the validator computed, except for a rig that starts with dog and for a
      worker name of several segments that starts with crew or polecat. */
  lemma ValidatorAndParserAgree(id: string)
    requires Validated(id).Some?
    ensures IsAgentSessionBead(id) <==> 2 <= IndexOf(id, '-') <= 3
    ensures 2 <= IndexOf(id, '-') <= 3 ==>
      var v := Validated(id).value; Parsed(id) == Some(v) <==> !RigStartsWithDog(v) && !NameStartsWithRole(v)
  {
    var parts := Rest(id);
    if |parts| >= 3 {
      AgreeOnParts(parts);
    } else {
      AgreeOnFew(parts);
    }
    hide ParseParts, ValidParts, RigStartsWithDog, NameStartsWithRole, IsValidRole;
  }
}
