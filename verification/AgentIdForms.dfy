/** Which agent bead ids the validator accepts, said by what they are printed from.
    (internal/beads/agent_ids.go, the patterns documented at ValidateAgentID) */
module AgentIdForms {
  import opened Text
  import opened AgentIds

  // ---------- The documented patterns ----------

  /** An identity in the pattern of its role: the role alone, a town-level role and a name, or the rig, the role and the
      name if there is one. */
  function Printed(prefix: string, a: Identity): string {
    if IsTownLevelNamedRole(a.role) then prefix + "-" + a.role + "-" + a.name
    else AgentBeadIDWithPrefix(prefix, a.rig, a.role, a.name)
  }

  /** Its segments after the prefix. */
  function PartsOf(a: Identity): seq<string> {
    if IsTownLevelNamedRole(a.role) then [a.role] + Segments(a.name)
    else if a.rig == "" then [a.role]
    else if a.name == "" then Segments(a.rig) + [a.role]
    else Segments(a.rig) + [a.role] + Segments(a.name)
  }

  predicate NoRoles(parts: seq<string>) {
    forall i | 0 <= i < |parts| :: !IsValidRole(parts[i])
  }

  /** The rig has several segments and the last one is crew or polecat. */
  predicate EndsInNamed(rigs: seq<string>) {
    |rigs| >= 2 && IsNamedRole(rigs[|rigs| - 1])
  }

  /** An identity that fits its role and is not read as another one: what comes after its role must not hide the role
      from a reader from the right, and what comes before it must not claim it as a name. */
  predicate Acceptable(a: Identity) {
    FitsRole(a) &&
    if IsTownLevelRole(a.role) then true
    else if IsTownLevelNamedRole(a.role) then |Segments(a.name)| == 1 || NoRoles(Segments(a.name))
    else
      var rigs := Segments(a.rig);
      rigs[0] != "" &&
      if IsRigLevelRole(a.role) then a.rig != "dog" && !EndsInNamed(rigs)
      else NoRoles(Segments(a.name)[1..]) && (IsValidRole(Segments(a.name)[0]) || !EndsInNamed(rigs))
  }

  /** Accepted though the name is missing. */
  predicate DogWithoutName(parts: seq<string>, a: Identity) {
    parts == ["dog", ""] && a == Identity("", "dog", "")
  }

  /** Accepted though a hyphen is left over: a witness or refinery and an empty segment. */
  predicate HyphenLeft(parts: seq<string>, a: Identity) {
    && IsRigLevelRole(a.role) && a.rig != "" && a.name == ""
    && parts == Segments(a.rig) + [a.role] + [""] && parts[0] != "" && !EndsInNamed(Segments(a.rig))
  }

  // ---------- Roles ----------

  /** The four kinds of roles are disjoint, and there are no others. */
  lemma RoleKinds(s: string)
    ensures IsValidRole(s) <==> IsTownLevelRole(s) || IsTownLevelNamedRole(s) || IsRigLevelRole(s) || IsNamedRole(s)
    ensures IsTownLevelRole(s) ==> !IsTownLevelNamedRole(s) && !IsRigLevelRole(s) && !IsNamedRole(s)
    ensures IsTownLevelNamedRole(s) ==> !IsRigLevelRole(s) && !IsNamedRole(s)
    ensures IsRigLevelRole(s) ==> !IsNamedRole(s)
  {
  }

  lemma RolesArePlain(s: string)
    requires IsValidRole(s)
    ensures '-' !in s && s != ""
  {
  }

  /** The position the validator settles on, given the rightmost role. */
  lemma RoleIndexIs(parts: seq<string>, k: nat)
    requires k < |parts| && IsValidRole(parts[k]) && forall j | k < j < |parts| :: !IsValidRole(parts[j])
    ensures ROLES.RoleIndex(parts, |parts| - 1) == if k >= 2 && IsNamedRole(parts[k - 1]) then k - 1 else k
  {
    var m := ROLES.RoleIndexShape(parts, |parts| - 1);
    hide IsValidRole, IsNamedRole, Vocabulary.RoleIndex;
    assert m == k;
  }

  lemma RightmostRole(parts: seq<string>) returns (k: nat)
    requires parts != [] && ROLES.RoleIndex(parts, |parts| - 1) != -1
    ensures k < |parts| && IsValidRole(parts[k]) && forall j | k < j < |parts| :: !IsValidRole(parts[j])
    ensures ROLES.RoleIndex(parts, |parts| - 1) == if k >= 2 && IsNamedRole(parts[k - 1]) then k - 1 else k
  {
    var m := ROLES.RoleIndexShape(parts, |parts| - 1);
    hide IsValidRole, IsNamedRole, Vocabulary.RoleIndex;
    k := m;
  }

  /** Segments of glued segments. */
  lemma Unglued(parts: seq<string>)
    requires parts != [] && forall i | 0 <= i < |parts| :: '-' !in parts[i]
    ensures Segments(Glue(parts)) == parts && (Glue(parts) == "" <==> parts == [""])
  {
    SplitJoin(parts, '-');
    JoinEmpty(parts, '-');
  }

  // ---------- What the validator reads ----------

  ghost predicate Explained(parts: seq<string>, a: Identity) {
    (Acceptable(a) && parts == PartsOf(a)) || DogWithoutName(parts, a) || HyphenLeft(parts, a)
  }

  lemma ReadFew(parts: seq<string>, a: Identity)
    requires 1 <= |parts| <= 2 && forall i | 0 <= i < |parts| :: '-' !in parts[i]
    requires ValidParts(parts) == Some(a)
    ensures Explained(parts, a)
  {
    RoleKinds(parts[0]);
    SplitWhole(parts[0], '-');
    if |parts| == 2 {
      RoleKinds(parts[1]);
      SplitWhole(parts[1], '-');
      hide IsTownLevelRole, IsRigLevelRole, IsNamedRole, IsValidRole, Split;
      assert parts == [parts[0]] + [parts[1]];
    }
  }

  /** The segments before, at and after the role. */
  lemma CutAt(parts: seq<string>, r: nat)
    requires r < |parts|
    ensures parts == parts[..r] + [parts[r]] + parts[r + 1..]
  {
  }

  lemma RolesFirst(parts: seq<string>, a: Identity)
    requires |parts| >= 3 && forall i | 0 <= i < |parts| :: '-' !in parts[i]
    requires ValidParts(parts) == Some(a) && ROLES.RoleIndex(parts, |parts| - 1) == 0
    ensures Explained(parts, a)
  {
    hide IsTownLevelRole, IsTownLevelNamedRole, IsRigLevelRole, IsNamedRole, IsValidRole, Split, Join, Vocabulary.RoleIndex;
    hide Explained, FitsRole;
    var k := RightmostRole(parts);
    assert Glue(parts[..0]) == "" by { JoinEmpty([], '-'); }
    assert a == Identity("", parts[0], Glue(parts[1..])) && FitsRole(a);
    hide ValidParts;
    DogFirst(parts, a);
  }

  lemma DogFirst(parts: seq<string>, a: Identity)
    requires |parts| >= 3 && forall i | 0 <= i < |parts| :: '-' !in parts[i]
    requires a == Identity("", parts[0], Glue(parts[1..])) && FitsRole(a) && forall j | 0 < j < |parts| :: !IsValidRole(parts[j])
    ensures Explained(parts, a)
  {
    hide IsTownLevelRole, IsTownLevelNamedRole, IsRigLevelRole, IsNamedRole, IsValidRole, Split, Join, DogWithoutName, HyphenLeft;
    RoleKinds(parts[0]);
    Unglued(parts[1..]);
    assert parts == [parts[0]] + parts[1..];
    assert NoRoles(parts[1..]) by { assert forall i | 0 <= i < |parts[1..]| :: parts[1..][i] == parts[i + 1]; }
  }

  lemma RoleInside(parts: seq<string>, a: Identity, r: nat)
    requires |parts| >= 3 && forall i | 0 <= i < |parts| :: '-' !in parts[i]
    requires ValidParts(parts) == Some(a) && ROLES.RoleIndex(parts, |parts| - 1) == r >= 1
    ensures Explained(parts, a)
  {
    hide IsTownLevelRole, IsTownLevelNamedRole, IsRigLevelRole, IsNamedRole, IsValidRole, Split, Join, Vocabulary.RoleIndex, Explained;
    var k := RightmostRole(parts);
    RoleKinds(parts[r]);
    Unglued(parts[..r]);
    assert a == Identity(Glue(parts[..r]), parts[r], Glue(parts[r + 1..])) && FitsRole(a) && parts[0] != "";
    assert parts[..r] != [""] && a.rig != "" by { assert parts[..r][0] == parts[0]; }
    hide ValidParts;
    if IsRigLevelRole(a.role) {
      assert k == r;
      SingletonInside(parts, a, r);
    } else {
      NamedInside(parts, a, r, k);
    }
  }

  lemma SingletonInside(parts: seq<string>, a: Identity, r: nat)
    requires |parts| >= 3 && 1 <= r < |parts| && parts[0] != "" && forall i | 0 <= i < |parts| :: '-' !in parts[i]
    requires a.role == parts[r] && a.rig == Glue(parts[..r]) && a.name == "" == Glue(parts[r + 1..])
    requires FitsRole(a) && IsRigLevelRole(a.role) && !(r >= 2 && IsNamedRole(parts[r - 1]))
    ensures Explained(parts, a)
  {
    hide IsTownLevelRole, IsRigLevelRole, IsNamedRole, IsValidRole, Split, Join;
    RoleKinds(a.role);
    CutAt(parts, r);
    Unglued(parts[..r]);
    assert parts[..r][0] == parts[0] && parts[..r][r - 1] == parts[r - 1];
    if r + 1 < |parts| {
      Unglued(parts[r + 1..]);
      assert HyphenLeft(parts, a);
    } else {
      assert parts[r + 1..] == [];
      DogUnglued(parts[..r]);
    }
  }

  lemma NothingBehind(parts: seq<string>, r: nat)
    requires r < |parts|
    ensures r + 1 == |parts| ==> Glue(parts[r + 1..]) == ""
  {
    JoinEmpty(parts[r + 1..], '-');
  }

  lemma DogUnglued(rigs: seq<string>)
    requires |rigs| >= 2 && forall i | 0 <= i < |rigs| :: '-' !in rigs[i]
    ensures Glue(rigs) != "dog"
  {
    Unglued(rigs);
    SplitWhole("dog", '-');
  }

  lemma NamedInside(parts: seq<string>, a: Identity, r: nat, k: nat)
    requires |parts| >= 3 && 1 <= r < |parts| && parts[0] != "" && forall i | 0 <= i < |parts| :: '-' !in parts[i]
    requires a.role == parts[r] && a.rig == Glue(parts[..r]) && a.name == Glue(parts[r + 1..])
    requires FitsRole(a) && IsNamedRole(a.role) && a.rig != ""
    requires k < |parts| && IsValidRole(parts[k]) && forall j | k < j < |parts| :: !IsValidRole(parts[j])
    requires r == if k >= 2 && IsNamedRole(parts[k - 1]) then k - 1 else k
    ensures Explained(parts, a)
  {
    hide IsTownLevelRole, IsRigLevelRole, IsNamedRole, IsValidRole, Split, Join;
    RoleKinds(a.role);
    CutAt(parts, r);
    Unglued(parts[..r]);
    assert parts[..r][0] == parts[0] && parts[..r][r - 1] == parts[r - 1];
    NothingBehind(parts, r);
    var names := parts[r + 1..];
    Unglued(names);
    assert names[0] == parts[r + 1];
    assert NoRoles(names[1..]) by { assert forall i | 0 <= i < |names[1..]| :: names[1..][i] == parts[r + 2 + i]; }
  }

  // ---------- And back ----------

  lemma TownRead(a: Identity)
    requires Acceptable(a) && (IsTownLevelRole(a.role) || (IsTownLevelNamedRole(a.role) && |Segments(a.name)| == 1))
    ensures ValidParts(PartsOf(a)) == Some(a)
  {
    RoleKinds(a.role);
    if IsTownLevelNamedRole(a.role) {
      JoinSplit(a.name, '-');
    }
    hide IsRigLevelRole, IsNamedRole, IsValidRole, Split;
    assert PartsOf(a)[0] != "" by { RolesArePlain(a.role); }
  }

  lemma DogRead(a: Identity)
    requires Acceptable(a) && IsTownLevelNamedRole(a.role) && |Segments(a.name)| > 1
    ensures ValidParts(PartsOf(a)) == Some(a)
  {
    var parts := PartsOf(a);
    RoleKinds(a.role);
    RolesArePlain(a.role);
    JoinSplit(a.name, '-');
    JoinEmpty([], '-');
    assert parts[..0] == [] && parts[1..] == Segments(a.name) && parts[0] == a.role;
    RoleIndexIs(parts, 0);
    hide IsTownLevelRole, IsRigLevelRole, IsNamedRole, IsValidRole, Split, Join, Vocabulary.RoleIndex;
  }

  /** A rig of one segment and its witness or refinery. */
  lemma PairRead(a: Identity)
    requires Acceptable(a) && IsRigLevelRole(a.role) && |Segments(a.rig)| == 1
    ensures ValidParts(PartsOf(a)) == Some(a)
  {
    RoleKinds(a.role);
    JoinSplit(a.rig, '-');
    hide IsTownLevelRole, IsRigLevelRole, IsNamedRole, IsValidRole, Split;
    assert PartsOf(a) == [a.rig, a.role];
  }

  /** Three segments or more: a rig, its role, and what follows. */
  lemma TripleRead(a: Identity, after: seq<string>)
    requires |Segments(a.rig)| + |after| >= 2 && Segments(a.rig)[0] != "" && a.name == Glue(after)
    requires FitsRole(a) && (IsRigLevelRole(a.role) || IsNamedRole(a.role)) && NoRoles(if after == [] then [] else after[1..])
    requires if after != [] && IsValidRole(after[0]) then IsNamedRole(a.role) else !EndsInNamed(Segments(a.rig))
    ensures ValidParts(Segments(a.rig) + [a.role] + after) == Some(a)
  {
    hide IsTownLevelRole, IsTownLevelNamedRole, IsRigLevelRole, IsNamedRole, IsValidRole, Split, Join, FitsRole;
    var rigs := Segments(a.rig);
    var parts, r := rigs + [a.role] + after, |rigs|;
    RoleKinds(a.role);
    TripleIndex(rigs, a.role, after);
    JoinSplit(a.rig, '-');
    hide NoRoles, EndsInNamed, Vocabulary.RoleIndex;
    assert parts[..r] == rigs && parts[r] == a.role && parts[r + 1..] == after && parts[0] == rigs[0];
  }

  lemma TripleIndex(rigs: seq<string>, role: string, after: seq<string>)
    requires rigs != [] && IsValidRole(role) && NoRoles(if after == [] then [] else after[1..])
    requires if after != [] && IsValidRole(after[0]) then IsNamedRole(role) else !EndsInNamed(rigs)
    ensures var parts := rigs + [role] + after; ROLES.RoleIndex(parts, |parts| - 1) == |rigs|
  {
    hide IsNamedRole, IsValidRole, Vocabulary.RoleIndex;
    var parts, r := rigs + [role] + after, |rigs|;
    assert parts[r] == role && parts[r - 1] == rigs[r - 1];
    if after == [] {
      RoleIndexIs(parts, r);
    } else {
      assert parts[r + 1] == after[0];
      forall j | r + 1 < j < |parts| ensures !IsValidRole(parts[j]) { assert parts[j] == after[1..][j - r - 2]; }
      RoleIndexIs(parts, if IsValidRole(after[0]) then r + 1 else r);
    }
  }

  lemma ExplainedIsRead(parts: seq<string>, a: Identity)
    requires parts != [] && Explained(parts, a)
    ensures ValidParts(parts) == Some(a)
  {
    RoleKinds(a.role);
    hide ValidParts, IsTownLevelRole, IsRigLevelRole, IsNamedRole, IsValidRole, Split, Join, Vocabulary.RoleIndex;
    if DogWithoutName(parts, a) {
      DogAlone();
    } else if HyphenLeft(parts, a) {
      JoinEmpty([""], '-');
      EmptyIsNoRole();
      TripleRead(a, [""]);
    } else if IsTownLevelRole(a.role) || (IsTownLevelNamedRole(a.role) && |Segments(a.name)| == 1) {
      TownRead(a);
    } else if IsTownLevelNamedRole(a.role) {
      DogRead(a);
    } else if IsRigLevelRole(a.role) && |Segments(a.rig)| == 1 {
      PairRead(a);
    } else if IsRigLevelRole(a.role) {
      JoinEmpty([], '-');
      TripleRead(a, []);
      assert PartsOf(a) + [] == PartsOf(a);
    } else {
      JoinSplit(a.name, '-');
      TripleRead(a, Segments(a.name));
    }
  }

  lemma DogAlone()
    ensures ValidParts(["dog", ""]) == Some(Identity("", "dog", ""))
  {
  }

  lemma EmptyIsNoRole()
    ensures !IsValidRole("")
  {
  }

  /** The validator reads segments as an identity exactly when they are the segments of that identity in its pattern and
      it is acceptable, or in one of the two odd cases. */
  lemma ReadExactly(parts: seq<string>, a: Identity)
    requires parts != [] && forall i | 0 <= i < |parts| :: '-' !in parts[i]
    ensures ValidParts(parts) == Some(a) <==> Explained(parts, a)
  {
    if ValidParts(parts) == Some(a) {
      if |parts| <= 2 {
        ReadFew(parts, a);
      } else if ROLES.RoleIndex(parts, |parts| - 1) == 0 {
        RolesFirst(parts, a);
      } else {
        RoleInside(parts, a, ROLES.RoleIndex(parts, |parts| - 1));
      }
    }
    hide ValidParts;
    if Explained(parts, a) { ExplainedIsRead(parts, a); }
  }

  // ---------- Ids ----------

  lemma PrintedParts(prefix: string, a: Identity)
    requires '-' !in prefix && FitsRole(a)
    ensures var id := Printed(prefix, a); '-' in id && IndexOf(id, '-') == |prefix| && Rest(id) == PartsOf(a)
  {
    RoleKinds(a.role);
    RolesArePlain(a.role);
    hide IsTownLevelRole, IsTownLevelNamedRole, IsRigLevelRole, IsNamedRole, IsValidRole, Split, IndexOf, Rest;
    if IsTownLevelNamedRole(a.role) {
      DogParts(prefix, a);
    } else if a.rig == "" {
      hide FitsRole;
      PrefixAndRest(prefix, a.role);
      SplitWhole(a.role, '-');
    } else if a.name == "" {
      hide FitsRole;
      SingletonParts(prefix, a.rig, a.role);
    } else {
      hide FitsRole;
      NamedParts(prefix, a.rig, a.role, a.name);
    }
  }

  lemma DogParts(prefix: string, a: Identity)
    requires '-' !in prefix && '-' !in a.role && IsTownLevelNamedRole(a.role)
    ensures var id := Printed(prefix, a); '-' in id && IndexOf(id, '-') == |prefix| && Rest(id) == PartsOf(a)
  {
    hide IsTownLevelNamedRole, Split, IndexOf, Rest;
    var rest := a.role + ['-'] + a.name;
    assert Printed(prefix, a) == prefix + "-" + rest;
    PrefixAndRest(prefix, rest);
    SplitAppend(a.role, a.name, '-');
    SplitWhole(a.role, '-');
  }

  lemma IdParts(id: string)
    requires IndexOf(id, '-') > 0
    ensures var prefix := ExtractAgentPrefix(id); prefix != "" && '-' !in prefix && id == prefix + "-" + Glue(Rest(id))
    ensures Rest(id) != [] && forall i | 0 <= i < |Rest(id)| :: '-' !in Rest(id)[i]
    ensures Validated(id) == ValidParts(Rest(id))
  {
    IdOfParts(id);
    hide ValidParts, Join;
    assert forall i | 0 <= i < |Rest(id)| :: Rest(id)[i] in Rest(id);
  }

  lemma PrintedIsId(prefix: string, id: string, a: Identity)
    requires IndexOf(id, '-') > 0 && prefix == ExtractAgentPrefix(id) && FitsRole(a)
    ensures id == Printed(prefix, a) <==> Rest(id) == PartsOf(a)
  {
    hide Split, IndexOf, ValidParts, Printed, PartsOf, FitsRole, Join, Rest;
    IdParts(id);
    PrintedParts(prefix, a);
    PrintedStarts(prefix, a);
    PrintedGlued(prefix, Printed(prefix, a));
  }

  lemma PrintedStarts(prefix: string, a: Identity)
    ensures prefix <= Printed(prefix, a)
  {
    hide IsTownLevelNamedRole;
  }

  lemma PrintedGlued(prefix: string, id: string)
    requires '-' !in prefix && prefix != "" && IndexOf(id, '-') == |prefix| && prefix <= id
    ensures id == prefix + "-" + Glue(Rest(id))
  {
    IdOfParts(id);
    hide Join, Split;
  }

  /** The documented patterns decide: an id is accepted as an identity exactly when it is that identity in the pattern
      of its role and the identity is acceptable, or it is one of the two oddities. */
  lemma ValidatorExactly(id: string, a: Identity)
    requires IndexOf(id, '-') > 0
    ensures Validated(id) == Some(a)
      <==> (Acceptable(a) && id == Printed(ExtractAgentPrefix(id), a)) || DogWithoutName(Rest(id), a) || HyphenLeft(Rest(id), a)
  {
    hide Printed, PartsOf, ValidParts, DogWithoutName, HyphenLeft, Rest, ExtractAgentPrefix, Join, IndexOf, Split, Validated;
    IdParts(id);
    ReadExactly(Rest(id), a);
    if FitsRole(a) { PrintedIsId(ExtractAgentPrefix(id), id, a); }
    hide FitsRole;
  }

  /** So of the ids printed from an identity that fits its role exactly the acceptable ones are accepted as it. */
  lemma PrintedAccepted(prefix: string, a: Identity)
    requires prefix != "" && '-' !in prefix && FitsRole(a)
    ensures Validated(Printed(prefix, a)) == Some(a) <==> Acceptable(a)
  {
    hide Printed, ValidParts, Rest, ExtractAgentPrefix, Join, IndexOf, Split, Validated, FitsRole, Acceptable;
    PrintedParts(prefix, a);
    IdParts(Printed(prefix, a));
    ReadExactly(PartsOf(a), a);
    NotOdd(a);
  }

  lemma NotOdd(a: Identity)
    requires FitsRole(a)
    ensures !DogWithoutName(PartsOf(a), a) && !HyphenLeft(PartsOf(a), a)
  {
    RoleKinds(a.role);
    hide IsTownLevelRole, IsRigLevelRole, IsNamedRole, IsValidRole, Split;
  }

  /** And everything accepted fits its role, but for a dog without a name. */
  lemma AcceptedFits(id: string)
    requires Validated(id).Some?
    ensures FitsRole(Validated(id).value) <==> Rest(id) != ["dog", ""]
  {
    var a := Validated(id).value;
    ValidatorExactly(id, a);
    RoleKinds(a.role);
    if Rest(id) == ["dog", ""] { DogAlone(); }
    hide Printed, PartsOf, Validated, Rest, ExtractAgentPrefix, Join, IndexOf, Split, EndsInNamed, NoRoles;
    hide IsTownLevelRole, IsRigLevelRole, IsNamedRole, IsValidRole;
  }
}
