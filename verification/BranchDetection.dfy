/** Finding the integration branch an issue belongs to: a bounded walk up the parents.
    (internal/beads/integration.go, DetectIntegrationBranch) */
module BranchDetection {
  import opened Text
  import opened Integration

  datatype Issue = Issue(isEpic: bool, title: string, description: string, parent: string)

  /** What the walk asks: the issues, the branches -- the remote may not answer -- and the two names a template
      gives an epic. */
  datatype World = World(
    issues: map<string, Issue>, remote: string -> Option<bool>, local: string -> bool,
    titled: (string, Issue) -> string, legacy: (string, Issue) -> string)
  {
    /** The remote decides; when it does not answer, the local branches do. */
    predicate Exists(branch: string) {
      var answer := remote(branch);
      if answer.Some? then answer.value else local(branch)
    }

    /** The names to try for an epic: the recorded one alone, or else the two template names. */
    function Candidates(id: string, epic: Issue): seq<string> {
      var recorded := Metadata(epic.description, INTEGRATION_BRANCH);
      if recorded != "" then [recorded] else [titled(id, epic), legacy(id, epic)]
    }

    function FirstExisting(names: seq<string>): Option<string> {
      if names == [] then None else if Exists(names[0]) then Some(names[0]) else FirstExisting(names[1..])
    }

    function BranchOf(id: string): Option<string>
      requires id in issues
    {
      if issues[id].isEpic then FirstExisting(Candidates(id, issues[id])) else None
    }

    /** The ancestor a number of parents up, the issue itself included. */
    function Ancestor(id: string, up: nat): Option<string>
      decreases up
    {
      if up == 0 then Some(id)
      else if id in issues && issues[id].parent != "" then Ancestor(issues[id].parent, up - 1)
      else None
    }

    /** The ancestor up there exists and has a branch. */
    predicate HasBranch(id: string, up: nat) {
      var a := Ancestor(id, up);
      a.Some? && a.value in issues && BranchOf(a.value).Some?
    }

    function Walk(id: string, hops: nat): Detection
      decreases hops
    {
      if hops == 0 then NotFound
      else if id !in issues then LookupFailed(id)
      else if BranchOf(id).Some? then Found(BranchOf(id).value)
      else if issues[id].parent == "" then NotFound
      else Walk(issues[id].parent, hops - 1)
    }

    /** The branch is that of the ancestor up there, and no nearer ancestor has one. */
    ghost predicate Nearest(id: string, up: nat, branch: string) {
      && HasBranch(id, up) && BranchOf(Ancestor(id, up).value) == Some(branch)
      && forall nearer | 0 <= nearer < up :: !HasBranch(id, nearer)
    }

    /** The walk finds exactly the branch of the nearest ancestor that has one, among the issue and its parents up
        to the bound. */
    lemma {:induction false} WalkFindsNearest(id: string, hops: nat, branch: string)
      ensures Walk(id, hops) == Found(branch) <==> exists up :: 0 <= up < hops && Nearest(id, up, branch)
      decreases hops
    {
      hide BranchOf;
      if hops > 0 {
        if HasBranch(id, 0) {
          assert BranchOf(id) == Some(branch) ==> Nearest(id, 0, branch);
        } else if id in issues && issues[id].parent != "" {
          WalkFindsNearest(issues[id].parent, hops - 1, branch);
          forall up: nat ensures Nearest(id, up + 1, branch) <==> Nearest(issues[id].parent, up, branch) {
            NearestFromParent(id, up, branch);
          }
          if up :| 0 <= up < hops && Nearest(id, up, branch) { assert Nearest(issues[id].parent, up - 1, branch); }
        } else {
          forall up: nat ensures !HasBranch(id, up) { assert up > 0 ==> Ancestor(id, up).None?; }
        }
      }
    }

    /** The ancestor up there is not in the store. */
    predicate Missing(id: string, up: nat) {
      Ancestor(id, up).Some? && Ancestor(id, up).value !in issues
    }

    /** One parent up. */
    lemma FromParent(id: string, up: nat)
      requires id in issues && issues[id].parent != ""
      ensures Ancestor(id, up + 1) == Ancestor(issues[id].parent, up)
      ensures HasBranch(id, up + 1) == HasBranch(issues[id].parent, up)
      ensures Missing(id, up + 1) == Missing(issues[id].parent, up)
    {
      hide BranchOf;
    }

    /** The missing ancestor up there stops the walk: no nearer one has a branch. */
    ghost predicate FailsAt(id: string, up: nat, missing: string) {
      Missing(id, up) && Ancestor(id, up) == Some(missing) && forall nearer | 0 <= nearer < up :: !HasBranch(id, nearer)
    }

    /** The walk fails exactly at a missing ancestor within the bound when no nearer one has a branch. */
    lemma {:induction false} WalkFailsAtMissing(id: string, hops: nat, missing: string)
      ensures Walk(id, hops) == LookupFailed(missing) <==>
        exists up :: 0 <= up < hops && FailsAt(id, up, missing)
      decreases hops
    {
      hide BranchOf, HasBranch, Missing;
      if hops > 0 {
        AtStart(id);
        if id in issues && BranchOf(id).None? && issues[id].parent != "" {
          var parent := issues[id].parent;
          WalkFailsAtMissing(parent, hops - 1, missing);
          forall up: nat { FromParent(id, up); }
          if up :| 0 <= up < hops - 1 && FailsAt(parent, up, missing) {
            assert forall nearer | 0 <= nearer < up + 1 :: !HasBranch(id, nearer) by {
              assert forall k | 0 < k < up + 1 :: HasBranch(id, k) == HasBranch(parent, k - 1);
            }
            assert FailsAt(id, up + 1, missing);
          }
          if up :| 0 <= up < hops && FailsAt(id, up, missing) {
            assert forall k | 0 <= k < up - 1 :: HasBranch(parent, k) == HasBranch(id, k + 1);
            assert FailsAt(parent, up - 1, missing);
          }
        } else if id in issues && BranchOf(id).None? {
          forall up: nat ensures !Missing(id, up) { RootEnds(id, up); }
        } else if id !in issues {
          assert missing == id ==> FailsAt(id, 0, missing);
        }
      }
    }

    /** What the issue itself settles. */
    lemma AtStart(id: string)
      ensures Missing(id, 0) <==> id !in issues
      ensures HasBranch(id, 0) <==> id in issues && BranchOf(id).Some?
      ensures Ancestor(id, 0) == Some(id)
    {
      hide BranchOf;
    }

    lemma RootEnds(id: string, up: nat)
      requires id in issues && issues[id].parent == ""
      ensures !Missing(id, up) && (up > 0 ==> !HasBranch(id, up))
    {
      hide BranchOf;
    }

    /** It finds nothing exactly when, within the bound, no ancestor is missing and none has a branch. */
    lemma {:induction false} WalkFindsNothing(id: string, hops: nat)
      ensures Walk(id, hops) == NotFound <==> forall up | 0 <= up < hops :: !Missing(id, up) && !HasBranch(id, up)
      decreases hops
    {
      hide BranchOf, HasBranch, Missing, Ancestor;
      if hops > 0 {
        AtStart(id);
        if id in issues && BranchOf(id).None? && issues[id].parent != "" {
          var parent := issues[id].parent;
          WalkFindsNothing(parent, hops - 1);
          forall up: nat { FromParent(id, up); }
          assert forall up | 0 < up < hops ::
            Missing(id, up) == Missing(parent, up - 1) && HasBranch(id, up) == HasBranch(parent, up - 1);
          assert forall up | 0 <= up < hops - 1 ::
            Missing(id, up + 1) == Missing(parent, up) && HasBranch(id, up + 1) == HasBranch(parent, up);
        } else if id in issues && BranchOf(id).None? {
          forall up: nat { RootEnds(id, up); }
        }
      }
    }

    /** Counting from the parent instead. */
    lemma NearestFromParent(id: string, up: nat, branch: string)
      requires id in issues && issues[id].parent != "" && !HasBranch(id, 0)
      ensures Nearest(id, up + 1, branch) <==> Nearest(issues[id].parent, up, branch)
    {
      hide BranchOf;
      var parent := issues[id].parent;
      assert forall k: nat {:trigger HasBranch(parent, k)} :: HasBranch(id, k + 1) == HasBranch(parent, k);
      if Nearest(id, up + 1, branch) {
        forall nearer | 0 <= nearer < up ensures !HasBranch(parent, nearer) { assert !HasBranch(id, nearer + 1); }
      }
      if Nearest(parent, up, branch) {
        forall nearer | 0 <= nearer < up + 1 ensures !HasBranch(id, nearer) {
          if nearer > 0 { assert !HasBranch(parent, nearer - 1); }
        }
      }
    }
  }

  datatype Detection = Found(branch: string) | NotFound | LookupFailed(id: string)

  const MAX_DEPTH := 10

  method BranchExists(w: World, branch: string) returns (there: bool)
    ensures there == w.Exists(branch)
  {
    var answer := w.remote(branch);
    match answer
    case None => there := w.local(branch);
    case Some(known) => there := known;
  }

  lemma OneCandidate(w: World, name: string)
    ensures w.FirstExisting([name]) == if w.Exists(name) then Some(name) else None
  {
    hide World.Exists;
    assert [name][1..] == [];
  }

  /** The names tried at one epic. */
  method EpicBranch(w: World, id: string, issue: Issue) returns (found: Option<string>)
    ensures found == w.FirstExisting(w.Candidates(id, issue))
  {
    var recorded := GetMetadataField(issue.description, INTEGRATION_BRANCH);
    hide Metadata, World.Exists;
    var branch := if recorded == "" then w.titled(id, issue) else recorded;
    var there := BranchExists(w, branch);
    if there {
      return Some(branch);
    }
    if recorded == "" {
      var legacy := w.legacy(id, issue);
      assert [branch, legacy][1..] == [legacy];
      OneCandidate(w, legacy);
      if legacy != branch {
        there := BranchExists(w, legacy);
        if there {
          return Some(legacy);
        }
      }
    } else {
      OneCandidate(w, branch);
    }
    found := None;
  }

  method DetectIntegrationBranch(w: World, issueID: string) returns (r: Detection)
    ensures r == w.Walk(issueID, 10)
  {
    hide World.Candidates, World.FirstExisting;
    var currentID := issueID;
    for depth := 0 to MAX_DEPTH
      invariant w.Walk(issueID, MAX_DEPTH) == w.Walk(currentID, MAX_DEPTH - depth)
    {
      if currentID !in w.issues {
        return LookupFailed(currentID);
      }
      var issue := w.issues[currentID];
      if issue.isEpic {
        var found := EpicBranch(w, currentID, issue);
        if found.Some? {
          return Found(found.value);
        }
      }
      if issue.parent == "" {
        return NotFound;
      }
      currentID := issue.parent;
    }
    r := NotFound;
  }

  /** The branch of an issue: an epic's recorded one, or else the one its title gives, or else the legacy one -- each
      only if it exists, and the latter two only when none is recorded. */
  lemma BranchOfEpic(w: World, id: string)
    requires id in w.issues
    ensures var epic := w.issues[id];
      var recorded, titled, legacy := Metadata(epic.description, INTEGRATION_BRANCH), w.titled(id, epic), w.legacy(id, epic);
      w.BranchOf(id) ==
        if !epic.isEpic then None
        else if recorded != "" then if w.Exists(recorded) then Some(recorded) else None
        else if w.Exists(titled) then Some(titled)
        else if w.Exists(legacy) then Some(legacy)
        else None
  {
    hide Metadata, World.Exists;
    var epic := w.issues[id];
    OneCandidate(w, Metadata(epic.description, INTEGRATION_BRANCH));
    OneCandidate(w, w.legacy(id, epic));
    assert [w.titled(id, epic), w.legacy(id, epic)][1..] == [w.legacy(id, epic)];
  }

  /** Existing means on the remote, or locally when the remote does not answer. */
  lemma ExistsWhere(w: World, branch: string)
    ensures w.Exists(branch) <==> w.remote(branch) == Some(true) || (w.remote(branch) == None && w.local(branch))
  {
  }

  /** The world after the field is added to an issue. */
  ghost function WithBranch(w: World, id: string, value: string): World
    requires id in w.issues
  {
    var issue := w.issues[id];
    w.(issues := w.issues[id := issue.(description := WithMetadata(issue.description, INTEGRATION_BRANCH, value))])
  }

  /** So adding the field to an epic pins its branch, whatever the epic recorded or was called before. */
  lemma AddedBranchDecides(w: World, id: string, value: string)
    requires id in w.issues && w.issues[id].isEpic && '\n' !in value && Trim(value) != ""
    ensures WithBranch(w, id, value).BranchOf(id) == if w.Exists(Trim(value)) then Some(Trim(value)) else None
  {
    BranchFieldsIndependent();
    AddedFieldReadsBack(w.issues[id].description, INTEGRATION_BRANCH, value);
    BranchOfEpic(WithBranch(w, id, value), id);
    hide Metadata, WithMetadata, Trim, World.BranchOf, MetadataKey;
  }
}
