/** Beads directories and the redirect files between them.  (internal/beads/beads_redirect.go) */
module Redirect {
  import opened Text

  // ---------- Absolute paths ----------

  /** An absolute, cleaned path: its components from the root. */
  type Path = seq<string>

  /** One component of a path text: empty and "." stay, ".." goes up (the root is its own parent). */
  function Enter(p: Path, component: string): Path {
    if component == "" || component == "." then p
    else if component == ".." then Dir(p)
    else p + [component]
  }

  function Dir(p: Path): Path {
    if p == [] then [] else p[..|p| - 1]
  }

  /** Following components from a directory. */
  function Walk(p: Path, components: seq<string>): Path {
    if components == [] then p else Enter(Walk(p, components[..|components| - 1]), components[|components| - 1])
  }

  /** filepath.Clean(filepath.Join(p, text)): the text is always taken as relative. */
  function Resolve(p: Path, text: string): Path {
    Walk(p, Split(text, '/'))
  }

  lemma {:induction false} WalkAppend(p: Path, a: seq<string>, b: seq<string>)
    ensures Walk(p, a + b) == Walk(Walk(p, a), b)
  {
    if b == [] {
      assert a + b == a;
    } else {
      WalkAppend(p, a, b[..|b| - 1]);
      assert (a + b)[..|a + b| - 1] == a + b[..|b| - 1];
    }
  }

  predicate PlainName(component: string) {
    component != "" && component != "." && component != ".."
  }

  lemma {:induction false} WalkPlain(p: Path, names: seq<string>)
    requires forall n <- names :: PlainName(n)
    ensures Walk(p, names) == p + names
  {
    if names != [] {
      WalkPlain(p, names[..|names| - 1]);
      assert names[|names| - 1] in names;
      assert names == names[..|names| - 1] + [names[|names| - 1]];
    }
  }

  // ---------- Hops ----------

  /** What redirect files say: the text of dir/redirect for each directory that has a readable one. */
  type Redirects = map<Path, string>

  /** The directory a beads directory redirects to; none when it has no redirect, an empty one, or one to itself. */
  function Hop(files: Redirects, dir: Path): Option<Path> {
    if dir !in files || Trim(files[dir]) == "" then None
    else
      var resolved := Resolve(Dir(dir), Trim(files[dir]));
      if resolved == dir then None else Some(resolved)
  }

  /** An errant redirect: not empty, and resolved to the directory it stands in. */
  predicate RedirectsToItself(files: Redirects, dir: Path) {
    dir in files && Trim(files[dir]) != "" && Resolve(Dir(dir), Trim(files[dir])) == dir
  }

  const BEADS := ".beads"

  function WorkDir(path: Path): Path {
    if path != [] && path[|path| - 1] == BEADS then Dir(path) else path
  }

  /** Resolving starts from the same beads directory whether it is named or the directory that holds it. */
  lemma EitherWay(workDir: Path)
    requires workDir == [] || workDir[|workDir| - 1] != ".beads"
    ensures WorkDir(workDir) == workDir && WorkDir(workDir + [".beads"]) == workDir
  {
  }

  // ---------- The follower ----------

  /** At most the given number of hops. */
  function Follow(files: Redirects, dir: Path, hops: nat): Path
    decreases hops
  {
    if hops == 0 || Hop(files, dir).None? then dir else Follow(files, Hop(files, dir).value, hops - 1)
  }

  /** The unbounded chain from dir ends at end after exactly n hops. */
  ghost predicate EndsAfter(files: Redirects, dir: Path, n: nat, end: Path)
    decreases n
  {
    if n == 0 then dir == end && Hop(files, dir).None?
    else Hop(files, dir).Some? && EndsAfter(files, Hop(files, dir).value, n - 1, end)
  }

  /** The chain reaches at by exactly n hops. */
  ghost predicate Reaches(files: Redirects, dir: Path, n: nat, at: Path)
    decreases n
  {
    if n == 0 then dir == at else Hop(files, dir).Some? && Reaches(files, Hop(files, dir).value, n - 1, at)
  }

  class FileSystem {
    var redirects: Redirects

    constructor (redirects: Redirects)
      ensures this.redirects == redirects
    {
      this.redirects := redirects;
    }

    method ResolveWithDepth(beadsDir: Path, maxDepth: int) returns (dir: Path)
      ensures dir == Follow(redirects, beadsDir, if maxDepth <= 0 then 0 else maxDepth)
      decreases maxDepth
    {
      if maxDepth <= 0 {
        return beadsDir;
      }
      if beadsDir !in redirects {
        return beadsDir;
      }
      var redirectTarget := Trim(redirects[beadsDir]);
      if redirectTarget == "" {
        return beadsDir;
      }
      var resolved := Resolve(Dir(beadsDir), redirectTarget);
      if resolved == beadsDir {
        return beadsDir;
      }
      dir := ResolveWithDepth(resolved, maxDepth - 1);
    }

    /** Follows at most four hops.  A redirect of the start to itself is deleted (which may fail) and ignored; no other
        is touched. */
    method ResolveBeadsDir(path: Path) returns (dir: Path)
      modifies this
      ensures dir == Follow(old(redirects), WorkDir(path) + [BEADS], 4)
      ensures redirects == old(redirects)
        || (RedirectsToItself(old(redirects), WorkDir(path) + [BEADS]) && redirects == old(redirects) - {WorkDir(path) + [BEADS]})
    {
      var workDir := path;
      if path != [] && path[|path| - 1] == BEADS {
        workDir := Dir(path);
      }
      var beadsDir := workDir + [BEADS];
      assert Dir(beadsDir) == workDir;
      if beadsDir !in redirects {
        return beadsDir;
      }
      var redirectTarget := Trim(redirects[beadsDir]);
      if redirectTarget == "" {
        return beadsDir;
      }
      var resolved := Resolve(workDir, redirectTarget);
      if resolved == beadsDir {
        var removed: bool := *;
        if removed {
          redirects := redirects - {beadsDir};
        }
        return beadsDir;
      }
      dir := ResolveWithDepth(resolved, 3);
    }
  }

  /** When the unbounded chain ends within the allowed hops, the follower finds its end. */
  lemma {:induction false} FollowFindsEnd(files: Redirects, dir: Path, n: nat, end: Path, hops: nat)
    requires EndsAfter(files, dir, n, end) && n <= hops
    ensures Follow(files, dir, hops) == end
    decreases n
  {
    if n > 0 { FollowFindsEnd(files, Hop(files, dir).value, n - 1, end, hops - 1); }
  }

  /** Otherwise -- the chain is longer, or runs in a circle -- it stops exactly that many hops along. */
  lemma {:induction false} FollowStops(files: Redirects, dir: Path, hops: nat)
    requires forall n: nat, end: Path | n <= hops :: !EndsAfter(files, dir, n, end)
    ensures Reaches(files, dir, hops, Follow(files, dir, hops))
    decreases hops
  {
    assert !EndsAfter(files, dir, 0, dir);
    if hops > 0 {
      var next := Hop(files, dir).value;
      forall n: nat, end: Path | n <= hops - 1 ensures !EndsAfter(files, next, n, end) {
        assert !EndsAfter(files, dir, n + 1, end);
      }
      FollowStops(files, next, hops - 1);
    }
  }

  /** The two cases exclude each other, and every chain ends at most once. */
  lemma {:induction false} EndsOnce(files: Redirects, dir: Path, m: nat, end1: Path, n: nat, end2: Path)
    requires EndsAfter(files, dir, m, end1) && EndsAfter(files, dir, n, end2)
    ensures m == n && end1 == end2
    decreases m
  {
    if m > 0 && n > 0 { EndsOnce(files, Hop(files, dir).value, m - 1, end1, n - 1, end2); }
  }

  /** A directory that is reached again ends no chain: redirect circles are followed only to the bound. */
  lemma {:induction false} CirclesNeverEnd(files: Redirects, dir: Path, n: nat, m: nat, end: Path)
    requires n > 0 && Reaches(files, dir, n, dir)
    ensures !EndsAfter(files, dir, m, end)
    decreases m
  {
    if EndsAfter(files, dir, m, end) {
      if m >= n {
        SkipHops(files, dir, n, dir, m, end);
        CirclesNeverEnd(files, dir, n, m - n, end);
      } else {
        EndBlocksReach(files, dir, m, end, n, dir);
      }
    }
  }

  lemma {:induction false} SkipHops(files: Redirects, dir: Path, n: nat, at: Path, m: nat, end: Path)
    requires Reaches(files, dir, n, at) && n <= m && EndsAfter(files, dir, m, end)
    ensures EndsAfter(files, at, m - n, end)
    decreases n
  {
    hide Hop;
    if n > 0 { SkipHops(files, Hop(files, dir).value, n - 1, at, m - 1, end); }
  }

  lemma {:induction false} EndBlocksReach(files: Redirects, dir: Path, m: nat, end: Path, n: nat, at: Path)
    requires EndsAfter(files, dir, m, end) && m < n && Reaches(files, dir, n, at)
    ensures false
    decreases m
  {
    if m > 0 { EndBlocksReach(files, Hop(files, dir).value, m - 1, end, n - 1, at); }
  }

  /** Deleting a redirect that was ignored anyway changes no resolution, from anywhere. */
  lemma {:induction false} DeletingIgnoredIsInvisible(files: Redirects, ignored: Path, dir: Path, hops: nat)
    requires Hop(files, ignored).None?
    ensures Follow(files - {ignored}, dir, hops) == Follow(files, dir, hops)
    decreases hops
  {
    assert Hop(files - {ignored}, dir) == Hop(files, dir);
    if hops > 0 && Hop(files, dir).Some? {
      DeletingIgnoredIsInvisible(files, ignored, Hop(files, dir).value, hops - 1);
    }
  }

  // ---------- Setting up a worktree's redirect ----------

  /** What os.Stat reports. */
  datatype Stat = Present | Absent | Unreadable

  /** The part of the file system the computation asks about. */
  datatype Disk = Disk(stat: Path -> Stat, redirects: Redirects)

  /** filepath.Rel for absolute paths, as components: up from the base to the common part, then down. */
  function Rel(base: Path, target: Path): seq<string> {
    if base != [] && target != [] && base[0] == target[0] then Rel(base[1..], target[1..])
    else Repeat("..", |base|) + target
  }

  function Repeat(s: string, n: nat): (r: seq<string>)
    ensures |r| == n && forall i | 0 <= i < n :: r[i] == s
  {
    seq(n, _ => s)
  }

  datatype TargetError = TooShallow | CanonicalLocation | NoBeads | CleaningFailed | WriteFailed

  datatype Target = Success(path: string) | Failure(error: TargetError)

  /** strings.Repeat("../", n). */
  function UpPath(n: nat): string {
    if n == 0 then "" else UpPath(n - 1) + "../"
  }

  const MAYOR := ["mayor", "rig", BEADS]
  const MAYOR_TEXT := "mayor" + "/" + ("rig" + "/" + BEADS)

  /** Which location the case analysis chooses for the worktrees of a rig. */
  datatype Choice = RigBeads | RigRedirect(text: string) | MayorBeads | Nowhere

  function Choose(disk: Disk, rigRoot: Path): Choice {
    var rigBeads := rigRoot + [BEADS];
    var hasDB := disk.stat(rigBeads).Present?
      && (disk.stat(rigBeads + ["dolt"]).Present? || disk.stat(rigBeads + ["redirect"]).Present?);
    if !hasDB && !disk.stat(rigRoot + MAYOR).Absent? then MayorBeads
    else if !disk.stat(rigBeads).Present? then Nowhere
    else if rigBeads in disk.redirects && Trim(disk.redirects[rigBeads]) != "" then RigRedirect(Trim(disk.redirects[rigBeads]))
    else RigBeads
  }

  /** The text for a choice, seen from the rig root. */
  function ChoiceText(choice: Choice): string {
    match choice
    case RigBeads => BEADS
    case RigRedirect(text) => text
    case MayorBeads => MAYOR_TEXT
    case Nowhere => ""
  }

  /** The text for a choice, seen from a worktree the given number of levels below the rig root. */
  function TargetText(choice: Choice, depth: nat): string {
    UpPath(depth) + ChoiceText(choice)
  }

  function ComputedTarget(disk: Disk, townRoot: Path, worktree: Path): Target {
    var parts := Rel(townRoot, worktree);
    if |parts| < 2 then Failure(TooShallow)
    else if parts[0] == "mayor" || parts[1] == "mayor" then Failure(CanonicalLocation)
    else
      var choice := Choose(disk, Enter(townRoot, parts[0]));
      if choice.Nowhere? then Failure(NoBeads) else Success(TargetText(choice, |parts| - 1))
  }

  method ComputeRedirectTarget(disk: Disk, townRoot: Path, worktree: Path) returns (target: Target)
    ensures target == ComputedTarget(disk, townRoot, worktree)
  {
    var parts := Rel(townRoot, worktree);
    if |parts| < 2 {
      return Failure(TooShallow);
    }
    if parts[0] == "mayor" || parts[1] == "mayor" {
      return Failure(CanonicalLocation);
    }
    var rigRoot := Enter(townRoot, parts[0]);
    var rigBeads := rigRoot + [BEADS];
    var usesMayorFallback, rigBeadsExists, rigHasDB := false, false, false;
    if disk.stat(rigBeads).Present? {
      rigBeadsExists := true;
    }
    if rigBeadsExists {
      if disk.stat(rigBeads + ["dolt"]).Present? {
        rigHasDB := true;
      } else if disk.stat(rigBeads + ["redirect"]).Present? {
        rigHasDB := true;
      }
    }
    if !rigBeadsExists || !rigHasDB {
      if disk.stat(rigRoot + MAYOR).Absent? {
        if !rigBeadsExists {
          return Failure(NoBeads);
        }
      } else {
        usesMayorFallback := true;
      }
    }
    var depth := |parts| - 1;
    var upPath := UpPath(depth);
    var redirectPath: string;
    if usesMayorFallback {
      redirectPath := upPath + MAYOR_TEXT;
    } else {
      redirectPath := upPath + BEADS;
      if rigBeads in disk.redirects {
        var rigRedirectTarget := Trim(disk.redirects[rigBeads]);
        if rigRedirectTarget != "" {
          redirectPath := upPath + rigRedirectTarget;
        }
      }
    }
    target := Success(redirectPath);
  }

  /** What a failed set-up leaves of the worktree's redirect: the old one, none, or a part of the new one. */
  predicate LeftBehind(before: Redirects, after: Redirects, own: Path, text: string) {
    && after - {own} == before - {own}
    && (own in after ==> (own in before && after[own] == before[own]) || after[own] <= text + "\n")
  }

  /** The path part of SetupRedirect.  Without a target nothing changes.  With one the old redirect is cleaned away and
      the new one is written; either may fail, and no other redirect is touched. */
  method SetupRedirect(fs: FileSystem, stat: Path -> Stat, townRoot: Path, worktree: Path) returns (error: Option<TargetError>)
    modifies fs
    ensures match ComputedTarget(Disk(stat, old(fs.redirects)), townRoot, worktree)
      case Failure(e) => error == Some(e) && fs.redirects == old(fs.redirects)
      case Success(text) =>
        && (error == None ==> fs.redirects == AfterSetup(old(fs.redirects), worktree, text))
        && (error.Some? ==> error.value == CleaningFailed || error.value == WriteFailed)
        && (error.Some? ==> LeftBehind(old(fs.redirects), fs.redirects, worktree + [BEADS], text))
  {
    var target := ComputeRedirectTarget(Disk(stat, fs.redirects), townRoot, worktree);
    if target.Failure? {
      return Some(target.error);
    }
    var own, text := worktree + [BEADS], target.path + "\n";
    var removed: bool, cleaned: bool, written: bool := *, *, *;
    if removed {
      fs.redirects := fs.redirects - {own};
    }
    if !cleaned {
      return Some(CleaningFailed);
    }
    if !written {
      var started: bool, length: nat := *, *;
      if started {
        fs.redirects := fs.redirects[own := if length < |text| then text[..length] else text];
      }
      return Some(WriteFailed);
    }
    fs.redirects := fs.redirects[own := text];
    error := None;
  }

  // ---------- Where the written redirect lands ----------

  /** How far the worktree lies outside the town: the number of leading ".." in its relative path. */
  function Ups(base: Path, target: Path): nat {
    if base != [] && target != [] && base[0] == target[0] then Ups(base[1..], target[1..]) else |base|
  }

  lemma {:induction false} RelShape(base: Path, target: Path)
    ensures var u := Ups(base, target);
      var common := |base| - u;
      && u <= |base| && common <= |target| && base[..common] == target[..common]
      && Rel(base, target) == Repeat("..", u) + target[common..]
  {
    if base != [] && target != [] && base[0] == target[0] {
      RelShape(base[1..], target[1..]);
      var u := Ups(base, target);
      var common := |base| - u;
      assert base[..common] == [base[0]] + base[1..][..common - 1];
      assert target[..common] == [target[0]] + target[1..][..common - 1];
      assert target[common..] == target[1..][common - 1..];
    }
  }

  /** Splitting a path text with the upward steps in front. */
  lemma {:induction false} SplitUpPath(n: nat, text: string)
    ensures Split(UpPath(n) + text, '/') == Repeat("..", n) + Split(text, '/')
    decreases n
  {
    if n == 0 {
      assert UpPath(0) + text == text;
      assert Repeat("..", 0) + Split(text, '/') == Split(text, '/');
    } else {
      assert UpPath(n) + text == UpPath(n - 1) + ("../" + text);
      SplitUpPath(n - 1, "../" + text);
      assert "../" + text == ".." + ['/'] + text;
      SplitAppend("..", text, '/');
      SplitWhole("..", '/');
      assert Repeat("..", n - 1) + ([".."] + Split(text, '/')) == Repeat("..", n) + Split(text, '/');
    }
  }

  /** The path n levels up. */
  function Up(p: Path, n: nat): Path {
    if n <= |p| then p[..|p| - n] else []
  }

  lemma {:induction false} WalkUp(p: Path, n: nat)
    ensures Walk(p, Repeat("..", n)) == Up(p, n)
  {
    if n > 0 {
      assert Repeat("..", n)[..n - 1] == Repeat("..", n - 1);
      WalkUp(p, n - 1);
    }
  }

  /** Going up the relative depth from the worktree arrives at the rig root exactly when the worktree is in the town
      or in its parent, the root of the disk aside. */
  lemma UpwardsIsRigRoot(townRoot: Path, worktree: Path)
    requires |Rel(townRoot, worktree)| >= 2 && forall c <- townRoot + worktree :: PlainName(c)
    ensures var parts := Rel(townRoot, worktree);
      Walk(worktree, Repeat("..", |parts| - 1)) == Enter(townRoot, parts[0]) <==> Ups(townRoot, worktree) <= 1
  {
    hide Rel, Ups, Walk, Enter;
    var u := Ups(townRoot, worktree);
    RelShape(townRoot, worktree);
    FirstPart(townRoot, worktree);
    WalkUp(worktree, |Rel(townRoot, worktree)| - 1);
    UpwardsFrom(townRoot, worktree, |townRoot| - u, u);
  }

  /** The first component of the relative path. */
  lemma FirstPart(townRoot: Path, worktree: Path)
    requires |Rel(townRoot, worktree)| >= 2 && forall c <- townRoot + worktree :: PlainName(c)
    ensures var first, u := Rel(townRoot, worktree)[0], Ups(townRoot, worktree);
      if u > 0 then first == ".."
      else |townRoot| < |worktree| && first == worktree[|townRoot|] && PlainName(first)
  {
    hide Rel, Ups, PlainName;
    RelShape(townRoot, worktree);
    if Ups(townRoot, worktree) == 0 {
      assert Rel(townRoot, worktree) == worktree[|townRoot|..] by { assert Repeat("..", 0) == []; }
      assert worktree[|townRoot|] in townRoot + worktree by { assert worktree[|townRoot|] in worktree; }
    }
  }

  lemma UpwardsFrom(base: Path, target: Path, common: nat, u: nat)
    requires common + u == |base| && common <= |target| && base[..common] == target[..common]
    requires u + |target| - common >= 2 && (u == 0 ==> PlainName(target[common]))
    ensures var n := u + |target| - common - 1;
      Up(target, n) == Enter(base, if u == 0 then target[common] else "..")
      <==> u <= 1
  {
    if u == 0 {
      assert base == target[..common];
      assert target[..common + 1] == base + [target[common]];
    } else {
      assert |Enter(base, "..")| == common + u - 1;
      if u == 1 { assert base[..common] == target[..common]; }
    }
  }

  /** The first hop from a worktree that has the computed text in its redirect file. */
  lemma WrittenRedirectLands(worktree: Path, rigRoot: Path, depth: nat, text: string)
    requires Walk(worktree, Repeat("..", depth)) == rigRoot
    ensures Resolve(worktree, UpPath(depth) + text) == Resolve(rigRoot, text)
  {
    SplitUpPath(depth, text);
    WalkAppend(worktree, Repeat("..", depth), Split(text, '/'));
  }

  /** Reading back what SetupRedirect wrote: the trailing newline is trimmed and nothing else. */
  lemma WrittenTextReadsBack(depth: nat, text: string)
    requires depth >= 1 && text != "" && Trimmed(text)
    ensures Trim(UpPath(depth) + text + "\n") == UpPath(depth) + text
  {
    var s := UpPath(depth) + text;
    StartsUp(depth);
    assert !IsSpace(s[0]) && s[|s| - 1] == text[|text| - 1];
    TrimFixed(s);
    TrimDropLast(s + "\n");
    assert (s + "\n")[..|s|] == s;
  }

  lemma {:induction false} StartsUp(depth: nat)
    requires depth >= 1
    ensures UpPath(depth) != "" && UpPath(depth)[0] == '.'
  {
    if depth > 1 { StartsUp(depth - 1); }
  }

  /** The file system after SetupRedirect: the worktree's redirect file holds the text and a newline. */
  function AfterSetup(files: Redirects, worktree: Path, text: string): Redirects {
    files[worktree + [BEADS] := text + "\n"]
  }

  lemma PlainTexts(rigRoot: Path)
    ensures Resolve(rigRoot, BEADS) == rigRoot + [BEADS] && Resolve(rigRoot, MAYOR_TEXT) == rigRoot + MAYOR
  {
    SplitWhole(BEADS, '/');
    WalkPlain(rigRoot, [BEADS]);
    MayorSplits();
    WalkPlain(rigRoot, MAYOR);
  }

  lemma MayorSplits()
    ensures Split(MAYOR_TEXT, '/') == MAYOR
  {
    hide Split;
    SplitAppend("mayor", "rig" + "/" + BEADS, '/');
    SplitAppend("rig", BEADS, '/');
    SplitWhole("mayor", '/');
    SplitWhole("rig", '/');
    SplitWhole(BEADS, '/');
    assert ["mayor"] + (["rig"] + [BEADS]) == MAYOR;
  }

  /** Where the case analysis means to send the worktree. */
  function Destination(choice: Choice, rigRoot: Path): Path {
    match choice
    case RigBeads => rigRoot + [BEADS]
    case RigRedirect(text) => Resolve(rigRoot, text)
    case MayorBeads => rigRoot + MAYOR
    case Nowhere => rigRoot
  }

  /** How many levels above its start a path text climbs. */
  function Climb(components: seq<string>): nat {
    if components == [] then 0
    else
      var front := components[..|components| - 1];
      Climb(front) + if components[|front|] == ".." && Walk([], front) == [] then 1 else 0
  }

  /** A path text drops what it climbs and adds the rest. */
  lemma {:induction false} WalkClimbs(p: Path, components: seq<string>)
    ensures Walk(p, components) == Up(p, Climb(components)) + Walk([], components)
  {
    if components != [] {
      var front, last := components[..|components| - 1], components[|components| - 1];
      WalkClimbs(p, front);
      EnterClimbs(p, Climb(front), Walk([], front), last);
    }
  }

  lemma EnterClimbs(p: Path, climb: nat, down: Path, component: string)
    ensures Enter(Up(p, climb) + down, component)
      == Up(p, climb + if component == ".." && down == [] then 1 else 0) + Enter(down, component)
  {
    if component == ".." && down != [] {
      assert (Up(p, climb) + down)[..|Up(p, climb) + down| - 1] == Up(p, climb) + down[..|down| - 1];
    }
  }

  /** From a directory properly above another a path text arrives at the same place exactly when it climbs to the root
      from both. */
  lemma SameFromAbove(above: Path, below: Path, text: string)
    requires above < below
    ensures Resolve(above, text) == Resolve(below, text) <==> Climb(Split(text, '/')) >= |below|
  {
    var components := Split(text, '/');
    WalkClimbs(above, components);
    WalkClimbs(below, components);
    hide Walk, Climb, Split;
    assert |Up(above, Climb(components))| == |Up(below, Climb(components))| <==> Climb(components) >= |below|;
  }

  /** Farther outside the town the upward steps end properly above the rig root. */
  lemma UpwardsEndsAbove(townRoot: Path, worktree: Path)
    requires |Rel(townRoot, worktree)| >= 2 && (forall c <- townRoot + worktree :: PlainName(c))
    requires Ups(townRoot, worktree) >= 2
    ensures Up(worktree, |Rel(townRoot, worktree)| - 1) < Enter(townRoot, Rel(townRoot, worktree)[0])
  {
    hide Rel, Ups;
    RelShape(townRoot, worktree);
    FirstPart(townRoot, worktree);
    var common := |townRoot| - Ups(townRoot, worktree);
    var above := Up(worktree, |Rel(townRoot, worktree)| - 1);
    assert |above| <= common && above == worktree[..common][..|above|];
    assert Dir(townRoot)[..common] == townRoot[..common];
  }

  /** The computed text leads where the case analysis chose exactly when the worktree is at most one level outside the
      town, or the rig's own redirect climbs all the way to the root. */
  predicate RightPlace(choice: Choice, rigRoot: Path, ups: nat) {
    ups <= 1 || (choice.RigRedirect? && Climb(Split(choice.text, '/')) >= |rigRoot|)
  }

  lemma TargetTextLands(townRoot: Path, worktree: Path, choice: Choice)
    requires |Rel(townRoot, worktree)| >= 2 && (forall c <- townRoot + worktree :: PlainName(c)) && !choice.Nowhere?
    ensures var parts := Rel(townRoot, worktree);
      var rigRoot := Enter(townRoot, parts[0]);
      Resolve(worktree, TargetText(choice, |parts| - 1)) == Destination(choice, rigRoot)
      <==> RightPlace(choice, rigRoot, Ups(townRoot, worktree))
  {
    var parts := Rel(townRoot, worktree);
    var rigRoot, depth, text := Enter(townRoot, parts[0]), |parts| - 1, ChoiceText(choice);
    hide Rel, Ups, Resolve, Enter, Climb, Split, Walk, Up, UpPath, PlainName;
    WalkUp(worktree, depth);
    WrittenRedirectLands(worktree, Up(worktree, depth), depth, text);
    PlainTexts(rigRoot);
    assert Destination(choice, rigRoot) == Resolve(rigRoot, text);
    if Ups(townRoot, worktree) <= 1 {
      UpwardsIsRigRoot(townRoot, worktree);
    } else {
      UpwardsEndsAbove(townRoot, worktree);
      PlainTextsStay();
      SameFromAbove(Up(worktree, depth), rigRoot, text);
    }
  }

  lemma PlainTextsStay()
    ensures Climb(Split(BEADS, '/')) == 0 && Climb(Split(MAYOR_TEXT, '/')) == 0
  {
    SplitWhole(BEADS, '/');
    MayorSplits();
    hide Split;
    assert [BEADS][..0] == [] && ["mayor"][..0] == [];
    assert MAYOR[..2] == ["mayor", "rig"] && ["mayor", "rig"][..1] == ["mayor"];
    assert Climb(["mayor"]) == 0 && Climb(["mayor", "rig"]) == 0;
  }

  /** After SetupRedirect the first hop from the worktree, at any depth, lands where the case analysis chose exactly when
      the text leads there. */
  lemma FirstHopLands(disk: Disk, townRoot: Path, worktree: Path)
    requires |Rel(townRoot, worktree)| >= 2 && (forall c <- townRoot + worktree :: PlainName(c))
    requires !Choose(disk, Enter(townRoot, Rel(townRoot, worktree)[0])).Nowhere?
    ensures var parts := Rel(townRoot, worktree);
      var rigRoot := Enter(townRoot, parts[0]);
      var choice := Choose(disk, rigRoot);
      var files := AfterSetup(disk.redirects, worktree, TargetText(choice, |parts| - 1));
      var goal := Destination(choice, rigRoot);
      Hop(files, worktree + [BEADS]) == (if goal == worktree + [BEADS] then None else Some(goal))
      <==> RightPlace(choice, rigRoot, Ups(townRoot, worktree))
  {
    var parts := Rel(townRoot, worktree);
    var rigRoot, depth := Enter(townRoot, parts[0]), |parts| - 1;
    var choice := Choose(disk, rigRoot);
    assert Dir(worktree + [BEADS]) == worktree;
    assert ChoiceText(choice) != "" && Trimmed(ChoiceText(choice)) by { ChosenTextTrimmed(disk, rigRoot); }
    WrittenTextReadsBack(depth, ChoiceText(choice));
    TargetTextLands(townRoot, worktree, choice);
    hide Rel, Ups, Resolve, Enter, Trim, Choose, RightPlace, Destination, UpPath, ChoiceText;
  }

  // ---------- Which place it is, by what the disk holds ----------

  /** The rig's own beads directory is there and holds a database or a redirect. */
  predicate RigHoldsBeads(disk: Disk, rigRoot: Path) {
    && disk.stat(rigRoot + [".beads"]) == Present
    && (disk.stat(rigRoot + [".beads", "dolt"]) == Present || disk.stat(rigRoot + [".beads", "redirect"]) == Present)
  }

  predicate MayorMayHoldBeads(disk: Disk, rigRoot: Path) {
    disk.stat(rigRoot + ["mayor", "rig", ".beads"]) != Absent
  }

  predicate RigRedirects(disk: Disk, rigRoot: Path) {
    rigRoot + [".beads"] in disk.redirects && Trim(disk.redirects[rigRoot + [".beads"]]) != ""
  }

  /** The mayor's clone serves when the rig's own directory holds nothing usable and the clone's may. */
  predicate MayorServes(disk: Disk, rigRoot: Path) {
    !RigHoldsBeads(disk, rigRoot) && MayorMayHoldBeads(disk, rigRoot)
  }

  lemma PlacesOf(disk: Disk, rigRoot: Path)
    ensures var choice := Choose(disk, rigRoot);
      && (choice.MayorBeads? <==> MayorServes(disk, rigRoot))
      && (choice.Nowhere? <==> disk.stat(rigRoot + [".beads"]) != Present && !MayorMayHoldBeads(disk, rigRoot))
      && (choice.RigRedirect? ==> RigRedirects(disk, rigRoot) && choice.text == Trim(disk.redirects[rigRoot + [".beads"]]))
      && (choice.RigBeads? ==> !RigRedirects(disk, rigRoot))
  {
    hide Trim;
    assert rigRoot + [BEADS] + ["dolt"] == rigRoot + [".beads", "dolt"];
    assert rigRoot + [BEADS] + ["redirect"] == rigRoot + [".beads", "redirect"];
  }

  /** A redirect is refused exactly in three cases: less than two levels below the town, "mayor" as one of the first two
      components, and neither a beads directory of the rig nor, possibly, one of the mayor's clone. */
  lemma WorktreeRefused(disk: Disk, townRoot: Path, worktree: Path)
    ensures var target, parts := ComputedTarget(disk, townRoot, worktree), Rel(townRoot, worktree);
      && (target == Failure(TooShallow) <==> |parts| < 2)
      && (target == Failure(CanonicalLocation) <==> |parts| >= 2 && (parts[0] == "mayor" || parts[1] == "mayor"))
      && (target == Failure(NoBeads) <==>
            && |parts| >= 2 && parts[0] != "mayor" && parts[1] != "mayor"
            && var rigRoot := Enter(townRoot, parts[0]);
               disk.stat(rigRoot + [".beads"]) != Present && disk.stat(rigRoot + ["mayor", "rig", ".beads"]) == Absent)
      && (target.Failure? ==> target.error == TooShallow || target.error == CanonicalLocation || target.error == NoBeads)
  {
    var parts := Rel(townRoot, worktree);
    if |parts| >= 2 { PlacesOf(disk, Enter(townRoot, parts[0])); }
    hide Rel, Enter, Choose, TargetText, Trim;
  }

  /** Every other worktree is sent to the mayor's clone when that serves, else along the rig's redirect if there is one,
      else to the rig's own beads directory, which is then there -- and arrives exactly when it lies at most one level
      outside the town or the redirect it is sent along climbs to the root. */
  lemma WorktreeLands(disk: Disk, townRoot: Path, worktree: Path)
    requires (forall c <- townRoot + worktree :: PlainName(c)) && ComputedTarget(disk, townRoot, worktree).Success?
    ensures var parts := Rel(townRoot, worktree);
      && |parts| >= 2 && parts[0] != "mayor" && parts[1] != "mayor"
      && var rigRoot, text := Enter(townRoot, parts[0]), ComputedTarget(disk, townRoot, worktree).path;
         if MayorServes(disk, rigRoot) then
           Resolve(worktree, text) == rigRoot + ["mayor", "rig", ".beads"] <==> Ups(townRoot, worktree) <= 1
         else
           && disk.stat(rigRoot + [".beads"]) == Present && (RigHoldsBeads(disk, rigRoot) || !MayorMayHoldBeads(disk, rigRoot))
           && if RigRedirects(disk, rigRoot) then
                var redirect := Trim(disk.redirects[rigRoot + [".beads"]]);
                Resolve(worktree, text) == Resolve(rigRoot, redirect)
                <==> Ups(townRoot, worktree) <= 1 || Climb(Split(redirect, '/')) >= |rigRoot|
              else Resolve(worktree, text) == rigRoot + [".beads"] <==> Ups(townRoot, worktree) <= 1
  {
    var parts := Rel(townRoot, worktree);
    var rigRoot := Enter(townRoot, parts[0]);
    PlacesOf(disk, rigRoot);
    TargetTextLands(townRoot, worktree, Choose(disk, rigRoot));
    hide Rel, Enter, Choose, TargetText, Trim, Resolve, Ups, Climb, Split, PlainName;
  }

  /** So with a town that the worktree lies inside, a rig directory without database and redirect gives way to the mayor's
      clone: for any names the text is "../../mayor/rig/.beads". */
  lemma EmptyRigGivesWay(disk: Disk, town: string, rig: string, worktree: string, kind: string)
    requires PlainName(town) && PlainName(rig) && PlainName(kind) && PlainName(worktree) && rig != "mayor" && kind != "mayor"
    requires !RigHoldsBeads(disk, [town, rig]) && MayorMayHoldBeads(disk, [town, rig])
    ensures ComputedTarget(disk, [town], [town, rig, kind, worktree]) == Success("../" + "../" + "mayor/rig/.beads")
  {
    assert Rel([town], [town, rig, kind, worktree]) == [rig, kind, worktree] by {
      assert [town, rig, kind, worktree][1..] == [rig, kind, worktree] && [town][1..] == [];
      assert Rel([], [rig, kind, worktree]) == [rig, kind, worktree] by { assert Repeat("..", 0) == []; }
    }
    assert Enter([town], rig) == [town, rig];
    PlacesOf(disk, [town, rig]);
    hide Choose;
    assert UpPath(2) == "../" + "../" by { assert UpPath(1) == "../"; }
  }

  /** A worktree beside a town that is two levels down, for any names: it is sent to the root of the disk instead of
      to the directory above the town. */
  lemma FarWorktreeMissesRig(above: string, town: string, worktree: string)
    requires PlainName(above) && PlainName(town) && PlainName(worktree) && worktree != above
    ensures var townRoot, own := [above, town], [worktree, BEADS];
      var disk := Disk((_: Path) => Present, map[]);
      && ComputedTarget(disk, townRoot, [worktree]) == Success(TargetText(RigBeads, 2))
      && Destination(RigBeads, Enter(townRoot, "..")) == [above, BEADS]
      && Hop(AfterSetup(map[], [worktree], TargetText(RigBeads, 2)), own) == Some([BEADS])
  {
    var townRoot, disk := [above, town], Disk((_: Path) => Present, map[]);
    assert Rel(townRoot, [worktree]) == ["..", "..", worktree];
    assert Enter(townRoot, "..") == [above] && Dir([worktree, BEADS]) == [worktree];
    assert Choose(disk, [above]) == RigBeads;
    WalkUp([worktree], 2);
    hide Walk, Split;
    FirstBeads(worktree);
  }

  lemma FirstBeads(worktree: string)
    requires Walk([worktree], Repeat("..", 2)) == []
    ensures Hop(AfterSetup(map[], [worktree], TargetText(RigBeads, 2)), [worktree, BEADS]) == Some([BEADS])
  {
    hide Trim, UpPath, Walk, Split;
    assert Dir([worktree, BEADS]) == [worktree] && [worktree] + [BEADS] == [worktree, BEADS];
    assert Trimmed(BEADS) by { ChosenTextTrimmed(Disk((_: Path) => Present, map[]), []); }
    WrittenTextReadsBack(2, BEADS);
    WrittenRedirectLands([worktree], [], 2, BEADS);
    PlainTexts([]);
    assert TargetText(RigBeads, 2) == UpPath(2) + BEADS && |BEADS| > 0;
    assert [] + [BEADS] == [BEADS] && [BEADS] != [worktree, BEADS];
    hide Resolve;
  }

  lemma ChosenTextTrimmed(disk: Disk, rigRoot: Path)
    ensures var choice := Choose(disk, rigRoot); choice.RigRedirect? ==> Trimmed(choice.text) && choice.text != ""
    ensures Trimmed(BEADS) && Trimmed(MAYOR_TEXT)
  {
    var rigBeads := rigRoot + [BEADS];
    if rigBeads in disk.redirects { TrimIsTrimmed(disk.redirects[rigBeads]); }
  }

  /** A chain that stays clear of one directory does not notice a change of that directory's redirect. */
  lemma {:induction false} ChainElsewhere(files: Redirects, other: Redirects, own: Path, dir: Path, n: nat, end: Path)
    requires forall d | d != own :: Hop(other, d) == Hop(files, d)
    requires EndsAfter(files, dir, n, end) && forall k: nat | k <= n :: !Reaches(files, dir, k, own)
    ensures EndsAfter(other, dir, n, end)
    decreases n
  {
    assert !Reaches(files, dir, 0, own);
    if n > 0 {
      var next := Hop(files, dir).value;
      forall k: nat | k <= n - 1 ensures !Reaches(files, next, k, own) { assert !Reaches(files, dir, k + 1, own); }
      ChainElsewhere(files, other, own, next, n - 1, end);
    }
  }

  lemma {:induction false} ReachesSnoc(files: Redirects, dir: Path, k: nat, at: Path)
    requires Reaches(files, dir, k, at) && Hop(files, at).Some?
    ensures Reaches(files, dir, k + 1, Hop(files, at).value)
    decreases k
  {
    if k > 0 { ReachesSnoc(files, Hop(files, dir).value, k - 1, at); }
  }

  /** Two directories with the same first hop: pointing one at the other instead makes its chain one hop longer. */
  lemma DetourIsOneLonger(files: Redirects, detour: Redirects, own: Path, rig: Path, n: nat, end: Path)
    requires own != rig && Hop(files, own).Some? && Hop(files, own) == Hop(files, rig)
    requires Hop(detour, own) == Some(rig) && forall d | d != own :: Hop(detour, d) == Hop(files, d)
    requires EndsAfter(files, rig, n, end)
    ensures EndsAfter(files, own, n, end) && EndsAfter(detour, own, n + 1, end)
  {
    hide Hop;
    var next := Hop(files, own).value;
    forall k: nat | k <= n ensures !Reaches(files, rig, k, own) {
      if Reaches(files, rig, k, own) {
        // from the common next directory the chain would come round to itself
        ReachesSnoc(files, rig, k, own);
        CirclesNeverEnd(files, next, k, n - 1, end);
      }
    }
    ChainElsewhere(files, detour, own, rig, n, end);
  }

  /** The redirects after the worktree is set up as the case analysis chooses, or pointed at the rig's own beads
      directory instead. */
  function Chosen(disk: Disk, townRoot: Path, worktree: Path): Redirects
    requires |Rel(townRoot, worktree)| >= 2
  {
    var parts := Rel(townRoot, worktree);
    AfterSetup(disk.redirects, worktree, TargetText(Choose(disk, Enter(townRoot, parts[0])), |parts| - 1))
  }

  function Detour(disk: Disk, townRoot: Path, worktree: Path): Redirects
    requires |Rel(townRoot, worktree)| >= 2
  {
    AfterSetup(disk.redirects, worktree, TargetText(RigBeads, |Rel(townRoot, worktree)| - 1))
  }

  /** A worktree at most one level outside the town, of a rig that has a redirect. */
  ghost predicate RedirectedRig(disk: Disk, townRoot: Path, worktree: Path) {
    && |Rel(townRoot, worktree)| >= 2 && (forall c <- townRoot + worktree :: PlainName(c)) && Ups(townRoot, worktree) <= 1
    && Choose(disk, Enter(townRoot, Rel(townRoot, worktree)[0])).RigRedirect?
  }

  /** Where the rig's redirect leads. */
  function RigGoal(disk: Disk, rigRoot: Path): Path
    requires Choose(disk, rigRoot).RigRedirect?
  {
    Resolve(rigRoot, Choose(disk, rigRoot).text)
  }

  /** A worktree lies below its rig. */
  lemma WorktreeBelowRig(townRoot: Path, worktree: Path)
    requires |Rel(townRoot, worktree)| >= 2 && (forall c <- townRoot + worktree :: PlainName(c)) && Ups(townRoot, worktree) <= 1
    ensures worktree != Enter(townRoot, Rel(townRoot, worktree)[0])
  {
    var n := |Rel(townRoot, worktree)| - 1;
    UpwardsIsRigRoot(townRoot, worktree);
    WalkUp(worktree, n);
    RelShape(townRoot, worktree);
    assert worktree != [] ==> |Walk(worktree, Repeat("..", n))| < |worktree|;
  }

  /** The rig's own hop follows its redirect, unless that leads back to it. */
  lemma RigHop(disk: Disk, rigRoot: Path, files: Redirects)
    requires Choose(disk, rigRoot).RigRedirect? && rigRoot + [BEADS] in files
    requires files[rigRoot + [BEADS]] == disk.redirects[rigRoot + [BEADS]]
    ensures var goal := RigGoal(disk, rigRoot);
      Hop(files, rigRoot + [BEADS]) == if goal == rigRoot + [BEADS] then None else Some(goal)
  {
    hide Resolve, Trim;
    assert Dir(rigRoot + [BEADS]) == rigRoot;
  }

  /** The hops from the worktree and from the rig: both follow the rig's redirect, unless it leads back to them. */
  lemma RedirectedHops(disk: Disk, townRoot: Path, worktree: Path)
    requires RedirectedRig(disk, townRoot, worktree)
    ensures var rigRoot := Enter(townRoot, Rel(townRoot, worktree)[0]);
      var goal, own, rigBeads := RigGoal(disk, rigRoot), worktree + [BEADS], rigRoot + [BEADS];
      && own != rigBeads
      && Hop(Chosen(disk, townRoot, worktree), own) == (if goal == own then None else Some(goal))
      && Hop(Chosen(disk, townRoot, worktree), rigBeads) == (if goal == rigBeads then None else Some(goal))
      && Hop(Detour(disk, townRoot, worktree), own) == Some(rigBeads)
  {
    var rigRoot, depth := Enter(townRoot, Rel(townRoot, worktree)[0]), |Rel(townRoot, worktree)| - 1;
    WorktreeBelowRig(townRoot, worktree);
    assert worktree + [BEADS] != rigRoot + [BEADS] by {
      assert (worktree + [BEADS])[..|worktree|] == worktree && (rigRoot + [BEADS])[..|rigRoot|] == rigRoot;
    }
    FirstHopLands(disk, townRoot, worktree);
    UpwardsIsRigRoot(townRoot, worktree);
    DetourHop(disk.redirects, worktree, rigRoot, depth);
    hide Hop, Rel, Ups, Resolve, Enter, Trim, TargetText, Walk;
    RigHop(disk, rigRoot, Chosen(disk, townRoot, worktree));
  }

  /** In the redirect case the worktree skips the rig's own beads directory: its chain has the same end as the chain
      through the rig and is one hop shorter -- exactly when the rig's redirect leads neither to the rig's own beads
      directory nor to this worktree's. */
  lemma ChainIsOneShorter(disk: Disk, townRoot: Path, worktree: Path, n: nat, end: Path)
    requires RedirectedRig(disk, townRoot, worktree)
    requires EndsAfter(Chosen(disk, townRoot, worktree), Enter(townRoot, Rel(townRoot, worktree)[0]) + [BEADS], n, end)
    ensures var rigRoot := Enter(townRoot, Rel(townRoot, worktree)[0]);
      var own := worktree + [BEADS];
      (EndsAfter(Chosen(disk, townRoot, worktree), own, n, end) && EndsAfter(Detour(disk, townRoot, worktree), own, n + 1, end))
      <==> RigGoal(disk, rigRoot) != rigRoot + [BEADS] && RigGoal(disk, rigRoot) != own
  {
    var rigRoot := Enter(townRoot, Rel(townRoot, worktree)[0]);
    var own, rigBeads, goal := worktree + [BEADS], rigRoot + [BEADS], RigGoal(disk, rigRoot);
    var files, detour := Chosen(disk, townRoot, worktree), Detour(disk, townRoot, worktree);
    RedirectedHops(disk, townRoot, worktree);
    hide Hop, Chosen, Detour, RigGoal, RedirectedRig;
    if goal != rigBeads && goal != own {
      assert forall d | d != own :: Hop(detour, d) == Hop(files, d) by { SameElsewhere(disk, townRoot, worktree); }
      DetourIsOneLonger(files, detour, own, rigBeads, n, end);
    } else if goal == own {
      assert EndsAfter(files, own, 0, own);
      if EndsAfter(files, own, n, end) { EndsOnce(files, own, 0, own, n, end); }
    }
  }

  lemma SameElsewhere(disk: Disk, townRoot: Path, worktree: Path)
    requires |Rel(townRoot, worktree)| >= 2
    ensures forall d | d != worktree + [BEADS] :: Hop(Detour(disk, townRoot, worktree), d) == Hop(Chosen(disk, townRoot, worktree), d)
  {
    hide Resolve, Choose, TargetText;
  }

  // The two ways it fails, for every such town.

  /** A rig whose redirect says ".beads" leads to itself.  The worktree is sent to the rig all the same: one hop, as many
      as through the rig. */
  lemma RigRedirectsToItself(disk: Disk, townRoot: Path, worktree: Path)
    requires RedirectedRig(disk, townRoot, worktree)
    requires Choose(disk, Enter(townRoot, Rel(townRoot, worktree)[0])).text == BEADS
    ensures var own, rigBeads := worktree + [BEADS], Enter(townRoot, Rel(townRoot, worktree)[0]) + [BEADS];
      && EndsAfter(Chosen(disk, townRoot, worktree), own, 1, rigBeads)
      && EndsAfter(Detour(disk, townRoot, worktree), own, 1, rigBeads)
  {
    var rigRoot := Enter(townRoot, Rel(townRoot, worktree)[0]);
    var own, rigBeads := worktree + [BEADS], rigRoot + [BEADS];
    var files, detour := Chosen(disk, townRoot, worktree), Detour(disk, townRoot, worktree);
    RedirectedHops(disk, townRoot, worktree);
    PlainTexts(rigRoot);
    SameElsewhere(disk, townRoot, worktree);
    hide Hop;
    assert EndsAfter(files, rigBeads, 0, rigBeads) && EndsAfter(detour, rigBeads, 0, rigBeads);
  }

  /** A rig whose redirect leads to this worktree: the worktree is told to redirect to itself and keeps its own beads,
      while through the rig it would run in a circle. */
  lemma RigRedirectsToWorktree(disk: Disk, townRoot: Path, worktree: Path, n: nat, end: Path)
    requires RedirectedRig(disk, townRoot, worktree)
    requires RigGoal(disk, Enter(townRoot, Rel(townRoot, worktree)[0])) == worktree + [BEADS]
    ensures var own := worktree + [BEADS];
      EndsAfter(Chosen(disk, townRoot, worktree), own, 0, own) && !EndsAfter(Detour(disk, townRoot, worktree), own, n, end)
  {
    var rigBeads, own := Enter(townRoot, Rel(townRoot, worktree)[0]) + [BEADS], worktree + [BEADS];
    var detour := Detour(disk, townRoot, worktree);
    RedirectedHops(disk, townRoot, worktree);
    SameElsewhere(disk, townRoot, worktree);
    hide Hop;
    assert Reaches(detour, rigBeads, 1, own) by { assert Reaches(detour, own, 0, own); }
    CirclesNeverEnd(detour, own, 2, n, end);
  }

  /** A disk on which every path exists and one rig has a redirect. */
  function OneRedirect(rigRoot: Path, text: string): Disk {
    Disk((_: Path) => Present, map[rigRoot + [BEADS] := text])
  }

  /** Such towns, for any names: the redirect ".beads" of a rig, and the one that names a worktree of it. */
  lemma ErrantRedirects(town: string, rig: string, worktree: string)
    requires PlainName(town) && PlainName(rig) && PlainName(worktree) && '/' !in worktree && !IsSpace(worktree[0])
    ensures var rigRoot, own := [town, rig], [town, rig, worktree];
      && RedirectedRig(OneRedirect(rigRoot, BEADS), [town], own) && Rel([town], own) == [rig, worktree]
      && Choose(OneRedirect(rigRoot, BEADS), rigRoot) == RigRedirect(BEADS)
      && RedirectedRig(OneRedirect(rigRoot, worktree + "/" + BEADS), [town], own)
      && RigGoal(OneRedirect(rigRoot, worktree + "/" + BEADS), rigRoot) == own + [BEADS]
  {
    hide Choose, Split, Walk, Trim;
    var rigRoot, own, text := [town, rig], [town, rig, worktree], worktree + "/" + BEADS;
    RelOfTwo(town, rig, worktree);
    BackIntoWorktree(worktree);
    ChosenText(rigRoot, BEADS);
    ChosenText(rigRoot, text);
    WalkPlain(rigRoot, [worktree, BEADS]);
    assert rigRoot + [worktree, BEADS] == own + [BEADS];
  }

  lemma BackIntoWorktree(worktree: string)
    requires PlainName(worktree) && '/' !in worktree && !IsSpace(worktree[0])
    ensures var text := worktree + "/" + BEADS; text != "" && Trimmed(text) && Split(text, '/') == [worktree, BEADS]
  {
    var text := worktree + "/" + BEADS;
    assert text[|text| - 1] == 's' && text[0] == worktree[0];
    SplitAppend(worktree, BEADS, '/');
    SplitWhole(worktree, '/');
    SplitWhole(BEADS, '/');
    hide Split;
    assert text == worktree + ['/'] + BEADS;
  }

  lemma ChosenText(rigRoot: Path, text: string)
    requires Trimmed(text) && text != ""
    ensures Choose(OneRedirect(rigRoot, text), rigRoot) == RigRedirect(text)
  {
    TrimFixed(text);
    hide Trim;
  }

  lemma RelOfTwo(town: string, rig: string, worktree: string)
    requires PlainName(rig)
    ensures Rel([town], [town, rig, worktree]) == [rig, worktree] && Ups([town], [town, rig, worktree]) == 0
    ensures Enter([town], rig) == [town, rig]
  {
    assert [town, rig, worktree][1..] == [rig, worktree] && [town][1..] == [];
    assert Rel([], [rig, worktree]) == [rig, worktree] by { assert Repeat("..", 0) == []; }
    assert Ups([], [rig, worktree]) == 0;
  }

  lemma DetourHop(redirects: Redirects, worktree: Path, rigRoot: Path, depth: nat)
    requires depth >= 1 && Walk(worktree, Repeat("..", depth)) == rigRoot && worktree != rigRoot
    ensures Hop(AfterSetup(redirects, worktree, TargetText(RigBeads, depth)), worktree + [BEADS]) == Some(rigRoot + [BEADS])
  {
    assert Dir(worktree + [BEADS]) == worktree;
    assert (worktree + [BEADS])[..|worktree|] == worktree && (rigRoot + [BEADS])[..|rigRoot|] == rigRoot;
    WrittenTextReadsBack(depth, BEADS);
    WrittenRedirectLands(worktree, rigRoot, depth, BEADS);
    PlainTexts(rigRoot);
  }
}
