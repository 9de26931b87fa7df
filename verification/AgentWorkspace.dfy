/** The operations of `AgentWorkspace` over the registry. Each one is shown to be a step
    of the registry, so what holds of every run holds of them in any order. */
module AgentWorkspace {
  import opened Wrappers
  import opened Sets
  import opened Text
  import opened ClaimPaths
  import opened ClaimRegistry

  datatype Listed = Listed(task: string, claim: Claim)

  /** What git and the disk answer during one operation. A path is occupied when anything
      is there, a directory or not. `changed` are the files a claim changed since its
      base, `None` when they cannot be compared. */
  datatype Git = Git(
    protectedClean: bool,
    terminalClean: bool,
    reservingValid: bool,
    branchExists: bool,
    sameClone: bool,
    published: bool,
    evidence: bool,
    contained: bool,
    baseSha: Option<string>,
    worktreeAdded: bool,
    worktreeRemoved: bool,
    occupied: string -> bool,
    isDirectory: string -> bool,
    branchAt: string -> string,
    dirty: string -> bool,
    headOf: string -> string,
    changed: string -> Option<set<string>>)

  /** How the write of a new file ends: `Cut` leaves a file that does not read back, and
      a complete file may still be reported as a failure. */
  datatype Disk = Refuses | CutShort | Writes(reported: bool)

  // -------------------------------------------------------------------------
  // Values
  // -------------------------------------------------------------------------

  predicate LowerOrDigit(c: char) {
    'a' <= c <= 'z' || '0' <= c <= '9'
  }

  predicate ValidTaskId(task: string) {
    && 2 <= |task| <= 63 && LowerOrDigit(task[0])
    && forall i :: 1 <= i < |task| ==> LowerOrDigit(task[i]) || task[i] == '-'
  }

  lemma TaskIdMeans(task: string)
    ensures ValidTaskId(task)
            <==> 2 <= |task| <= 63 && task[0] != '-' && forall c :: c in task ==> 'a' <= c <= 'z' || '0' <= c <= '9' || c == '-'
  {
    assert forall i :: 0 <= i < |task| ==> task[i] in task;
  }

  predicate AllPaths(paths: seq<string>) {
    forall i :: 0 <= i < |paths| ==> Normalize(paths[i]).Some?
  }

  function Scopes(paths: seq<string>): set<string>
    requires AllPaths(paths)
  {
    set i | 0 <= i < |paths| :: Normalize(paths[i]).value
  }

  function Resources(resources: seq<string>): set<string> {
    set r | r in resources && Strip(r) != "" :: Strip(r)
  }

  /** The stored scopes cover the files at or below the paths as they were given. */
  lemma ScopesCoverWhatWasAsked(paths: seq<string>, file: string)
    requires AllPaths(paths)
    ensures (exists p :: p in Scopes(paths) && AtOrBelow(file, p))
            <==> exists i :: 0 <= i < |paths| && Parts(Slashes(Strip(paths[i]))) <= Parts(file)
  {
    forall i | 0 <= i < |paths|
      ensures Normalize(paths[i]).value in Scopes(paths)
      ensures AtOrBelow(file, Normalize(paths[i]).value) <==> Parts(Slashes(Strip(paths[i]))) <= Parts(file)
    {
      NormalizeKeepsTheScope(paths[i]);
    }
  }

  /** The claim covers every file at or below a path that was asked for or that `before`
      covered, and no other file. */
  ghost predicate CoversExactly(claim: Claim, paths: seq<string>, before: set<string>) {
    forall file :: CoversFile(claim, file) <==>
      || (exists i :: 0 <= i < |paths| && Parts(Slashes(Strip(paths[i]))) <= Parts(file))
      || (exists p :: p in before && Parts(p) <= Parts(file))
  }

  lemma ClaimCoversExactly(claim: Claim, paths: seq<string>, before: set<string>)
    requires AllPaths(paths) && claim.paths == before + Scopes(paths)
    ensures CoversExactly(claim, paths, before)
  {
    forall file
      ensures CoversFile(claim, file) <==>
                || (exists i :: 0 <= i < |paths| && Parts(Slashes(Strip(paths[i]))) <= Parts(file))
                || (exists p :: p in before && Parts(p) <= Parts(file))
    {
      ScopesCoverWhatWasAsked(paths, file);
      if p :| p in before && Parts(p) <= Parts(file) {
        assert p in claim.paths && AtOrBelow(file, p);
      }
      if CoversFile(claim, file) {
        var p :| p in claim.paths && AtOrBelow(file, p);
      }
      if p :| p in Scopes(paths) && AtOrBelow(file, p) {
        assert p in claim.paths;
      }
    }
  }

  /** The nested loops over the scopes of two claims. */
  method ScopesClash(a: set<string>, b: set<string>) returns (clash: bool)
    ensures clash <==> exists p, q :: p in a && q in b && Overlap(p, q)
  {
    var ps := Elements(a);
    var qs := Elements(b);
    for i := 0 to |ps|
      invariant forall k, q :: 0 <= k < i && q in b ==> !Overlap(ps[k], q)
    {
      for j := 0 to |qs|
        invariant forall k :: 0 <= k < j ==> !Overlap(ps[i], qs[k])
      {
        if Overlap(ps[i], qs[j]) {
          assert ps[i] in a && qs[j] in b;
          return true;
        }
      }
      assert forall q :: q in b ==> q in qs;
    }
    assert forall p :: p in a ==> p in ps;
    return false;
  }

  /** The new claim an operation asks for, if its arguments are in order. */
  function Requested(title: string, owner: string, branch: string, worktree: string, baseRef: string, baseSha: string,
                     paths: seq<string>, resources: seq<string>, state: State): Claim
    requires AllPaths(paths)
  {
    Claim(Strip(title), Strip(owner), branch, worktree, baseRef, baseSha, Scopes(paths), Resources(resources), state, None, false)
  }

  predicate ArgumentsInOrder(title: string, owner: string, paths: seq<string>, resources: seq<string>) {
    && AllPaths(paths)
    && (Scopes(paths) != {} || Resources(resources) != {})
    && Strip(title) != "" && Strip(owner) != ""
  }

  /** The listed claim is no obstacle to `claim`. */
  predicate NoObstacle(l: Listed, claim: Claim, ignore: Option<string>) {
    l.claim.state in RESERVING && Some(l.task) != ignore ==> Compatible(claim, l.claim)
  }

  // -------------------------------------------------------------------------
  // Conditions of the operations
  // -------------------------------------------------------------------------

  ghost predicate MayStart(
      entries: Entries, task: string, title: string, owner: string, branch: string, worktree: string,
      baseRef: string, paths: seq<string>, resources: seq<string>, git: Git)
  {
    && ValidTaskId(task) && ArgumentsInOrder(title, owner, paths, resources) && branch !in PROTECTED_BRANCHES
    && git.protectedClean && Readable(entries) && git.terminalClean && git.reservingValid
    && task !in entries && !git.occupied(worktree) && !git.branchExists
    && git.baseSha.Some? && git.worktreeAdded
    && Free(entries, task, Requested(title, owner, branch, worktree, baseRef, git.baseSha.value, paths, resources, Claimed))
  }

  ghost predicate MayAdopt(
      entries: Entries, task: string, title: string, owner: string, worktree: string,
      baseRef: string, paths: seq<string>, resources: seq<string>, state: State, git: Git)
  {
    && state in {Claimed, Implementing, Paused}
    && ValidTaskId(task) && ArgumentsInOrder(title, owner, paths, resources)
    && git.sameClone && git.branchAt(worktree) != "" && git.baseSha.Some?
    && Readable(entries) && task !in entries
    && Free(entries, task,
            Requested(title, owner, git.branchAt(worktree), worktree, baseRef, git.baseSha.value, paths, resources, state))
  }

  /** The claim after a transition. */
  function Moved(claim: Claim, state: State, git: Git): Claim {
    claim.(state := state,
           reviewSha := match state
                        case Review => Some(git.headOf(claim.worktree))
                        case Implementing => None
                        case _ => claim.reviewSha)
  }

  /** What git must show for a state to be entered. */
  ghost predicate GitAllows(entries: Entries, claim: Claim, state: State, git: Git) {
    match state
    case Review =>
      && (exists task :: PreflightPasses(entries, task, claim.worktree, git))
      && !git.dirty(claim.worktree) && git.evidence && git.published
    case Merged =>
      && !git.dirty(claim.worktree) && git.contained
      && claim.reviewSha == Some(git.headOf(claim.worktree))
    case Abandoned => !(git.isDirectory(claim.worktree) && git.dirty(claim.worktree))
    case _ => true
  }

  ghost predicate MayMove(entries: Entries, task: string, state: State, git: Git) {
    && Readable(entries) && task in entries
    && var claim := entries[task].claim;
       && state in AllowedTransitions(claim.state)
       && (state in ACTIVE ==> Free(entries, task, claim))
       && GitAllows(entries, claim, state, git)
  }

  function Extended(claim: Claim, paths: seq<string>, resources: seq<string>): Claim
    requires AllPaths(paths)
  {
    claim.(paths := claim.paths + Scopes(paths), resources := claim.resources + Resources(resources))
  }

  ghost predicate MayExtend(entries: Entries, task: string, paths: seq<string>, resources: seq<string>) {
    && AllPaths(paths) && (Scopes(paths) != {} || Resources(resources) != {})
    && Readable(entries) && task in entries
    && entries[task].claim.state in {Claimed, Implementing, Paused}
    && Free(entries, task, Extended(entries[task].claim, paths, resources))
  }

  predicate MayCleanUp(entries: Entries, task: string, git: Git) {
    && Readable(entries) && task in entries
    && var claim := entries[task].claim;
       && claim.state in TERMINAL && git.isDirectory(claim.worktree) && git.sameClone
       && git.branchAt(claim.worktree) == claim.branch && !git.dirty(claim.worktree) && git.worktreeRemoved
  }

  // -------------------------------------------------------------------------
  // Preflight
  // -------------------------------------------------------------------------

  const MIGRATIONS := "supabase/migrations/"

  predicate Digit(c: char) {
    '0' <= c <= '9'
  }

  function Digits(s: string): string {
    if s != "" && Digit(s[0]) then [s[0]] + Digits(s[1..]) else ""
  }

  /** The version in the name of a migration file. */
  function Version(path: string): Option<string> {
    if MIGRATIONS <= path then
      var name := path[|MIGRATIONS|..];
      var version := Digits(name);
      DigitsFit(name);
      var rest := name[|version|..];
      if version != "" && |rest| >= 5 && rest[0] == '_' && rest[|rest| - 4..] == ".sql" && '\n' !in rest then Some(version)
      else None
    else None
  }

  lemma {:induction false} DigitsFit(s: string)
    ensures Digits(s) <= s
  {
    if s != "" && Digit(s[0]) {
      DigitsFit(s[1..]);
    }
  }

  /** `supabase/migrations/<version>_<name>.sql`, the version a number and the name of one line. */
  predicate IsMigration(path: string, version: string, name: string) {
    && version != "" && (forall i :: 0 <= i < |version| ==> '0' <= version[i] <= '9') && '\n' !in name
    && path == "supabase/migrations/" + (version + ("_" + name + ".sql"))
  }

  /** A path has the version that its name is written with, and no other has one. */
  lemma VersionMeans(path: string, version: string)
    ensures Version(path) == Some(version) <==> exists name :: IsMigration(path, version, name)
  {
    if Version(path) == Some(version) {
      var name := NameOf(path, version);
    }
    if name :| IsMigration(path, version, name) {
      VersionOf(path, version, name);
    }
  }

  lemma NameOf(path: string, version: string) returns (name: string)
    requires Version(path) == Some(version)
    ensures IsMigration(path, version, name)
  {
    var file := path[|MIGRATIONS|..];
    DigitsFit(file);
    DigitsAreDigits(file);
    var rest := file[|version|..];
    name := rest[1..|rest| - 4];
    assert rest == "_" + name + ".sql";
    assert forall i :: 0 <= i < |name| ==> name[i] == rest[i + 1];
  }

  lemma VersionOf(path: string, version: string, name: string)
    requires IsMigration(path, version, name)
    ensures Version(path) == Some(version)
  {
    var rest := "_" + name + ".sql";
    assert path[|MIGRATIONS|..] == version + rest;
    DigitsOfBoth(version, rest);
    DigitsFit(version + rest);
    assert (version + rest)[|version|..] == rest;
    assert rest[|rest| - 4..] == ".sql";
  }

  lemma {:induction false} DigitsAreDigits(s: string)
    ensures forall i :: 0 <= i < |Digits(s)| ==> '0' <= Digits(s)[i] <= '9'
  {
    if s != "" && Digit(s[0]) {
      DigitsAreDigits(s[1..]);
    }
  }

  lemma {:induction false} DigitsOfBoth(version: string, rest: string)
    requires (forall i :: 0 <= i < |version| ==> '0' <= version[i] <= '9') && rest != "" && rest[0] == '_'
    ensures Digits(version + rest) == version
  {
    if version == "" {
      assert version + rest == rest;
    } else {
      assert (version + rest)[1..] == version[1..] + rest;
      DigitsOfBoth(version[1..], rest);
    }
  }

  predicate Active(entries: Entries, task: string) {
    task in entries && entries[task].Stored? && entries[task].claim.state in ACTIVE
  }

  /** Two sets of changed files touch the same file or the same migration version. */
  predicate ChangesClash(a: set<string>, b: set<string>) {
    || (exists p :: p in a && p in b)
    || (exists p, q :: p in a && q in b && Version(p).Some? && Version(p) == Version(q))
  }

  ghost predicate ChangesApart(entries: Entries, git: Git) {
    && (forall s :: Active(entries, s) ==> git.changed(s).Some?)
    && forall s, t :: Active(entries, s) && Active(entries, t) && s != t ==>
         !ChangesClash(git.changed(s).value, git.changed(t).value)
  }

  ghost predicate ChangesInScope(claim: Claim, changed: set<string>) {
    claim.paths != {} ==> forall file :: file in changed ==> exists p :: p in claim.paths && Overlap(file, p)
  }

  /** The worktree holds the branch of this active claim, and the changes are where they may be. */
  ghost predicate PreflightPasses(entries: Entries, task: string, worktree: string, git: Git) {
    && Readable(entries)
    && git.branchAt(worktree) !in PROTECTED_BRANCHES
    && Active(entries, task) && entries[task].claim.worktree == worktree
    && entries[task].claim.branch == git.branchAt(worktree)
    && git.protectedClean && git.reservingValid
    && ChangesApart(entries, git)
    && ChangesInScope(entries[task].claim, git.changed(task).value)
  }

  /** The scope check looks for overlap, so besides the files at or below a scope it
      lets through a changed path above one. */
  lemma InScopeMeans(claim: Claim, changed: set<string>)
    requires claim.paths != {}
    ensures ChangesInScope(claim, changed) <==>
              forall file :: file in changed ==>
                CoversFile(claim, file) || exists p :: p in claim.paths && AtOrBelow(p, file)
  {
    forall file, p | file in changed && p in claim.paths
      ensures Overlap(file, p) <==> AtOrBelow(file, p) || AtOrBelow(p, file)
    {
      if AtOrBelow(file, p) {
        assert Parts(file)[..|Parts(p)|] == Parts(p);
      }
    }
  }

  /** A changed path above the only scope is accepted, and is outside it. */
  lemma APathAboveTheScopeIsAccepted(claim: Claim)
    requires claim.paths == {"src/a"}
    ensures ChangesInScope(claim, {"src"}) && !CoversFile(claim, "src")
  {
    SplitWhole("src", '/');
    SplitWhole("a", '/');
    SplitFirst("src", "a", '/');
    assert "src/a" == "src" + ['/'] + "a";
    KeptOfParts(["src"]);
    KeptOfParts(["src", "a"]);
    assert Parts("src") == ["src"] && Parts("src/a") == ["src", "a"];
    assert Overlap("src", "src/a");
  }

  /** Work that passed: the worktree holds the branch of an active claim, and no other
      active claim changed the same file or a migration of the same version. */
  lemma PassedMeansNobodyElseChanged(entries: Entries, task: string, other: string, worktree: string, git: Git,
                                     file: string, theirs: string)
    requires PreflightPasses(entries, task, worktree, git)
    ensures task in entries && entries[task].Stored? && git.changed(task).Some?
    ensures entries[task].claim.worktree == worktree && entries[task].claim.branch == git.branchAt(worktree)
    ensures entries[task].claim.state in {Claimed, Implementing, State.Review} && git.branchAt(worktree) !in {"main", "master"}
    ensures other != task && other in entries && entries[other].Stored?
            && entries[other].claim.state in {Claimed, Implementing, State.Review} ==>
              && git.changed(other).Some?
              && (file in git.changed(task).value && theirs in git.changed(other).value ==>
                    file != theirs && (Version(file).None? || Version(file) != Version(theirs)))
  {
    if other != task && Active(entries, other) {
      assert !ChangesClash(git.changed(task).value, git.changed(other).value);
    }
  }

  predicate Matches(claim: Claim, worktree: string, branch: string) {
    claim.worktree == worktree && claim.branch == branch && claim.state in ACTIVE
  }

  /** Exclusive claims: at most one active claim matches a worktree. */
  lemma OnlyOneMatches(entries: Entries, task: string, worktree: string, git: Git)
    requires Exclusive(entries) && Active(entries, task) && entries[task].claim.worktree == worktree
    ensures forall t :: PreflightPasses(entries, t, worktree, git) ==> t == task
  {
    forall t | PreflightPasses(entries, t, worktree, git)
      ensures t == task
    {
      assert Reserves(entries, t) && Reserves(entries, task);
    }
  }

  /** The loop over the pairs of active claims. */
  method PairsApart(active: seq<string>, git: Git) returns (r: Option<CoordinationError>)
    requires forall i, j :: 0 <= i < j < |active| ==> active[i] != active[j]
    ensures r.None? <==>
              && (forall s :: s in active ==> git.changed(s).Some?)
              && (forall s, t :: s in active && t in active && s != t ==>
                                   !ChangesClash(git.changed(s).value, git.changed(t).value))
    ensures r.Some? ==> r.value == Environment
  {
    for i := 0 to |active|
      invariant forall k :: 0 <= k < i ==> git.changed(active[k]).Some?
    {
      if git.changed(active[i]).None? {
        assert active[i] in active;
        return Some(Environment);
      }
    }
    for i := 0 to |active|
      invariant forall k, l :: 0 <= k < i && k < l < |active| ==>
                  !ChangesClash(git.changed(active[k]).value, git.changed(active[l]).value)
    {
      for j := i + 1 to |active|
        invariant forall l :: i < l < j ==>
                    !ChangesClash(git.changed(active[i]).value, git.changed(active[l]).value)
      {
        if ChangesClash(git.changed(active[i]).value, git.changed(active[j]).value) {
          assert active[i] in active && active[j] in active;
          return Some(Environment);
        }
      }
    }
    forall s, t | s in active && t in active && s != t
      ensures !ChangesClash(git.changed(s).value, git.changed(t).value)
    {
      var k :| 0 <= k < |active| && active[k] == s;
      var l :| 0 <= l < |active| && active[l] == t;
      ClashIsSymmetric(git.changed(s).value, git.changed(t).value);
    }
    return None;
  }

  lemma ClashIsSymmetric(a: set<string>, b: set<string>)
    ensures ChangesClash(a, b) <==> ChangesClash(b, a)
  {
  }

  // -------------------------------------------------------------------------
  // The operations
  // -------------------------------------------------------------------------

  class Workspace {
    var entries: Entries

    constructor ()
      ensures entries == map[]
    {
      entries := map[];
    }

    /** `_load_claims`: one unreadable file and nothing is read. */
    method LoadClaims() returns (r: Result<seq<Listed>, CoordinationError>)
      ensures r.Failure? ==> r == Failure(InvalidRegistry)
      ensures r.Success? <==> Readable(entries)
      ensures r.Success? ==> forall l :: l in r.value <==> l.task in entries && entries[l.task] == Stored(l.claim)
      ensures r.Success? ==> forall i, j :: 0 <= i < j < |r.value| ==> r.value[i].task != r.value[j].task
    {
      var tasks := Elements(entries.Keys);
      var claims: seq<Listed> := [];
      for i := 0 to |tasks|
        invariant |claims| == i
        invariant forall k :: 0 <= k < i ==>
                    claims[k].task == tasks[k] && entries[tasks[k]] == Stored(claims[k].claim)
      {
        var entry := entries[tasks[i]];
        if entry.Unreadable? {
          return Failure(InvalidRegistry);
        }
        claims := claims + [Listed(tasks[i], entry.claim)];
      }
      forall task | task in entries
        ensures exists k :: 0 <= k < |tasks| && tasks[k] == task
      {
        assert task in tasks;
      }
      return Success(claims);
    }

    /** `_assert_unique_claim` */
    method AssertUniqueClaim(claim: Claim, ignore: Option<string>) returns (r: Option<CoordinationError>)
      ensures r.None? <==>
                claim.state in RESERVING ==>
                  Readable(entries)
                  && forall t :: Reserves(entries, t) && Some(t) != ignore ==> Compatible(claim, entries[t].claim)
      ensures r.Some? ==> r.value == (if Readable(entries) then Taken else InvalidRegistry)
    {
      if claim.state !in RESERVING {
        return None;
      }
      var loaded := LoadClaims();
      if loaded.Failure? {
        return Some(InvalidRegistry);
      }
      var claims := loaded.value;
      for i := 0 to |claims|
        invariant forall k :: 0 <= k < i ==> NoObstacle(claims[k], claim, ignore)
      {
        var existing := claims[i];
        assert existing in claims;
        if Some(existing.task) == ignore || existing.claim.state !in RESERVING {
          continue;
        }
        assert Reserves(entries, existing.task);
        if existing.claim.branch == claim.branch || existing.claim.worktree == claim.worktree {
          return Some(Taken);
        }
        var shared := claim.resources * existing.claim.resources;
        if shared != {} {
          return Some(Taken);
        }
        var clash := ScopesClash(claim.paths, existing.claim.paths);
        if clash {
          return Some(Taken);
        }
        assert forall x :: x in claim.resources && x in existing.claim.resources ==> x in shared;
        assert NoObstacle(existing, claim, ignore);
      }
      forall t | Reserves(entries, t) && Some(t) != ignore
        ensures Compatible(claim, entries[t].claim)
      {
        assert Listed(t, entries[t].claim) in claims;
        assert NoObstacle(Listed(t, entries[t].claim), claim, ignore);
      }
      return None;
    }

    /** `_write_claim` of a new claim: the file is created exclusively, then written. */
    method CreateClaim(task: string, claim: Claim, disk: Disk) returns (r: Result<Claim, CoordinationError>)
      modifies this
      ensures task in old(entries) ==> r == Failure(AlreadyClaimed) && entries == old(entries)
      ensures task !in old(entries) ==>
                match disk
                case Refuses => r == Failure(NotPersisted) && entries == old(entries)
                case CutShort => r == Failure(NotPersisted) && entries == old(entries)[task := Unreadable]
                case Writes(reported) =>
                  r == (if reported then Success(claim) else Failure(NotPersisted))
                  && entries == old(entries)[task := Stored(claim)]
    {
      if task in entries {
        return Failure(AlreadyClaimed);
      }
      if disk.Refuses? {
        return Failure(NotPersisted);
      }
      entries := entries[task := Unreadable];
      if disk.CutShort? {
        return Failure(NotPersisted);
      }
      entries := entries[task := Stored(claim)];
      return if disk.reported then Success(claim) else Failure(NotPersisted);
    }

    /** The checks of a start. */
    method StartRefuses(
        task: string, title: string, owner: string, branch: string, worktree: string, baseRef: string,
        paths: seq<string>, resources: seq<string>, git: Git)
      returns (r: Option<CoordinationError>)
      ensures r.None? <==> MayStart(entries, task, title, owner, branch, worktree, baseRef, paths, resources, git)
      ensures r.Some? ==> r.value != NotPersisted
      ensures r == Some(InvalidTaskId) <==>
                !(2 <= |task| <= 63 && task[0] != '-' && forall c :: c in task ==> 'a' <= c <= 'z' || '0' <= c <= '9' || c == '-')
    {
      TaskIdMeans(task);
      if !ValidTaskId(task) {
        return Some(InvalidTaskId);
      }
      if !AllPaths(paths) {
        return Some(InvalidPath);
      }
      if Scopes(paths) == {} && Resources(resources) == {} {
        return Some(NothingClaimed);
      }
      if branch in PROTECTED_BRANCHES {
        return Some(BranchIsProtected);
      }
      if Strip(title) == "" || Strip(owner) == "" {
        return Some(TitleOrOwnerMissing);
      }
      if !git.protectedClean {
        return Some(Environment);
      }
      var loaded := LoadClaims();
      if loaded.Failure? {
        return Some(InvalidRegistry);
      }
      if !git.terminalClean || !git.reservingValid {
        return Some(Environment);
      }
      if task in entries {
        return Some(AlreadyClaimed);
      }
      if git.occupied(worktree) || git.branchExists {
        return Some(Environment);
      }
      r := AssertUniqueClaim(Requested(title, owner, branch, worktree, baseRef, "", paths, resources, Claimed), None);
      if r.None? && (git.baseSha.None? || !git.worktreeAdded) {
        return Some(Environment);
      }
    }

    method Start(
        task: string, title: string, owner: string, branch: string, worktree: string, baseRef: string,
        paths: seq<string>, resources: seq<string>, git: Git, disk: Disk)
      returns (r: Result<Claim, CoordinationError>)
      modifies this
      ensures Step(old(entries), entries)
      ensures r.Success? <==>
                MayStart(old(entries), task, title, owner, branch, worktree, baseRef, paths, resources, git)
                && disk == Writes(true)
      ensures r.Success? ==>
                && r.value == Claim(Strip(title), Strip(owner), branch, worktree, baseRef, git.baseSha.value,
                                    r.value.paths, r.value.resources, Claimed, None, false)
                && CoversExactly(r.value, paths, {})
                && (forall x :: x in r.value.resources <==>
                      x != "" && exists i :: 0 <= i < |resources| && Strip(resources[i]) == x)
                && entries == old(entries)[task := Stored(r.value)]
      ensures r.Failure? && r.error != NotPersisted ==> entries == old(entries)
    {
      var refused := StartRefuses(task, title, owner, branch, worktree, baseRef, paths, resources, git);
      if refused.Some? {
        return Failure(refused.value);
      }
      var claim := Requested(title, owner, branch, worktree, baseRef, git.baseSha.value, paths, resources, Claimed);
      ClaimCoversExactly(claim, paths, {});
      r := CreateClaim(task, claim, disk);
      assert Creates(old(entries), task, claim, entries);
    }

    /** The checks of an adoption. */
    method AdoptRefuses(
        task: string, title: string, owner: string, worktree: string, baseRef: string,
        paths: seq<string>, resources: seq<string>, state: State, git: Git)
      returns (r: Option<CoordinationError>)
      ensures r.None? <==> MayAdopt(entries, task, title, owner, worktree, baseRef, paths, resources, state, git)
      ensures r.Some? ==> r.value != NotPersisted
    {
      if state !in {Claimed, Implementing, Paused} {
        return Some(InvalidState);
      }
      if Strip(title) == "" || Strip(owner) == "" {
        return Some(TitleOrOwnerMissing);
      }
      if !git.sameClone || git.branchAt(worktree) == "" {
        return Some(Environment);
      }
      if !AllPaths(paths) {
        return Some(InvalidPath);
      }
      if Scopes(paths) == {} && Resources(resources) == {} {
        return Some(NothingClaimed);
      }
      if !ValidTaskId(task) {
        return Some(InvalidTaskId);
      }
      if task in entries {
        return Some(AlreadyClaimed);
      }
      r := AssertUniqueClaim(
        Requested(title, owner, git.branchAt(worktree), worktree, baseRef, "", paths, resources, state), None);
      if r.None? && git.baseSha.None? {
        return Some(Environment);
      }
    }

    method Adopt(
        task: string, title: string, owner: string, worktree: string, baseRef: string,
        paths: seq<string>, resources: seq<string>, state: State, git: Git, disk: Disk)
      returns (r: Result<Claim, CoordinationError>)
      modifies this
      ensures Step(old(entries), entries)
      ensures r.Success? <==>
                MayAdopt(old(entries), task, title, owner, worktree, baseRef, paths, resources, state, git)
                && disk == Writes(true)
      ensures r.Success? ==>
                && r.value == Claim(Strip(title), Strip(owner), git.branchAt(worktree), worktree, baseRef, git.baseSha.value,
                                    r.value.paths, r.value.resources, state, None, false)
                && CoversExactly(r.value, paths, {})
                && (forall x :: x in r.value.resources <==>
                      x != "" && exists i :: 0 <= i < |resources| && Strip(resources[i]) == x)
                && entries == old(entries)[task := Stored(r.value)]
      ensures r.Failure? && r.error != NotPersisted ==> entries == old(entries)
    {
      var refused := AdoptRefuses(task, title, owner, worktree, baseRef, paths, resources, state, git);
      if refused.Some? {
        return Failure(refused.value);
      }
      var claim := Requested(
        title, owner, git.branchAt(worktree), worktree, baseRef, git.baseSha.value, paths, resources, state);
      ClaimCoversExactly(claim, paths, {});
      r := CreateClaim(task, claim, disk);
      assert Creates(old(entries), task, claim, entries);
    }

    /** `_claim_for_worktree` */
    method ClaimForWorktree(worktree: string, branch: string)
      returns (r: Result<Option<Listed>, CoordinationError>)
      ensures r.Failure? ==> r == Failure(InvalidRegistry)
      ensures r.Success? <==> Readable(entries)
      ensures r.Success? && r.value.Some? ==>
                var l := r.value.value;
                Active(entries, l.task) && entries[l.task] == Stored(l.claim)
                && l.claim.worktree == worktree && l.claim.branch == branch
      ensures r.Success? && r.value.None? ==>
                forall t :: Active(entries, t) ==> entries[t].claim.worktree != worktree || entries[t].claim.branch != branch
    {
      var loaded := LoadClaims();
      if loaded.Failure? {
        return Failure(InvalidRegistry);
      }
      var claims := loaded.value;
      for i := 0 to |claims|
        invariant forall k :: 0 <= k < i ==> !(Matches(claims[k].claim, worktree, branch))
      {
        if Matches(claims[i].claim, worktree, branch) {
          assert claims[i] in claims;
          return Success(Some(claims[i]));
        }
      }
      forall t | Active(entries, t)
        ensures !Matches(entries[t].claim, worktree, branch)
      {
        assert Listed(t, entries[t].claim) in claims;
      }
      return Success(None);
    }

    /** `_assert_actual_changes_do_not_overlap` */
    method ChangesDoNotOverlap(git: Git) returns (r: Option<CoordinationError>)
      ensures r.None? <==> Readable(entries) && ChangesApart(entries, git)
      ensures r.Some? && Readable(entries) ==> r == Some(Environment)
    {
      var loaded := LoadClaims();
      if loaded.Failure? {
        return Some(InvalidRegistry);
      }
      var claims := loaded.value;
      var active: seq<string> := [];
      for i := 0 to |claims|
        invariant forall t :: t in active <==> exists k :: 0 <= k < i && claims[k].task == t && claims[k].claim.state in ACTIVE
        invariant forall x, k :: 0 <= x < |active| && i <= k < |claims| ==> active[x] != claims[k].task
        invariant forall x, y :: 0 <= x < y < |active| ==> active[x] != active[y]
      {
        if claims[i].claim.state in ACTIVE {
          active := active + [claims[i].task];
        }
      }
      assert forall t :: t in active <==> Active(entries, t) by {
        forall t | Active(entries, t)
          ensures t in active
        {
          assert Listed(t, entries[t].claim) in claims;
        }
        forall t | t in active
          ensures Active(entries, t)
        {
          var k :| 0 <= k < |claims| && claims[k].task == t && claims[k].claim.state in ACTIVE;
          assert claims[k] in claims;
        }
      }
      r := PairsApart(active, git);
      if r.None? {
        assert forall t :: Active(entries, t) ==> t in active;
      } else {
        assert forall i :: 0 <= i < |active| ==> active[i] in active;
      }
    }

    method Preflight(worktree: string, git: Git) returns (r: Result<Listed, CoordinationError>)
      ensures r.Success? ==> PreflightPasses(entries, r.value.task, worktree, git)
      ensures r.Success? ==> entries[r.value.task] == Stored(r.value.claim)
      ensures Exclusive(entries) && (exists task :: PreflightPasses(entries, task, worktree, git)) ==> r.Success?
    {
      var branch := git.branchAt(worktree);
      if branch in PROTECTED_BRANCHES {
        return Failure(BranchIsProtected);
      }
      var found := ClaimForWorktree(worktree, branch);
      if found.Failure? {
        return Failure(InvalidRegistry);
      }
      if found.value.None? {
        return Failure(UnknownTask);
      }
      if !git.protectedClean || !git.reservingValid {
        return Failure(Environment);
      }
      var overlap := ChangesDoNotOverlap(git);
      if overlap.Some? {
        return Failure(overlap.value);
      }
      var listed := found.value.value;
      var changed := git.changed(listed.task).value;
      if listed.claim.paths != {} {
        if exists file :: file in changed && forall p :: p in listed.claim.paths ==> !Overlap(file, p) {
          if Exclusive(entries) {
            OnlyOneMatches(entries, listed.task, worktree, git);
          }
          return Failure(InvalidPath);
        }
      }
      return Success(listed);
    }

    /** What stands in the way of a transition to another state. */
    method TransitionRefuses(task: string, state: State, git: Git) returns (r: Option<CoordinationError>)
      requires Readable(entries) && task in entries
      ensures r.None? ==> MayMove(entries, task, state, git)
      ensures Exclusive(entries) && MayMove(entries, task, state, git) ==> r.None?
      ensures state !in AllowedTransitions(entries[task].claim.state) ==>
                r == Some(if entries[task].claim.state in TERMINAL then NotReopened else InvalidState)
    {
      var claim := entries[task].claim;
      if state !in AllowedTransitions(claim.state) {
        return Some(if claim.state in TERMINAL then NotReopened else InvalidState);
      }
      if state in ACTIVE {
        r := AssertUniqueClaim(claim.(state := state), Some(task));
        if r.Some? {
          return;
        }
      }
      r := GitRefuses(claim, state, git);
    }

    method Transition(task: string, state: State, git: Git, writes: bool)
      returns (r: Result<Claim, CoordinationError>)
      modifies this
      ensures Step(old(entries), entries)
      ensures r.Success? ==> task in old(entries) && old(entries)[task].Stored? && r.value.state == state
      ensures r.Success? && old(entries)[task].claim.state == state ==>
                r.value == old(entries)[task].claim && entries == old(entries)
      ensures r.Success? && old(entries)[task].claim.state != state ==>
                var was := old(entries)[task].claim;
                && r.value == was.(state := state, reviewSha := r.value.reviewSha)
                && r.value.reviewSha == (if state == State.Review then Some(git.headOf(was.worktree))
                                         else if state == Implementing then None
                                         else was.reviewSha)
                && entries == old(entries)[task := Stored(r.value)]
                && MayMove(old(entries), task, state, git)
      ensures Exclusive(old(entries)) && MayMove(old(entries), task, state, git) && writes ==> r.Success?
      ensures r.Failure? ==> entries == old(entries)
    {
      var loaded := LoadClaims();
      if loaded.Failure? {
        return Failure(InvalidRegistry);
      }
      if task !in entries {
        return Failure(UnknownTask);
      }
      var claim := entries[task].claim;
      if state == claim.state {
        return Success(claim);
      }
      var refused := TransitionRefuses(task, state, git);
      if refused.Some? {
        return Failure(refused.value);
      }
      if !writes {
        return Failure(NotPersisted);
      }
      var moved := Moved(claim, state, git);
      entries := entries[task := Stored(moved)];
      assert Replaces(old(entries), task, moved, entries);
      return Success(moved);
    }

    /** The checks of one transition against git. */
    method GitRefuses(claim: Claim, state: State, git: Git) returns (r: Option<CoordinationError>)
      ensures r.None? ==> GitAllows(entries, claim, state, git)
      ensures Exclusive(entries) && GitAllows(entries, claim, state, git) ==> r.None?
    {
      if state == State.Review {
        var passed := Preflight(claim.worktree, git);
        if passed.Failure? {
          return Some(passed.error);
        }
        if git.dirty(claim.worktree) || !git.evidence || !git.published {
          return Some(Environment);
        }
      }
      if state == Merged {
        if git.dirty(claim.worktree) || claim.reviewSha.None?
           || git.headOf(claim.worktree) != claim.reviewSha.value || !git.contained {
          return Some(Environment);
        }
      }
      if state == Abandoned && git.isDirectory(claim.worktree) && git.dirty(claim.worktree) {
        return Some(Environment);
      }
      return None;
    }

    method Extend(task: string, paths: seq<string>, resources: seq<string>, writes: bool)
      returns (r: Result<Claim, CoordinationError>)
      modifies this
      ensures Step(old(entries), entries)
      ensures r.Success? <==> MayExtend(old(entries), task, paths, resources) && writes
      ensures r.Success? ==>
                var held := old(entries)[task].claim;
                && r.value == held.(paths := r.value.paths, resources := r.value.resources)
                && CoversExactly(r.value, paths, held.paths)
                && (forall x :: x in r.value.resources <==>
                      x in held.resources || (x != "" && exists i :: 0 <= i < |resources| && Strip(resources[i]) == x))
                && entries == old(entries)[task := Stored(r.value)]
      ensures r.Failure? ==> entries == old(entries)
    {
      if !AllPaths(paths) {
        return Failure(InvalidPath);
      }
      if Scopes(paths) == {} && Resources(resources) == {} {
        return Failure(NothingClaimed);
      }
      var loaded := LoadClaims();
      if loaded.Failure? {
        return Failure(InvalidRegistry);
      }
      if task !in entries {
        return Failure(UnknownTask);
      }
      var claim := entries[task].claim;
      if claim.state !in {Claimed, Implementing, Paused} {
        return Failure(InvalidState);
      }
      var wider := Extended(claim, paths, resources);
      ClaimCoversExactly(wider, paths, claim.paths);
      var taken := AssertUniqueClaim(wider, Some(task));
      if taken.Some? {
        return Failure(taken.value);
      }
      if !writes {
        return Failure(NotPersisted);
      }
      entries := entries[task := Stored(wider)];
      assert Replaces(old(entries), task, wider, entries);
      return Success(wider);
    }

    method Cleanup(task: string, git: Git, writes: bool) returns (r: Result<Claim, CoordinationError>)
      modifies this
      ensures Step(old(entries), entries)
      ensures r.Success? <==> MayCleanUp(old(entries), task, git) && writes
      ensures r.Success? ==>
                && r.value == old(entries)[task].claim.(removed := true)
                && entries == old(entries)[task := Stored(r.value)]
      ensures r.Failure? ==> entries == old(entries)
    {
      var loaded := LoadClaims();
      if loaded.Failure? {
        return Failure(InvalidRegistry);
      }
      if task !in entries {
        return Failure(UnknownTask);
      }
      var claim := entries[task].claim;
      if claim.state !in TERMINAL {
        return Failure(InvalidState);
      }
      if !git.isDirectory(claim.worktree) || !git.sameClone || git.branchAt(claim.worktree) != claim.branch
         || git.dirty(claim.worktree) || !git.worktreeRemoved {
        return Failure(Environment);
      }
      if !writes {
        return Failure(NotPersisted);
      }
      var cleaned := claim.(removed := true);
      entries := entries[task := Stored(cleaned)];
      assert Replaces(old(entries), task, cleaned, entries);
      return Success(cleaned);
    }
  }
}
