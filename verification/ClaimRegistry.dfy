/** The registry of claims shared by the worktrees of one clone: `start`, `adopt`,
    `transition`, `extend` and `cleanup` of `AgentWorkspace`. Every operation runs under
    the registry's lock. What git and the disk answer are parameters. */
module ClaimRegistry {
  import opened Wrappers
  import opened Text
  import opened ClaimPaths

  datatype State = Claimed | Implementing | Review | Paused | Merged | Abandoned

  const ACTIVE := {Claimed, Implementing, Review}
  const RESERVING := ACTIVE + {Paused}
  const TERMINAL := {Merged, Abandoned}
  const PROTECTED_BRANCHES := {"main", "master"}

  function AllowedTransitions(state: State): set<State> {
    match state
    case Claimed => {Implementing, Paused, Abandoned}
    case Implementing => {State.Review, Paused, Abandoned}
    case Review => {Implementing, Merged, Paused, Abandoned}
    case Paused => {Claimed, Implementing, Abandoned}
    case Merged => {}
    case Abandoned => {}
  }

  /** A claim. `worktree` is the resolved path; `paths` are normalized scopes. */
  datatype Claim = Claim(
    title: string,
    owner: string,
    branch: string,
    worktree: string,
    baseRef: string,
    baseSha: string,
    paths: set<string>,
    resources: set<string>,
    state: State,
    reviewSha: Option<string>,
    removed: bool)

  /** One file of the registry; `Unreadable` is what a write cut short leaves. */
  datatype Entry = Stored(claim: Claim) | Unreadable

  /** The files, by task id. */
  type Entries = map<string, Entry>

  datatype CoordinationError =
    | InvalidTaskId
    | InvalidPath
    | NothingClaimed
    | BranchIsProtected
    | TitleOrOwnerMissing
    | InvalidRegistry
    | AlreadyClaimed
    | UnknownTask
    | Taken
    | InvalidState
    | NotReopened
    | Environment
    | NotPersisted

  // -------------------------------------------------------------------------
  // What the claims promise
  // -------------------------------------------------------------------------

  /** The two claims may be held at the same time. */
  predicate Compatible(a: Claim, b: Claim) {
    && a.branch != b.branch
    && a.worktree != b.worktree
    && a.resources !! b.resources
    && forall p, q :: p in a.paths && q in b.paths ==> !Overlap(p, q)
  }

  predicate Reserves(entries: Entries, task: string) {
    task in entries && entries[task].Stored? && entries[task].claim.state in RESERVING
  }

  predicate IsTerminal(entries: Entries, task: string) {
    task in entries && entries[task].Stored? && entries[task].claim.state in TERMINAL
  }

  predicate Readable(entries: Entries) {
    forall task :: task in entries ==> entries[task].Stored?
  }

  /** Claims that reserve are compatible, two by two. */
  ghost predicate Exclusive(entries: Entries) {
    forall s, t :: Reserves(entries, s) && Reserves(entries, t) && s != t ==>
      Compatible(entries[s].claim, entries[t].claim)
  }

  /** No claim that reserves, other than the one of `task`, stands in the way of `claim`. */
  ghost predicate Free(entries: Entries, task: string, claim: Claim) {
    forall t :: Reserves(entries, t) && t != task ==> Compatible(claim, entries[t].claim)
  }

  /** The file lies in the scope of the claim. */
  predicate CoversFile(claim: Claim, file: string) {
    exists p :: p in claim.paths && AtOrBelow(file, p)
  }

  /** What exclusive claims mean for the work: two reserving claims never share a
      branch, a worktree, a resource or a file. */
  lemma ExclusiveClaimsShareNothing(entries: Entries, s: string, t: string)
    requires Exclusive(entries) && Reserves(entries, s) && Reserves(entries, t) && s != t
    ensures var a, b := entries[s].claim, entries[t].claim;
            && a.branch != b.branch && a.worktree != b.worktree
            && (forall r :: !(r in a.resources && r in b.resources))
            && (forall file :: !(CoversFile(a, file) && CoversFile(b, file)))
  {
    var a, b := entries[s].claim, entries[t].claim;
    forall file | CoversFile(a, file)
      ensures !CoversFile(b, file)
    {
      var p :| p in a.paths && AtOrBelow(file, p);
      forall q | q in b.paths
        ensures !AtOrBelow(file, q)
      {
        OverlapMeansSharedFile(p, q);
      }
    }
  }

  // -------------------------------------------------------------------------
  // The steps of the registry
  // -------------------------------------------------------------------------

  /** How far a write of the disk got. `Cut` leaves a file that does not read back;
      `Complete` may still have been reported as a failure. */
  datatype Disk = Untouched | Cut | Complete

  /** A new claim is written: its file did not exist. */
  ghost predicate Creates(before: Entries, task: string, claim: Claim, after: Entries) {
    && task !in before && Readable(before) && claim.state in {Claimed, Implementing, Paused}
    && claim.reviewSha == None && !claim.removed
    && (claim.paths != {} || claim.resources != {})
    && Free(before, task, claim)
    && (after == before || after == before[task := Unreadable] || after == before[task := Stored(claim)])
  }

  /** A claim is written again: the file is replaced as a whole or not at all. */
  ghost predicate Replaces(before: Entries, task: string, claim: Claim, after: Entries) {
    && task in before && Readable(before)
    && KeepsIdentity(before[task].claim, claim)
    && (claim.state != before[task].claim.state ==> claim.state in AllowedTransitions(before[task].claim.state))
    && (claim.state == Merged && before[task].claim.state != Merged ==> claim.reviewSha.Some?)
    && (Widens(before[task].claim, claim) ==> Free(before, task, claim))
    && (after == before || after == before[task := Stored(claim)])
  }

  predicate KeepsIdentity(a: Claim, b: Claim) {
    && b.branch == a.branch && b.worktree == a.worktree && b.baseRef == a.baseRef && b.baseSha == a.baseSha
    && b.title == a.title && b.owner == a.owner
    && a.paths <= b.paths && a.resources <= b.resources
    && (a.state in TERMINAL ==> b.paths == a.paths && b.resources == a.resources)
  }

  /** The claim becomes active or gets a wider scope. */
  predicate Widens(a: Claim, b: Claim) {
    (b.state in ACTIVE && b.state != a.state) || b.paths != a.paths || b.resources != a.resources
  }

  ghost predicate Step(before: Entries, after: Entries) {
    || after == before
    || (exists task, claim :: Creates(before, task, claim, after))
    || (exists task, claim :: Replaces(before, task, claim, after))
  }

  lemma CreatesKeepsExclusive(before: Entries, task: string, claim: Claim, after: Entries)
    requires Exclusive(before) && Creates(before, task, claim, after)
    ensures Exclusive(after)
  {
    forall s, t | Reserves(after, s) && Reserves(after, t) && s != t
      ensures Compatible(after[s].claim, after[t].claim)
    {
      if s != task && t != task {
        assert Reserves(before, s) && Reserves(before, t);
      } else if s == task {
        assert Reserves(before, t);
      } else {
        assert Reserves(before, s);
      }
    }
  }

  /** A claim that does not widen reserves only if it did before: a pause needs no new check. */
  lemma NotWiderIsFree(before: Entries, task: string, claim: Claim)
    requires Exclusive(before) && task in before && before[task].Stored?
    requires KeepsIdentity(before[task].claim, claim) && !Widens(before[task].claim, claim)
    requires claim.state != before[task].claim.state ==> claim.state in AllowedTransitions(before[task].claim.state)
    ensures claim.state in RESERVING ==> Reserves(before, task) && Free(before, task, claim)
  {
    if claim.state in RESERVING {
      assert Reserves(before, task);
      forall t | Reserves(before, t) && t != task
        ensures Compatible(claim, before[t].claim)
      {
        assert Compatible(before[task].claim, before[t].claim);
      }
    }
  }

  lemma ReplacesKeepsExclusive(before: Entries, task: string, claim: Claim, after: Entries)
    requires Exclusive(before) && Replaces(before, task, claim, after)
    ensures Exclusive(after)
  {
    if !Widens(before[task].claim, claim) {
      NotWiderIsFree(before, task, claim);
    }
    forall s, t | Reserves(after, s) && Reserves(after, t) && s != t
      ensures Compatible(after[s].claim, after[t].claim)
    {
      if after == before || (s != task && t != task) {
        assert Reserves(before, s) && Reserves(before, t);
      } else if s == task {
        assert Reserves(before, t);
      } else {
        assert Reserves(before, s);
      }
    }
  }

  lemma StepKeepsExclusive(before: Entries, after: Entries)
    requires Exclusive(before) && Step(before, after)
    ensures Exclusive(after)
  {
    if after != before {
      if task, claim :| Creates(before, task, claim, after) {
        CreatesKeepsExclusive(before, task, claim, after);
      } else {
        var task, claim :| Replaces(before, task, claim, after);
        ReplacesKeepsExclusive(before, task, claim, after);
      }
    }
  }

  /** A task id, once in the registry, stays with its branch and its worktree; a
      terminal claim never changes its state, and a scope never shrinks. */
  predicate Continues(before: Entries, after: Entries) {
    forall task :: task in before ==>
      && task in after
      && (before[task].Unreadable? ==> after[task].Unreadable?)
      && (before[task].Stored? ==>
            && after[task].Stored?
            && KeepsIdentity(before[task].claim, after[task].claim)
            && (before[task].claim.state in TERMINAL ==> after[task].claim.state == before[task].claim.state))
  }

  ghost predicate Run(run: seq<Entries>) {
    && run != [] && run[0] == map[]
    && forall i :: 0 < i < |run| ==> Step(run[i - 1], run[i])
  }

  /** The registry over every run: claims that reserve are always exclusive. */
  lemma {:induction false} EveryRunIsExclusive(run: seq<Entries>, i: nat)
    requires Run(run) && i < |run|
    ensures Exclusive(run[i])
  {
    if i > 0 {
      EveryRunIsExclusive(run, i - 1);
      StepKeepsExclusive(run[i - 1], run[i]);
    }
  }

  lemma {:induction false} EveryRunContinues(run: seq<Entries>, i: nat, j: nat)
    requires Run(run) && i <= j < |run|
    ensures Continues(run[i], run[j])
  {
    if i < j {
      EveryRunContinues(run, i, j - 1);
    }
  }

  /** What a task id stands for never changes along a run, and its scope only grows. */
  lemma ATaskKeepsItsClaim(run: seq<Entries>, i: nat, j: nat, task: string)
    requires Run(run) && i <= j < |run| && task in run[i] && run[i][task].Stored?
    ensures task in run[j] && run[j][task].Stored?
    ensures var a, b := run[i][task].claim, run[j][task].claim;
            && b.title == a.title && b.owner == a.owner && b.branch == a.branch && b.worktree == a.worktree
            && b.baseRef == a.baseRef && b.baseSha == a.baseSha
            && (forall p :: p in a.paths ==> p in b.paths) && (forall x :: x in a.resources ==> x in b.resources)
            && (a.state in {Merged, Abandoned} ==> b.state == a.state && b.paths == a.paths && b.resources == a.resources)
  {
    EveryRunContinues(run, i, j);
  }

  /** A merged claim was under review right before: it is not created merged, and it
      comes from no other state. */
  lemma {:induction false} MergedWasReviewed(run: seq<Entries>, j: nat, task: string) returns (i: nat)
    requires Run(run) && j < |run| && task in run[j] && run[j][task].Stored? && run[j][task].claim.state == Merged
    ensures i < j && task in run[i] && run[i][task].Stored? && run[i][task].claim.state == State.Review
    ensures task in run[i + 1] && run[i + 1][task].Stored? && run[i + 1][task].claim.state == Merged
    ensures run[i + 1][task].claim.reviewSha.Some?
  {
    if task in run[j - 1] && run[j - 1][task].Stored? && run[j - 1][task].claim.state == Merged {
      i := MergedWasReviewed(run, j - 1, task);
    } else {
      BecameMerged(run[j - 1], run[j], task);
      i := j - 1;
    }
  }

  lemma BecameMerged(before: Entries, after: Entries, task: string)
    requires Step(before, after) && task in after && after[task].Stored? && after[task].claim.state == Merged
    requires !(task in before && before[task].Stored? && before[task].claim.state == Merged)
    ensures task in before && before[task].Stored? && before[task].claim.state == State.Review
    ensures after[task].claim.reviewSha.Some?
  {
    if t, claim :| Creates(before, t, claim, after) {
      assert false;
    } else {
      var t, claim :| Replaces(before, t, claim, after);
      assert t == task && after[task].claim == claim;
    }
  }

  /** A terminal claim never reserves again, and its task id is never given to another claim. */
  lemma TerminalForEver(run: seq<Entries>, i: nat, j: nat, task: string)
    requires Run(run) && i <= j < |run| && IsTerminal(run[i], task)
    ensures IsTerminal(run[j], task) && !Reserves(run[j], task)
    ensures run[j][task].claim.branch == run[i][task].claim.branch
    ensures run[j][task].claim.worktree == run[i][task].claim.worktree
    ensures run[j][task].claim.paths == run[i][task].claim.paths
  {
    EveryRunContinues(run, i, j);
  }

  /** A write cut short stops the registry for good: no later operation changes it. */
  lemma {:induction false} AnUnreadableEntryStopsTheRegistry(run: seq<Entries>, i: nat, j: nat, task: string)
    requires Run(run) && i <= j < |run| && task in run[i] && run[i][task].Unreadable?
    ensures run[j] == run[i]
  {
    if i < j {
      AnUnreadableEntryStopsTheRegistry(run, i, j - 1, task);
      assert !Readable(run[j - 1]);
    }
  }
}
