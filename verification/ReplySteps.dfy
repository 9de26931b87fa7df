/** The order of a worker's own steps, in every run: what has happened between the start
    of a worker and its POST, whatever the other workers do in between. */
module ReplySteps {
  import opened Wrappers
  import opened Messages
  import opened ReplyAuthorization
  import opened ReplyProtocol

  /** A step that the worker `id` takes itself. */
  predicate IsOf(step: Step, id: nat) {
    !step.Land? && !step.Lose? && !step.Others? && step.id == id
  }

  /** The steps of one worker, in their order. */
  function Own(steps: seq<Step>, id: nat): seq<Step> {
    if steps == [] then []
    else
      var n := |steps| - 1;
      if IsOf(steps[n], id) then Own(steps[..n], id) + [steps[n]] else Own(steps[..n], id)
  }

  lemma {:induction false} OwnHasThem(steps: seq<Step>, id: nat, i: nat)
    requires i < |steps| && IsOf(steps[i], id)
    ensures steps[i] in Own(steps, id)
  {
    var n := |steps| - 1;
    if i < n {
      OwnHasThem(steps[..n], id, i);
    }
  }

  /** The world once the first `i` steps are taken. */
  function After(w: World, steps: seq<Step>, i: nat): World
    requires i <= |steps| && Run(w, steps[..i]).Some?
  {
    Run(w, steps[..i]).value
  }

  /** A run passes through a world after each of its steps. */
  lemma {:induction false} RunStepByStep(w: World, steps: seq<Step>, i: nat)
    requires Run(w, steps).Some? && i < |steps|
    ensures Run(w, steps[..i]).Some? && Run(w, steps[..i + 1]).Some?
    ensures Apply(After(w, steps, i), steps[i]) == Some(After(w, steps, i + 1))
    decreases i
  {
    var next := Apply(w, steps[0]).value;
    assert steps[..i + 1][0] == steps[0];
    assert steps[..i + 1][1..] == steps[1..][..i];
    if i > 0 {
      assert steps[..i][1..] == steps[1..][..i - 1];
      RunStepByStep(next, steps[1..], i - 1);
    } else {
      assert steps[1..][..0] == [];
    }
  }

  /** What a worker has done since its start to be where it is. */
  function Path(pc: Pc, asksFirst: bool, id: nat): seq<Step> {
    var ready := if asksFirst then [TakeLock(id), Look(id), Look(id), Allow(id), Look(id)]
                 else [TakeLock(id), Look(id), Look(id)];
    match pc
    case Waiting => []
    case FirstRead => [TakeLock(id)]
    case SecondRead => [TakeLock(id), Look(id)]
    case Authorizer => [TakeLock(id), Look(id), Look(id)]
    case ThirdRead => [TakeLock(id), Look(id), Look(id), Allow(id)]
    case LegacyCheck => ready
    case CreateJournal => ready + [CheckLegacy(id)]
    case Post => ready + [CheckLegacy(id), MakeJournal(id)]
    case Done => []
  }

  /** Every look since the start showed a history that cleared the reply. */
  ghost predicate EveryLookCleared(w: World, steps: seq<Step>, s: nat, id: nat, r: Reply)
    requires Run(w, steps).Some?
  {
    forall i :: s < i < |steps| && steps[i] == Look(id) ==>
      Run(w, steps[..i]).Some? && r.Valid() && Cleared(After(w, steps, i).history, r)
  }

  /** The worker's last read is the history its last look showed. */
  ghost predicate IsLastLook(w: World, steps: seq<Step>, b: nat, id: nat, h: History) {
    && b < |steps| && steps[b] == Look(id)
    && (forall i :: b < i < |steps| ==> steps[i] != Look(id))
    && Run(w, steps[..b]).Some? && After(w, steps, b).history == h
  }

  /** The worker was started by step `s`, and has gone from there to where it is. */
  ghost predicate CameFrom(w: World, steps: seq<Step>, s: nat, id: nat, worker: Worker)
    requires Run(w, steps).Some?
  {
    && s < |steps| && steps[s] == Start(id, worker.reply, worker.asksFirst)
    && Own(steps[s + 1..], id) == Path(worker.pc, worker.asksFirst, id)
    && (worker.pc in {Authorizer, ThirdRead} ==> worker.asksFirst)
    && EveryLookCleared(w, steps, s, id, worker.reply)
  }

  /** A step leaves a worker that is still on its way as its own steps say. */
  lemma WorkerMoves(w: World, step: Step, next: World, id: nat)
    requires Apply(w, step) == Some(next) && id in next.workers && next.workers[id].pc != Done
    requires !(step.Start? && step.id == id)
    ensures id in w.workers && w.workers[id].pc != Done
    ensures next.workers[id].reply == w.workers[id].reply && next.workers[id].asksFirst == w.workers[id].asksFirst
    ensures !IsOf(step, id) ==> next.workers[id] == w.workers[id]
    ensures step == Look(id) ==> w.workers[id].reply.Valid() && Cleared(w.history, w.workers[id].reply)
                                 && next.workers[id].lastRead == w.history
    ensures step != Look(id) ==> next.workers[id].lastRead == w.workers[id].lastRead
  {
  }

  /** A step of its own takes a worker one step further on its path. */
  lemma PathGrows(w: World, step: Step, next: World, id: nat)
    requires Apply(w, step) == Some(next) && id in next.workers && next.workers[id].pc != Done
    requires IsOf(step, id) && !step.Start? && id in w.workers
    requires w.workers[id].pc in {Authorizer, ThirdRead} ==> w.workers[id].asksFirst
    ensures Path(next.workers[id].pc, w.workers[id].asksFirst, id)
            == Path(w.workers[id].pc, w.workers[id].asksFirst, id) + [step]
    ensures next.workers[id].pc in {Authorizer, ThirdRead} ==> w.workers[id].asksFirst
  {
  }

  /** A worker on its way was started, and has taken since then the steps that lead
      to where it is, in their order, and no other. */
  lemma {:induction false} Trail(w: World, steps: seq<Step>, last: World, id: nat) returns (s: nat)
    requires Initial(w) && Run(w, steps) == Some(last)
    requires id in last.workers && last.workers[id].pc != Done
    ensures CameFrom(w, steps, s, id, last.workers[id])
    decreases |steps|
  {
    assert steps != [];
    var n := |steps| - 1;
    RunStepByStep(w, steps, n);
    assert steps[..n + 1] == steps;
    var before, step := After(w, steps, n), steps[n];
    if step.Start? && step.id == id {
      s := n;
    } else {
      WorkerMoves(before, step, last, id);
      s := Trail(w, steps[..n], before, id);
      if IsOf(step, id) {
        PathGrows(before, step, last, id);
      }
      OneMoreStep(steps, s, id);
      OneMoreLook(w, steps, s, id, before.workers[id].reply);
    }
  }

  lemma OneMoreLook(w: World, steps: seq<Step>, s: nat, id: nat, r: Reply)
    requires steps != [] && Run(w, steps).Some? && Run(w, steps[..|steps| - 1]).Some?
    requires EveryLookCleared(w, steps[..|steps| - 1], s, id, r)
    requires steps[|steps| - 1] == Look(id) ==> r.Valid() && Cleared(After(w, steps, |steps| - 1).history, r)
    ensures EveryLookCleared(w, steps, s, id, r)
  {
    var n := |steps| - 1;
    forall i | s < i < |steps| && steps[i] == Look(id)
      ensures Run(w, steps[..i]).Some? && r.Valid() && Cleared(After(w, steps, i).history, r)
    {
      if i < n {
        assert steps[..n][..i] == steps[..i] && steps[..n][i] == Look(id);
      }
    }
  }

  lemma OneMoreStep(steps: seq<Step>, s: nat, id: nat)
    requires s + 1 < |steps|
    ensures var n := |steps| - 1;
            Own(steps[s + 1..], id)
            == (if IsOf(steps[n], id) then Own(steps[..n][s + 1..], id) + [steps[n]] else Own(steps[..n][s + 1..], id))
  {
    var n, since := |steps| - 1, steps[s + 1..];
    assert since[..|since| - 1] == steps[..n][s + 1..];
  }

  /** What a worker has read last is what its last look showed. */
  lemma {:induction false} LastLook(w: World, steps: seq<Step>, last: World, id: nat) returns (b: nat)
    requires Initial(w) && Run(w, steps) == Some(last)
    requires id in last.workers && last.workers[id].pc !in {Waiting, FirstRead, Done}
    ensures IsLastLook(w, steps, b, id, last.workers[id].lastRead)
    decreases |steps|
  {
    assert steps != [];
    var n := |steps| - 1;
    RunStepByStep(w, steps, n);
    assert steps[..n + 1] == steps;
    var before, step := After(w, steps, n), steps[n];
    WorkerMoves(before, step, last, id);
    if step == Look(id) {
      b := n;
    } else {
      b := LastLook(w, steps[..n], before, id);
      assert steps[..n][..b] == steps[..b];
      assert forall i :: 0 <= i < n ==> steps[i] == steps[..n][i];
    }
  }

  /** The steps that led to a POST, since the worker's start. */
  lemma ThePathToAPost(w: World, steps: seq<Step>, k: nat, before: World, id: nat) returns (s: nat)
    requires Initial(w) && k <= |steps| && Run(w, steps[..k]) == Some(before)
    requires id in before.workers && before.workers[id].pc == Post
    ensures s < k && steps[s] == Start(id, before.workers[id].reply, before.workers[id].asksFirst)
    ensures Own(steps[s + 1..k], id) == Path(Post, steps[s].asksFirst, id)
    ensures EveryLookCleared(w, steps[..k], s, id, steps[s].reply)
  {
    s := Trail(w, steps[..k], before, id);
    assert steps[..k][s + 1..] == steps[s + 1..k];
  }

  /** The look that a POST goes by. */
  lemma TheLookOfAPost(w: World, steps: seq<Step>, k: nat, before: World, id: nat, s: nat) returns (b: nat)
    requires Initial(w) && k <= |steps| && Run(w, steps[..k]) == Some(before)
    requires id in before.workers && before.workers[id].pc == Post
    requires s < k && steps[s].Start? && Look(id) in Own(steps[s + 1..k], id)
    ensures s < b < k && steps[b] == Look(id) && forall i :: b < i < k ==> steps[i] != Look(id)
    ensures Run(w, steps[..b]).Some? && After(w, steps, b).history == before.workers[id].lastRead
  {
    b := LastLook(w, steps[..k], before, id);
    assert steps[..k][..b] == steps[..b] && steps[..k][s + 1..] == steps[s + 1..k];
    assert forall i :: 0 <= i < k ==> steps[i] == steps[..k][i];
    LookIsSince(steps[..k], s, b, id);
  }

  /** In every run, between the start of a worker and its POST the worker has taken
      exactly these steps, in this order: the lock, two looks and, when it has to ask,
      the authorizer's consent and one more look, the check for a whole reply, the
      journal. Every look showed a history that let the reply proceed, and what goes
      out is the reply it was started with, on what the last look showed. */
  lemma EveryPostTookItsSteps(w: World, steps: seq<Step>, last: World, k: nat) returns (s: nat, b: nat)
    requires Initial(w) && Run(w, steps) == Some(last) && k < |steps| && steps[k].IssuePost?
    ensures s < b < k && steps[s].Start? && steps[s].id == steps[k].id && Run(w, steps[..k]).Some? && Run(w, steps[..k + 1]).Some?
    ensures var id := steps[k].id;
            Own(steps[s + 1..k], id)
            == if steps[s].asksFirst then
                 [TakeLock(id), Look(id), Look(id), Allow(id), Look(id), CheckLegacy(id), MakeJournal(id)]
               else [TakeLock(id), Look(id), Look(id), CheckLegacy(id), MakeJournal(id)]
    ensures EveryLookCleared(w, steps[..k], s, steps[k].id, steps[s].reply)
    ensures steps[b] == Look(steps[k].id) && forall i :: b < i < k ==> steps[i] != Look(steps[k].id)
    ensures Run(w, steps[..b]).Some?
    ensures After(w, steps, k + 1).issued
            == After(w, steps, k).issued + [Issue(steps[s].reply, After(w, steps, b).history)]
  {
    var id := steps[k].id;
    RunStepByStep(w, steps, k);
    var before := After(w, steps, k);
    IssuesItsReply(before, id, After(w, steps, k + 1));
    s := ThePathToAPost(w, steps, k, before, id);
    b := TheLookOfAPost(w, steps, k, before, id, s);
  }

  lemma IssuesItsReply(w: World, id: nat, next: World)
    requires Apply(w, IssuePost(id)) == Some(next)
    ensures id in w.workers && next.issued == w.issued + [Issue(w.workers[id].reply, w.workers[id].lastRead)]
    ensures w.workers[id].pc == Post
  {
  }

  lemma LookIsSince(steps: seq<Step>, s: nat, b: nat, id: nat)
    requires s < |steps| && steps[s].Start? && b < |steps|
    requires Look(id) in Own(steps[s + 1..], id) && forall i :: b < i < |steps| ==> steps[i] != Look(id)
    requires steps[b] == Look(id)
    ensures s < b
  {
    OwnAreThere(steps[s + 1..], id);
    var since := steps[s + 1..];
    var i :| 0 <= i < |since| && since[i] == Look(id);
    assert steps[s + 1 + i] == Look(id);
  }

  lemma {:induction false} OwnAreThere(steps: seq<Step>, id: nat)
    ensures forall x :: x in Own(steps, id) ==> x in steps
  {
    if steps != [] {
      OwnAreThere(steps[..|steps| - 1], id);
    }
  }

  /** A worker that gave up, refused by the authorizer or for another reason, posts
      nothing unless it is started again. */
  lemma WhoGaveUpPostsNothing(w: World, steps: seq<Step>, last: World, g: nat, k: nat) returns (s: nat)
    requires Initial(w) && Run(w, steps) == Some(last)
    requires g < k < |steps| && steps[g].GiveUp? && steps[k] == IssuePost(steps[g].id)
    ensures g < s < k && steps[s].Start? && steps[s].id == steps[g].id
  {
    var b;
    s, b := EveryPostTookItsSteps(w, steps, last, k);
    if s < g {
      OwnHasThem(steps[s + 1..k], steps[g].id, g - s - 1);
    }
  }
}
