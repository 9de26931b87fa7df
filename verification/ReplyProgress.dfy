/** A worker that is left alone delivers: the protocol does post what it may, up to the
    last part of a reply. */
module ReplyProgress {
  import opened Wrappers
  import opened Messages
  import opened HistoryReader
  import opened ReplyAuthorization
  import opened ReplyDecision
  import opened ReplyProtocol
  import opened ReplyOrder

  /** Nobody is at work on the batch, and nobody has claimed the reply or a whole one. */
  predicate FreeFor(w: World, id: nat, r: Reply) {
    && r.Valid() && r.conversation == w.conversation && r.bot == w.bot
    && id !in w.workers && r.BatchHash() !in w.locks && r !in w.inFlight
    && r.ReplyHash() !in w.journals && r.BatchHash() !in w.journals
  }

  lemma RunOne(w: World, step: Step, next: World)
    requires Apply(w, step) == Some(next)
    ensures Run(w, [step]) == Some(next)
  {
    assert [step][1..] == [];
  }

  lemma RunTwo(w: World, a: Step, middle: World, b: Step, next: World)
    requires Apply(w, a) == Some(middle) && Apply(middle, b) == Some(next)
    ensures Run(w, [a, b]) == Some(next)
  {
    RunOne(middle, b, next);
    assert [a, b][1..] == [b];
  }

  lemma {:induction false} RunInTwo(w: World, first: seq<Step>, middle: World, second: seq<Step>)
    requires Run(w, first) == Some(middle)
    ensures Run(w, first + second) == Run(middle, second)
    decreases |first|
  {
    if first == [] {
      assert first + second == second;
    } else {
      assert (first + second)[1..] == first[1..] + second;
      RunInTwo(Apply(w, first[0]).value, first[1..], middle, second);
    }
  }

  /** The world while a lone worker is at work. */
  function At(w: World, id: nat, r: Reply, asks: bool, pc: Pc, lastRead: History): World {
    w.(workers := w.workers[id := Worker(r, asks, pc, lastRead)], locks := w.locks[r.BatchHash() := id])
  }

  function AfterDelivery(w: World, r: Reply, messageId: int): World {
    w.(history := w.history + [Posted(r, messageId, 0)],
       journals := w.journals + {r.ReplyHash()},
       issued := w.issued + [Issue(r, w.history)])
  }

  /** The reply goes out once the history clears it: the steps of a worker that nothing
      stops, from its start to its end, whether or not it has to ask first. */
  lemma ALoneWorkerDelivers(w: World, id: nat, r: Reply, asks: bool, messageId: int) returns (steps: seq<Step>, last: World)
    requires FreeFor(w, id, r) && Cleared(w.history, r) && NewId(w.history, messageId)
    ensures Run(w, steps) == Some(last) && last == AfterDelivery(w, r, messageId)
    ensures var m := last.history[|w.history|];
            && m.id == messageId && IsOurPart(m, r, r.index, r.content)
            && (r.count == 1 ==> m.marks == Some(Marks(Some(Batch(r.conversation, r.trigger)), None, None, None)))
  {
    last := AfterDelivery(w, r, messageId);
    var h := w.history;
    var claimed := w.(journals := w.journals + {r.ReplyHash()});
    var issued := claimed.(issued := w.issued + [Issue(r, h)]);
    var ready, posted := At(w, id, r, asks, LegacyCheck, h), At(issued.(inFlight := w.inFlight + {r}), id, r, asks, Done, h);
    var a := GetsReady(w, id, r, asks);
    var b := PostsOnce(w, id, r, asks, h);
    LandsAndLeaves(issued, id, r, asks, h, messageId);
    RunTwo(posted, Land(r, messageId, 0), At(AfterDelivery(w, r, messageId), id, r, asks, Done, h), Leave(id),
           AfterDelivery(w, r, messageId));
    RunInTwo(w, a, ready, b);
    RunInTwo(w, a + b, posted, [Land(r, messageId, 0), Leave(id)]);
    steps := a + b + [Land(r, messageId, 0), Leave(id)];
  }

  /** Up to the claim: the lock, the two reads and, for a worker that has to ask, the
      authorizer's consent and the third. */
  lemma GetsReady(w: World, id: nat, r: Reply, asks: bool) returns (steps: seq<Step>)
    requires FreeFor(w, id, r) && Cleared(w.history, r)
    ensures Run(w, steps) == Some(At(w, id, r, asks, LegacyCheck, w.history))
  {
    var h, first := w.history, At(w, id, r, asks, FirstRead, []);
    var looked := At(w, id, r, asks, if asks then Authorizer else LegacyCheck, h);
    TakesOff(w, id, r, asks);
    RunTwo(w, Start(id, r, asks), w.(workers := w.workers[id := Worker(r, asks, Waiting, [])]), TakeLock(id), first);
    Looks(w, id, r, asks, FirstRead, []);
    Looks(w, id, r, asks, SecondRead, h);
    RunTwo(first, Look(id), At(w, id, r, asks, SecondRead, h), Look(id), looked);
    RunInTwo(w, [Start(id, r, asks), TakeLock(id)], first, [Look(id), Look(id)]);
    steps := [Start(id, r, asks), TakeLock(id)] + [Look(id), Look(id)];
    if asks {
      IsAllowed(w, id, r, h);
      Looks(w, id, r, true, ThirdRead, h);
      RunTwo(looked, Allow(id), At(w, id, r, true, ThirdRead, h), Look(id), At(w, id, r, true, LegacyCheck, h));
      RunInTwo(w, steps, looked, [Allow(id), Look(id)]);
      steps := steps + [Allow(id), Look(id)];
    }
  }

  /** The claim and the POST. */
  lemma PostsOnce(w: World, id: nat, r: Reply, asks: bool, lastRead: History) returns (steps: seq<Step>)
    requires r.ReplyHash() !in w.journals && r.BatchHash() !in w.journals
    ensures Run(At(w, id, r, asks, LegacyCheck, lastRead), steps)
            == Some(At(w.(journals := w.journals + {r.ReplyHash()}, issued := w.issued + [Issue(r, lastRead)],
                          inFlight := w.inFlight + {r}), id, r, asks, Done, lastRead))
  {
    var claimed := w.(journals := w.journals + {r.ReplyHash()});
    var checked := At(w, id, r, asks, CreateJournal, lastRead);
    Checks(w, id, r, asks, lastRead);
    Posts(w, id, r, asks, lastRead);
    RunOne(At(w, id, r, asks, LegacyCheck, lastRead), CheckLegacy(id), checked);
    RunTwo(checked, MakeJournal(id), At(claimed, id, r, asks, Post, lastRead), IssuePost(id),
           At(claimed.(issued := w.issued + [Issue(r, lastRead)], inFlight := w.inFlight + {r}), id, r, asks, Done, lastRead));
    RunInTwo(At(w, id, r, asks, LegacyCheck, lastRead), [CheckLegacy(id)], checked, [MakeJournal(id), IssuePost(id)]);
    steps := [CheckLegacy(id)] + [MakeJournal(id), IssuePost(id)];
  }

  lemma TakesOff(w: World, id: nat, r: Reply, asks: bool)
    requires FreeFor(w, id, r)
    ensures Apply(w, Start(id, r, asks)) == Some(w.(workers := w.workers[id := Worker(r, asks, Waiting, [])]))
    ensures Apply(w.(workers := w.workers[id := Worker(r, asks, Waiting, [])]), TakeLock(id)) == Some(At(w, id, r, asks, FirstRead, []))
  {
    Replaced(w.workers, id, Worker(r, asks, Waiting, []), Worker(r, asks, FirstRead, []));
  }

  lemma Replaced(workers: map<nat, Worker>, id: nat, a: Worker, b: Worker)
    ensures workers[id := a][id := b] == workers[id := b]
  {
  }

  lemma Looks(w: World, id: nat, r: Reply, asks: bool, pc: Pc, lastRead: History)
    requires r.Valid() && Cleared(w.history, r) && (pc == FirstRead || pc == SecondRead || pc == ThirdRead)
    ensures var next := if pc == FirstRead then SecondRead else if pc == SecondRead && asks then Authorizer else LegacyCheck;
            Apply(At(w, id, r, asks, pc, lastRead), Look(id)) == Some(At(w, id, r, asks, next, w.history))
  {
    Replaced(w.workers, id, Worker(r, asks, pc, lastRead),
             Worker(r, asks, if pc == FirstRead then SecondRead else if pc == SecondRead && asks then Authorizer else LegacyCheck,
                    w.history));
  }

  lemma IsAllowed(w: World, id: nat, r: Reply, lastRead: History)
    ensures Apply(At(w, id, r, true, Authorizer, lastRead), Allow(id)) == Some(At(w, id, r, true, ThirdRead, lastRead))
  {
    Replaced(w.workers, id, Worker(r, true, Authorizer, lastRead), Worker(r, true, ThirdRead, lastRead));
  }

  lemma Checks(w: World, id: nat, r: Reply, asks: bool, lastRead: History)
    requires r.BatchHash() !in w.journals
    ensures Apply(At(w, id, r, asks, LegacyCheck, lastRead), CheckLegacy(id)) == Some(At(w, id, r, asks, CreateJournal, lastRead))
  {
    Replaced(w.workers, id, Worker(r, asks, LegacyCheck, lastRead), Worker(r, asks, CreateJournal, lastRead));
  }

  lemma Posts(w: World, id: nat, r: Reply, asks: bool, lastRead: History)
    requires r.ReplyHash() !in w.journals
    ensures var claimed := w.(journals := w.journals + {r.ReplyHash()});
            && Apply(At(w, id, r, asks, CreateJournal, lastRead), MakeJournal(id)) == Some(At(claimed, id, r, asks, Post, lastRead))
            && Apply(At(claimed, id, r, asks, Post, lastRead), IssuePost(id))
               == Some(At(claimed.(issued := w.issued + [Issue(r, lastRead)], inFlight := w.inFlight + {r}), id, r, asks, Done, lastRead))
  {
    assert w.workers[id := Worker(r, asks, CreateJournal, lastRead)][id := Worker(r, asks, Post, lastRead)]
        == w.workers[id := Worker(r, asks, Post, lastRead)];
    assert w.workers[id := Worker(r, asks, Post, lastRead)][id := Worker(r, asks, Done, lastRead)]
        == w.workers[id := Worker(r, asks, Done, lastRead)];
  }

  lemma LandsAndLeaves(w: World, id: nat, r: Reply, asks: bool, lastRead: History, messageId: int)
    requires id !in w.workers && r.BatchHash() !in w.locks && r !in w.inFlight && NewId(w.history, messageId)
    ensures var flying := At(w.(inFlight := w.inFlight + {r}), id, r, asks, Done, lastRead);
            var landed := w.(history := w.history + [Posted(r, messageId, 0)]);
            && Apply(flying, Land(r, messageId, 0)) == Some(At(landed, id, r, asks, Done, lastRead))
            && Apply(At(landed, id, r, asks, Done, lastRead), Leave(id)) == Some(landed)
  {
    assert w.inFlight + {r} - {r} == w.inFlight;
    assert w.workers[id := Worker(r, asks, Done, lastRead)] - {id} == w.workers;
    assert w.locks[r.BatchHash() := id] - {r.BatchHash()} == w.locks;
  }

  /** The first `k` parts as they are posted, numbered after the trigger. */
  function PartsPosted(m: Manifest, k: nat): History
    requires k <= |m.texts|
  {
    seq(k, i requires 0 <= i < k => Posted(m.PartOf(i + 1), m.trigger + i + 1, 0))
  }

  /** The history ends with the trigger, and holds nothing of ours. */
  ghost predicate EndsWithTrigger(h: History, m: Manifest) {
    && h != [] && Increasing(h) && h[|h| - 1].id == m.trigger && ValidTrigger(h[|h| - 1])
    && (forall x :: x in h ==> !Ours(x, m.bot))
  }

  lemma PartsAreInOrder(h: History, m: Manifest, k: nat)
    requires m.Valid() && EndsWithTrigger(h, m) && k <= |m.texts|
    ensures Increasing(h + PartsPosted(m, k))
  {
    assert forall i :: 0 <= i < |h| ==> h[i].id <= m.trigger;
  }

  lemma {:induction false} FindInOrder(h: History, i: nat)
    requires Increasing(h) && i < |h|
    ensures Find(h, h[i].id) == Some(i)
  {
    if i > 0 {
      FindInOrder(h[1..], i - 1);
    }
  }

  lemma {:induction false} AllShown(h: History)
    requires forall i :: 0 <= i < |h| ==> Relevant(h[i])
    ensures Shown(h) == h
  {
    if h != [] {
      AllShown(h[1..]);
    }
  }

  lemma NothingCarriesTheNext(h: History, m: Manifest, k: nat)
    requires m.Valid() && EndsWithTrigger(h, m) && k < |m.texts|
    ensures NoneCarries(h + PartsPosted(m, k), m.PartOf(k + 1))
  {
    var r, parts := m.PartOf(k + 1), PartsPosted(m, k);
    forall x | x in h + parts
      ensures !Carries(x, r.bot, r.ReplyHash())
    {
      if x in parts {
        var i :| 0 <= i < k && parts[i] == x;
      } else {
        assert x in h;
      }
    }
  }

  lemma PartsShowExactly(m: Manifest, k: nat)
    requires m.Valid() && k < |m.texts|
    ensures ShowsExactlyTheEarlierParts(Shown(PartsPosted(m, k)), m.PartOf(k + 1))
  {
    var parts, r := PartsPosted(m, k), m.PartOf(k + 1);
    AllShown(parts);
    forall i | 0 <= i < k
      ensures IsPart(parts[i], r, i + 1, r.prior[i])
    {
      assert parts[i] == Posted(m.PartOf(i + 1), m.trigger + i + 1, 0);
    }
  }

  lemma TheNextPartMayGoOut(h: History, m: Manifest, k: nat)
    requires m.Valid() && EndsWithTrigger(h, m) && k < |m.texts|
    ensures MayGoOut(h + PartsPosted(m, k), m.PartOf(k + 1))
  {
    var all := h + PartsPosted(m, k);
    PartsAreInOrder(h, m, k);
    FindInOrder(all, |h| - 1);
    assert Find(all, m.trigger) == Some(|h| - 1);
    NothingCarriesTheNext(h, m, k);
    assert all[|h|..] == PartsPosted(m, k);
    PartsShowExactly(m, k);
  }

  /** With the earlier parts posted, and only them after the trigger, the next one is cleared. */
  lemma TheNextPartIsCleared(h: History, m: Manifest, k: nat)
    requires m.Valid() && EndsWithTrigger(h, m) && k < |m.texts| && |h| + k < REACH
    ensures Cleared(h + PartsPosted(m, k), m.PartOf(k + 1))
  {
    var all, r := h + PartsPosted(m, k), m.PartOf(k + 1);
    PartsAreInOrder(h, m, k);
    ReadForReply(all, m.trigger);
    TheNextPartMayGoOut(h, m, k);
    ProceedMeansMayGoOut(all, r);
  }

  /** The journals of the first `k` parts. */
  function PartHashes(m: Manifest, k: nat): set<Hash> {
    if k == 0 then {} else PartHashes(m, k - 1) + {PartHash(m.BatchHash(), k, |m.texts|)}
  }

  lemma {:induction false} LaterHashIsNew(m: Manifest, k: nat, j: nat)
    requires 1 <= |m.texts| && j < k <= |m.texts|
    ensures PartHash(m.BatchHash(), k, |m.texts|) !in PartHashes(m, j)
    ensures |m.texts| > 1 ==> m.BatchHash() !in PartHashes(m, j)
  {
    if j > 0 {
      LaterHashIsNew(m, k, j - 1);
    }
  }

  /** Nobody is at work, and no part of the reply has been claimed. */
  ghost predicate Untouched(w: World, m: Manifest) {
    && w.workers == map[] && w.locks == map[] && w.inFlight == {}
    && m.BatchHash() !in w.journals
    && forall i :: 1 <= i <= |m.texts| ==> PartHash(m.BatchHash(), i, |m.texts|) !in w.journals
  }

  /** The world once a lone worker has delivered each of the first `k` parts. */
  function Arrived(w: World, m: Manifest, k: nat): World
    requires k <= |m.texts|
  {
    if k == 0 then w else AfterDelivery(Arrived(w, m, k - 1), m.PartOf(k), m.trigger + k)
  }

  /** The history ends with the parts in order; the journals are theirs; nobody is left at work. */
  lemma {:induction false} ArrivedMeans(w: World, m: Manifest, k: nat)
    requires k <= |m.texts|
    ensures var last := Arrived(w, m, k);
            && last.history == w.history + PartsPosted(m, k)
            && last.journals == w.journals + PartHashes(m, k)
            && last.conversation == w.conversation && last.bot == w.bot
            && last.workers == w.workers && last.locks == w.locks && last.inFlight == w.inFlight
  {
    if k == 0 {
      assert w.history + PartsPosted(m, 0) == w.history;
    } else {
      ArrivedMeans(w, m, k - 1);
      var posted := Posted(m.PartOf(k), m.trigger + k, 0);
      assert PartsPosted(m, k) == PartsPosted(m, k - 1) + [posted];
      assert w.history + PartsPosted(m, k - 1) + [posted] == w.history + PartsPosted(m, k);
      assert m.PartOf(k).ReplyHash() == PartHash(m.BatchHash(), k, |m.texts|);
    }
  }

  /** A reply that nobody touches can arrive whole: one lone worker after the other
      brings its parts, up to the last. */
  lemma {:induction false} TheReplyCanArrive(w: World, m: Manifest, k: nat) returns (steps: seq<Step>)
    requires m.Valid() && m.conversation == w.conversation && m.bot == w.bot
    requires EndsWithTrigger(w.history, m) && |w.history| + |m.texts| <= REACH && Untouched(w, m)
    requires k <= |m.texts|
    ensures Run(w, steps) == Some(Arrived(w, m, k))
  {
    if k == 0 {
      steps := [];
    } else {
      var before := TheReplyCanArrive(w, m, k - 1);
      var worker := TheNextPartArrives(w, m, k);
      steps := before + worker;
      RunInTwo(w, before, Arrived(w, m, k - 1), worker);
    }
  }

  lemma TheNextPartArrives(w: World, m: Manifest, k: nat) returns (worker: seq<Step>)
    requires m.Valid() && m.conversation == w.conversation && m.bot == w.bot
    requires EndsWithTrigger(w.history, m) && |w.history| + |m.texts| <= REACH && Untouched(w, m)
    requires 1 <= k <= |m.texts|
    ensures Run(Arrived(w, m, k - 1), worker) == Some(Arrived(w, m, k))
  {
    MayDeliver(w, m, k);
    var last;
    worker, last := ALoneWorkerDelivers(Arrived(w, m, k - 1), 0, m.PartOf(k), false, m.trigger + k);
  }

  lemma MayDeliver(w: World, m: Manifest, k: nat)
    requires m.Valid() && m.conversation == w.conversation && m.bot == w.bot
    requires EndsWithTrigger(w.history, m) && |w.history| + |m.texts| <= REACH && Untouched(w, m)
    requires 1 <= k <= |m.texts|
    ensures var middle := Arrived(w, m, k - 1);
            FreeFor(middle, 0, m.PartOf(k)) && Cleared(middle.history, m.PartOf(k)) && NewId(middle.history, m.trigger + k)
  {
    ArrivedMeans(w, m, k - 1);
    StillFree(w, m, k);
    NextIdIsNew(w.history, m, k);
    TheNextPartIsCleared(w.history, m, k - 1);
  }

  lemma NextIdIsNew(h: History, m: Manifest, k: nat)
    requires EndsWithTrigger(h, m) && 1 <= k <= |m.texts|
    ensures NewId(h + PartsPosted(m, k - 1), m.trigger + k)
  {
  }

  lemma StillFree(w: World, m: Manifest, k: nat)
    requires m.Valid() && m.conversation == w.conversation && m.bot == w.bot && Untouched(w, m)
    requires 1 <= k <= |m.texts|
    ensures FreeFor(Arrived(w, m, k - 1), 0, m.PartOf(k))
  {
    ArrivedMeans(w, m, k - 1);
    LaterHashIsNew(m, k, k - 1);
    assert m.PartOf(k).ReplyHash() == PartHash(m.BatchHash(), k, |m.texts|);
  }
}
